/**
 A numbered option writes one bit field of a header word: the number is shifted to the
 lowest set bit of the field's mask in 64-bit arithmetic and refused when a set bit falls
 outside the mask.
 */
module Fields {
  import opened Wrappers
  import opened Bits

  /** The position of the lowest set bit. */
  function ShiftOf(mask: nat): nat
    requires mask > 0
  {
    if mask % 2 == 1 then 0 else 1 + ShiftOf(mask / 2)
  }

  /** A left shift of a 64-bit number. */
  function ShiftLeft(value: nat, s: nat): nat { value * Pow2(s) % U64 }

  /** The bits a write stores for a number, or None when the number is refused. */
  function Place(value: nat, mask: nat): (bits: Option<nat>)
    requires mask > 0
    ensures bits.Some? ==> bits.value <= mask
  {
    Masked(ShiftLeft(value, ShiftOf(mask)), mask)
  }

  /** A shifted number when all its set bits are under the mask. */
  function Masked(shifted: nat, mask: nat): (bits: Option<nat>)
    ensures bits.Some? ==> bits.value <= mask
  {
    if AndNot(shifted, mask) != 0 then None else Some(And(shifted, mask))
  }

  /** The number held by the masked bits of a word: (w & mask) moved down to the mask's lowest bit. */
  function Extract(w: nat, mask: nat): nat
    requires mask > 0
    decreases mask
  {
    if mask % 2 == 1 then And(w, mask) else Extract(w / 2, mask / 2)
  }

  /** The largest number a field can hold. */
  function FieldMax(mask: nat): nat
    requires mask > 0
  {
    if mask % 2 == 1 then mask else FieldMax(mask / 2)
  }

  /** What is left of a number after the 64-bit shift has dropped its high bits. */
  function Kept(value: nat, mask: nat): nat
    requires mask > 0
  {
    if ShiftOf(mask) < 64 then value % Pow2(64 - ShiftOf(mask)) else 0
  }

  /** The mask is one unbroken, nonempty run of bits of a 64-bit number. */
  ghost predicate IsRun(mask: nat, s: nat, k: nat) {
    k > 0 && s + k <= 64 && mask == BitRun(s, k)
  }

  /**
   For every field: a number is accepted exactly when what the shift keeps of it fits, the
   field then reads back as that number, and no bit outside the mask changes.
   */
  lemma FieldLaw(value: nat, mask: nat, s: nat, k: nat, w: nat)
    requires IsRun(mask, s, k) && mask > 0
    ensures FieldMax(mask) == Pow2(k) - 1
    ensures Place(value, mask).Some? <==> Kept(value, mask) <= FieldMax(mask)
    ensures Place(value, mask).Some? ==>
              var w' := Merge(w, mask, Place(value, mask).value);
              && Extract(w', mask) == Kept(value, mask)
              && AndNot(w', mask) == AndNot(w, mask)
  {
    RunShift(s, k);
    MaxOfRun(s, k);
    PlaceRun(value, s, k);
    if Place(value, mask).Some? {
      WrittenRun(w, Place(value, mask).value, s, k, Kept(value, mask));
    }
  }

  /** Writing a scaled number under a run of bits. */
  lemma WrittenRun(w: nat, bits: nat, s: nat, k: nat, n: nat)
    requires k > 0 && bits == n * Pow2(s) && n < Pow2(k)
    ensures var mask := BitRun(s, k);
            var w' := Merge(w, mask, bits);
            mask > 0 && Extract(w', mask) == n && AndNot(w', mask) == AndNot(w, mask)
  {
    var mask := BitRun(s, k);
    MergeLaw(w, mask, bits);
    ExtractScaled(bits, s, k, n);
    ExtractMasked(Merge(w, mask, bits), bits, s, k);
  }

  /** The same with the field as a quotient and a remainder of the word. */
  lemma WrittenValue(w: nat, mask: nat, s: nat, k: nat, value: nat)
    requires IsRun(mask, s, k) && mask > 0 && Place(value, mask).Some?
    ensures var w' := Merge(w, mask, Place(value, mask).value);
            && w' / Pow2(s) % Pow2(k) == value % Pow2(64 - s)
            && AndNot(w', BitRun(s, k)) == AndNot(w, BitRun(s, k))
  {
    FieldLaw(value, mask, s, k, w);
    RunShift(s, k);
    ExtractRun(Merge(w, mask, Place(value, mask).value), s, k);
  }

  /**
   A caller gets the plain rule, accepted iff it fits, exactly when the shift does not wrap the
   number into the field.
   */
  lemma PlainRule(value: nat, mask: nat, s: nat, k: nat)
    requires IsRun(mask, s, k) && mask > 0
    ensures (Place(value, mask).Some? <==> value <= FieldMax(mask))
            <==> value < Pow2(64 - s) || Kept(value, mask) > FieldMax(mask)
  {
    FieldLaw(value, mask, s, k, 0);
    RunShift(s, k);
    PowMono(k, 64 - s);
    if value < Pow2(64 - s) {
      DivModUnique(value, Pow2(64 - s), 0, value);
    }
  }

  /** The shift keeps every number that fits the field. */
  lemma KeptWhole(n: nat, mask: nat, s: nat, k: nat)
    requires IsRun(mask, s, k) && mask > 0 && n <= FieldMax(mask)
    ensures Kept(n, mask) == n < U64
  {
    RunShift(s, k);
    MaxOfRun(s, k);
    PowMono(k, 64 - s);
    PowMono(64 - s, 64);
    Pow64();
    DivModUnique(n, Pow2(64 - s), 0, n);
  }

  /** The plain rule can fail: 2^56 is too large for the 7-bit function code but is stored as 0. */
  lemma OversizedAccepted()
    ensures FieldMax(0x7F00) == 0x7F
    ensures Place(0x100_0000_0000_0000, 0x7F00) == Some(0)
  {
    assert ShiftOf(0x7F00) == 8;
    Pow64();
    assert ShiftLeft(0x100_0000_0000_0000, 8) == 0;
    assert Masked(0, 0x7F00) == Some(0);
  }

  // ---- steps ----

  lemma {:induction false} MaxOfRun(s: nat, k: nat)
    requires k > 0
    ensures BitRun(s, k) > 0 && FieldMax(BitRun(s, k)) == Pow2(k) - 1
    decreases s
  {
    if s > 0 {
      MaxOfRun(s - 1, k);
      MaxEven(BitRun(s - 1, k));
    } else {
      RunValue(0, k);
      MaxOdd(BitRun(0, k - 1));
    }
  }

  lemma MaxEven(mask: nat)
    requires mask > 0
    ensures FieldMax(2 * mask) == FieldMax(mask)
  {
  }

  lemma MaxOdd(mask: nat)
    ensures FieldMax(2 * mask + 1) == 2 * mask + 1
  {
  }

  /** A field of k bits above the lowest s is a quotient and a remainder of the word. */
  lemma {:induction false} ExtractRun(w: nat, s: nat, k: nat)
    requires k > 0
    ensures BitRun(s, k) > 0 && Extract(w, BitRun(s, k)) == w / Pow2(s) % Pow2(k)
    decreases s
  {
    if s > 0 {
      ExtractRun(w / 2, s - 1, k);
      DivPow(w, s);
      ExtractEven(w, BitRun(s - 1, k));
    } else {
      AndLow(w, k);
      ExtractOdd(w, BitRun(0, k - 1));
    }
  }

  lemma ExtractEven(w: nat, mask: nat)
    requires mask > 0
    ensures Extract(w, 2 * mask) == Extract(w / 2, mask)
  {
  }

  lemma ExtractOdd(w: nat, mask: nat)
    ensures Extract(w, 2 * mask + 1) == And(w, 2 * mask + 1)
  {
    var odd := 2 * mask + 1;
    assert odd % 2 == 1;
  }

  lemma {:induction false} ExtractSelf(mask: nat)
    requires mask > 0
    ensures Extract(mask, mask) == FieldMax(mask)
    decreases mask
  {
    if mask % 2 == 1 { AndSelf(mask); } else { ExtractSelf(mask / 2); }
  }

  lemma {:induction false} AndSelf(n: nat)
    ensures And(n, n) == n
  {
    if n > 0 { AndSelf(n / 2); }
  }

  lemma {:induction false} ExtractZero(mask: nat)
    requires mask > 0
    ensures Extract(0, mask) == 0
    decreases mask
  {
    if mask % 2 == 0 { ExtractZero(mask / 2); }
  }

  /** A field depends only on the bits under its mask. */
  lemma ExtractMasked(v: nat, w: nat, s: nat, k: nat)
    requires k > 0 && And(v, BitRun(s, k)) == And(w, BitRun(s, k))
    ensures BitRun(s, k) > 0 && Extract(v, BitRun(s, k)) == Extract(w, BitRun(s, k))
  {
    ExtractRun(v, s, k);
    ExtractRun(w, s, k);
    AndRun(v, s, k);
    AndRun(w, s, k);
    FactorEqual(v / Pow2(s) % Pow2(k), w / Pow2(s) % Pow2(k), Pow2(s));
  }

  lemma PlaceRun(value: nat, s: nat, k: nat)
    requires k > 0 && s + k <= 64 && BitRun(s, k) > 0
    ensures var kept := value % Pow2(64 - s);
            Place(value, BitRun(s, k)) == if kept < Pow2(k) then Some(kept * Pow2(s)) else None
  {
    RunShift(s, k);
    KeptScaled(value, s);
    MaskedScaled(value % Pow2(64 - s), s, k);
  }

  lemma MaskedScaled(n: nat, s: nat, k: nat)
    ensures Masked(n * Pow2(s), BitRun(s, k)) == if n < Pow2(k) then Some(n * Pow2(s)) else None
  {
    AndScaled(n, s, k);
    AndSplit(n * Pow2(s), BitRun(s, k));
    FactorEqual(n % Pow2(k), n, Pow2(s));
    if n < Pow2(k) { DivModUnique(n, Pow2(k), 0, n); }
  }

  lemma AndScaled(n: nat, s: nat, k: nat)
    ensures And(n * Pow2(s), BitRun(s, k)) == (n % Pow2(k)) * Pow2(s)
  {
    AndRun(n * Pow2(s), s, k);
    DivModUnique(n * Pow2(s), Pow2(s), n, 0);
  }

  lemma ExtractScaled(bits: nat, s: nat, k: nat, n: nat)
    requires k > 0 && bits == n * Pow2(s) && n < Pow2(k)
    ensures BitRun(s, k) > 0 && Extract(bits, BitRun(s, k)) == n
  {
    ExtractRun(bits, s, k);
    DivModUnique(bits, Pow2(s), n, 0);
    DivModUnique(n, Pow2(k), 0, n);
  }

  /** The bit at the shift is the lowest one set. */
  lemma {:induction false} LowestBit(mask: nat)
    requires mask > 0
    ensures Bit(mask, ShiftOf(mask))
    ensures forall i: nat :: i < ShiftOf(mask) ==> !Bit(mask, i)
    decreases mask
  {
    if mask % 2 == 0 {
      LowestBit(mask / 2);
      forall i: nat | i < ShiftOf(mask) ensures !Bit(mask, i) {
        if i > 0 { assert !Bit(mask / 2, i - 1); }
      }
    }
  }

  lemma {:induction false} RunShift(s: nat, k: nat)
    requires k > 0
    ensures BitRun(s, k) > 0 && ShiftOf(BitRun(s, k)) == s
    decreases s
  {
    if s > 0 { RunShift(s - 1, k); }
  }

  lemma KeptScaled(value: nat, s: nat)
    requires s <= 64
    ensures ShiftLeft(value, s) == (value % Pow2(64 - s)) * Pow2(s)
  {
    PowSum(64 - s, s);
    Pow64();
    ScaledModulus(value, Pow2(s), Pow2(64 - s));
  }

  lemma Pow64()
    ensures Pow2(8) == 0x100 && Pow2(16) == 0x1_0000 && Pow2(32) == 0x1_0000_0000 && Pow2(64) == U64
  {
    PowSquare(8, 0x100);
    PowSquare(16, 0x1_0000);
    PowSquare(32, 0x1_0000_0000);
  }

  lemma PowSquare(k: nat, p: nat)
    requires Pow2(k) == p
    ensures Pow2(2 * k) == p * p
  {
    PowSum(k, k);
  }

  lemma {:induction false} PowMono(a: nat, b: nat)
    requires a <= b
    ensures Pow2(a) <= Pow2(b)
    decreases b
  {
    if a < b { PowMono(a, b - 1); }
  }

  lemma {:induction false} AndSplit(a: nat, b: nat)
    ensures And(a, b) + AndNot(a, b) == a
  {
    if a > 0 {
      AndSplit(a / 2, b / 2);
    }
  }

  lemma FactorEqual(a: nat, b: nat, p: nat)
    requires p > 0
    ensures a * p == b * p <==> a == b
  {
    if a < b { MulMono(a + 1, b, p); } else if b < a { MulMono(b + 1, a, p); }
  }
}
