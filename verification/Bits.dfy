/**
 The bitwise operators of C on natural numbers, defined bit by bit, and the laws the rest
 of the model needs: each operator is fixed by its bits, and a mask whose set bits form one
 run selects a quotient and a remainder.
 */
module Bits {
  type byte = n: nat | n < 0x100

  /** The number of values of a 32-bit and of a 64-bit number. */
  const U32: nat := 0x1_0000_0000
  const U64: nat := 0x1_0000_0000_0000_0000

  /** A 16-bit header word. */
  type word = n: nat | n < 0x1_0000

  function Pow2(k: nat): (p: nat)
    ensures p > 0
  {
    if k == 0 then 1 else 2 * Pow2(k - 1)
  }

  /** Bit number i of n, counted from the least significant. */
  predicate Bit(n: nat, i: nat) {
    if i == 0 then n % 2 == 1 else Bit(n / 2, i - 1)
  }

  function Flag(b: bool): nat { if b then 1 else 0 }

  /** a & b */
  function And(a: nat, b: nat): (r: nat)
    ensures r <= a && r <= b
  {
    if a == 0 || b == 0 then 0 else 2 * And(a / 2, b / 2) + Flag(a % 2 == 1 && b % 2 == 1)
  }

  /** a & ~b */
  function AndNot(a: nat, b: nat): (r: nat)
    ensures r <= a
  {
    if a == 0 then 0 else 2 * AndNot(a / 2, b / 2) + Flag(a % 2 == 1 && b % 2 == 0)
  }

  /** a | b */
  function Or(a: nat, b: nat): nat {
    if a == 0 then b else if b == 0 then a else 2 * Or(a / 2, b / 2) + Flag(a % 2 == 1 || b % 2 == 1)
  }

  /** a ^ b */
  function Xor(a: nat, b: nat): nat {
    if a == 0 then b else if b == 0 then a else 2 * Xor(a / 2, b / 2) + Flag(a % 2 != b % 2)
  }

  // ---- every operator is fixed by its bits ----

  lemma {:induction false} BitZero(i: nat)
    ensures !Bit(0, i)
  {
    if i > 0 { BitZero(i - 1); }
  }

  lemma {:induction false} BitAnd(a: nat, b: nat, i: nat)
    ensures Bit(And(a, b), i) <==> Bit(a, i) && Bit(b, i)
  {
    BitZero(i);
    if i > 0 && a > 0 && b > 0 { BitAnd(a / 2, b / 2, i - 1); }
  }

  lemma {:induction false} BitAndNot(a: nat, b: nat, i: nat)
    ensures Bit(AndNot(a, b), i) <==> Bit(a, i) && !Bit(b, i)
  {
    BitZero(i);
    if a > 0 {
      AndNotHalves(a, b);
      if i > 0 { BitAndNot(a / 2, b / 2, i - 1); }
    }
  }

  lemma AndNotHalves(a: nat, b: nat)
    ensures AndNot(a, b) / 2 == AndNot(a / 2, b / 2)
    ensures AndNot(a, b) % 2 == Flag(a % 2 == 1 && b % 2 == 0)
  {
  }

  lemma {:induction false} BitOr(a: nat, b: nat, i: nat)
    ensures Bit(Or(a, b), i) <==> Bit(a, i) || Bit(b, i)
  {
    BitZero(i);
    if i > 0 && a > 0 && b > 0 { BitOr(a / 2, b / 2, i - 1); }
  }

  lemma {:induction false} BitXor(a: nat, b: nat, i: nat)
    ensures Bit(Xor(a, b), i) <==> Bit(a, i) != Bit(b, i)
  {
    BitZero(i);
    if i > 0 && a > 0 && b > 0 { BitXor(a / 2, b / 2, i - 1); }
  }

  /** Two numbers with the same bits are equal. */
  lemma {:induction false} SameBits(a: nat, b: nat)
    requires forall i: nat :: Bit(a, i) == Bit(b, i)
    ensures a == b
    decreases a + b
  {
    assert Bit(a, 0) == Bit(b, 0);
    if a > 0 || b > 0 {
      forall i: nat ensures Bit(a / 2, i) == Bit(b / 2, i) {
        assert Bit(a, i + 1) == Bit(b, i + 1);
      }
      SameBits(a / 2, b / 2);
    }
  }

  /** A number below 2^k has no bit at k or above; and conversely. */
  lemma {:induction false} HighBits(n: nat, k: nat, i: nat)
    requires n < Pow2(k) && k <= i
    ensures !Bit(n, i)
  {
    if k == 0 { BitZero(i); } else { HighBits(n / 2, k - 1, i - 1); }
  }

  lemma {:induction false} BelowByBits(n: nat, k: nat)
    requires forall i: nat :: k <= i ==> !Bit(n, i)
    ensures n < Pow2(k)
    decreases n
  {
    if k == 0 {
      forall i: nat ensures Bit(n, i) == Bit(0, i) { BitZero(i); }
      SameBits(n, 0);
    } else if n > 0 {
      forall i: nat | k - 1 <= i ensures !Bit(n / 2, i) { assert !Bit(n, i + 1); }
      BelowByBits(n / 2, k - 1);
    }
  }

  // ---- the read-modify-write of a field ----

  /** (w & ~mask) | (bits & mask) */
  function Merge(w: nat, mask: nat, bits: nat): nat {
    Or(AndNot(w, mask), And(bits, mask))
  }

  lemma BitMerge(w: nat, mask: nat, bits: nat, i: nat)
    ensures Bit(Merge(w, mask, bits), i) <==> if Bit(mask, i) then Bit(bits, i) else Bit(w, i)
  {
    BitAndNot(w, mask, i);
    BitAnd(bits, mask, i);
    BitOr(AndNot(w, mask), And(bits, mask), i);
  }

  /** The masked bits become those of bits; every other bit stays; a word stays a word. */
  lemma MergeLaw(w: nat, mask: nat, bits: nat)
    ensures And(Merge(w, mask, bits), mask) == And(bits, mask)
    ensures AndNot(Merge(w, mask, bits), mask) == AndNot(w, mask)
  {
    var m := Merge(w, mask, bits);
    forall i: nat ensures Bit(And(m, mask), i) == Bit(And(bits, mask), i) {
      BitMerge(w, mask, bits, i);
      BitAnd(m, mask, i);
      BitAnd(bits, mask, i);
    }
    SameBits(And(m, mask), And(bits, mask));
    forall i: nat ensures Bit(AndNot(m, mask), i) == Bit(AndNot(w, mask), i) {
      BitMerge(w, mask, bits, i);
      BitAndNot(m, mask, i);
      BitAndNot(w, mask, i);
    }
    SameBits(AndNot(m, mask), AndNot(w, mask));
  }

  lemma AndTwice(a: nat, b: nat)
    ensures And(And(a, b), b) == And(a, b)
  {
    forall i: nat ensures Bit(And(And(a, b), b), i) == Bit(And(a, b), i) {
      BitAnd(a, b, i);
      BitAnd(And(a, b), b, i);
    }
    SameBits(And(And(a, b), b), And(a, b));
  }

  lemma MergeBelow(w: nat, mask: nat, bits: nat, k: nat)
    requires w < Pow2(k) && mask < Pow2(k)
    ensures Merge(w, mask, bits) < Pow2(k)
  {
    forall i: nat | k <= i ensures !Bit(Merge(w, mask, bits), i) {
      BitMerge(w, mask, bits, i);
      HighBits(w, k, i);
      HighBits(mask, k, i);
    }
    BelowByBits(Merge(w, mask, bits), k);
  }

  // ---- setting default bits ----

  lemma OrBelow(a: nat, b: nat, k: nat)
    requires a < Pow2(k) && b < Pow2(k)
    ensures Or(a, b) < Pow2(k)
  {
    forall i: nat | k <= i ensures !Bit(Or(a, b), i) {
      BitOr(a, b, i);
      HighBits(a, k, i);
      HighBits(b, k, i);
    }
    BelowByBits(Or(a, b), k);
  }

  /** Setting the bits c changes what a mask selects by exactly the bits of c under that mask. */
  lemma AndOfOr(w: nat, c: nat, mask: nat)
    ensures And(Or(w, c), mask) == Or(And(w, mask), And(c, mask))
  {
    var l, r := And(Or(w, c), mask), Or(And(w, mask), And(c, mask));
    forall i: nat ensures Bit(l, i) == Bit(r, i) {
      BitAnd(Or(w, c), mask, i);
      BitOr(w, c, i);
      BitAnd(w, mask, i);
      BitAnd(c, mask, i);
      BitOr(And(w, mask), And(c, mask), i);
    }
    SameBits(l, r);
  }

  lemma OrAssociative(a: nat, b: nat, c: nat)
    ensures Or(Or(a, b), c) == Or(a, Or(b, c))
  {
    forall i: nat ensures Bit(Or(Or(a, b), c), i) == Bit(Or(a, Or(b, c)), i) {
      BitOr(a, b, i);
      BitOr(Or(a, b), c, i);
      BitOr(b, c, i);
      BitOr(a, Or(b, c), i);
    }
    SameBits(Or(Or(a, b), c), Or(a, Or(b, c)));
  }

  /** Setting bits twice is setting them once. */
  lemma OrIdempotent(w: nat, c: nat)
    ensures Or(Or(w, c), c) == Or(w, c)
  {
    forall i: nat ensures Bit(Or(Or(w, c), c), i) == Bit(Or(w, c), i) {
      BitOr(w, c, i);
      BitOr(Or(w, c), c, i);
    }
    SameBits(Or(Or(w, c), c), Or(w, c));
  }

  // ---- masks whose set bits are one run ----

  /** The mask with k set bits above s clear ones. */
  function BitRun(s: nat, k: nat): nat
    decreases s, k
  {
    if s > 0 then 2 * BitRun(s - 1, k) else if k > 0 then 2 * BitRun(0, k - 1) + 1 else 0
  }

  lemma {:induction false} RunValue(s: nat, k: nat)
    ensures BitRun(s, k) == (Pow2(k) - 1) * Pow2(s)
    decreases s, k
  {
    if s > 0 {
      RunValue(s - 1, k);
      assert 2 * ((Pow2(k) - 1) * Pow2(s - 1)) == (Pow2(k) - 1) * (2 * Pow2(s - 1));
    } else if k > 0 {
      RunValue(0, k - 1);
    }
  }

  lemma {:induction false} AndLow(n: nat, k: nat)
    ensures And(n, BitRun(0, k)) == n % Pow2(k)
  {
    if k > 0 {
      AndLow(n / 2, k - 1);
      AndOdd(n, BitRun(0, k - 1));
      ModPow(n, k);
    }
  }

  /** Such a mask selects the k bits above the lowest s. */
  lemma {:induction false} AndRun(n: nat, s: nat, k: nat)
    ensures And(n, BitRun(s, k)) == ((n / Pow2(s)) % Pow2(k)) * Pow2(s)
    decreases s
  {
    if s == 0 {
      AndLow(n, k);
    } else {
      AndRun(n / 2, s - 1, k);
      AndEven(n, BitRun(s - 1, k));
      DivPow(n, s);
      DoubleFactor((n / 2 / Pow2(s - 1)) % Pow2(k), Pow2(s - 1));
    }
  }

  lemma DoubleFactor(q: nat, p: nat)
    ensures 2 * (q * p) == q * (2 * p)
  {
  }

  lemma AndEven(n: nat, m: nat)
    ensures And(n, 2 * m) == 2 * And(n / 2, m)
  {
    var k := 2 * m;
    assert k / 2 == m && k % 2 == 0;
  }

  lemma AndOdd(n: nat, m: nat)
    ensures And(n, 2 * m + 1) == 2 * And(n / 2, m) + n % 2
  {
    var k := 2 * m + 1;
    assert k / 2 == m && k % 2 == 1;
  }

  lemma DivPow(n: nat, s: nat)
    requires s > 0
    ensures n / Pow2(s) == (n / 2) / Pow2(s - 1)
  {
    var p, h := Pow2(s - 1), n / 2;
    var q, r := h / p, h % p;
    assert n == q * (2 * p) + (2 * r + n % 2) by {
      assert h == q * p + r;
      assert q * (2 * p) == 2 * (q * p);
    }
    DivModUnique(n, 2 * p, q, 2 * r + n % 2);
  }

  lemma ModPow(n: nat, k: nat)
    requires k > 0
    ensures n % Pow2(k) == 2 * ((n / 2) % Pow2(k - 1)) + n % 2
  {
    var p, h := Pow2(k - 1), n / 2;
    var q, r := h / p, h % p;
    assert n == q * (2 * p) + (2 * r + n % 2) by {
      assert h == q * p + r;
      assert q * (2 * p) == 2 * (q * p);
    }
    DivModUnique(n, 2 * p, q, 2 * r + n % 2);
  }

  // ---- arithmetic ----

  lemma MulMono(a: nat, b: nat, c: nat)
    requires a <= b
    ensures a * c <= b * c
  {
    assert (b - a) * c >= 0;
  }

  lemma DivModUnique(n: nat, m: nat, d: nat, r: nat)
    requires m > 0 && r < m && n == d * m + r
    ensures n / m == d && n % m == r
  {
    var d1, r1 := n / m, n % m;
    assert n == d1 * m + r1;
    if d > d1 {
      MulMono(d1 + 1, d, m);
    } else if d < d1 {
      MulMono(d + 1, d1, m);
    }
  }

  /** A common factor of a number and a modulus can be taken out. */
  lemma ScaledModulus(v: nat, p: nat, q: nat)
    requires p > 0 && q > 0
    ensures q * p > 0 && (v * p) % (q * p) == (v % q) * p
  {
    var d, r := v / q, v % q;
    assert v * p == d * (q * p) + r * p by {
      assert v == d * q + r;
      assert (d * q + r) * p == (d * q) * p + r * p;
      assert (d * q) * p == d * (q * p);
    }
    MulMono(r + 1, q, p);
    assert (r + 1) * p == r * p + p;
    DivModUnique(v * p, q * p, d, r * p);
  }

  lemma {:induction false} PowSum(a: nat, b: nat)
    ensures Pow2(a + b) == Pow2(a) * Pow2(b)
    decreases a
  {
    if a > 0 {
      PowSum(a - 1, b);
      assert a + b - 1 == a - 1 + b;
      DoubleProduct(Pow2(a - 1), Pow2(b));
    }
  }

  lemma DoubleProduct(x: nat, y: nat)
    ensures 2 * (x * y) == (2 * x) * y
  {
  }
}
