/**
 Numbers as byte sequences in either byte order, the byte order of the host's memory as a
 parameter, and the XOR of a byte sequence.
 */
module Bytes {
  import opened Bits

  type Buffer = seq<byte>

  function Pow256(n: nat): (p: nat)
    ensures p > 0
  {
    if n == 0 then 1 else 256 * Pow256(n - 1)
  }

  lemma Widths()
    ensures Pow256(1) == 0x100 && Pow256(2) == 0x1_0000 && Pow256(4) == U32 && Pow256(8) == U64
  {
    assert Pow256(4) == 0x1_0000 * Pow256(2);
    assert Pow256(8) == 0x1_0000 * 0x1_0000 * Pow256(4);
  }

  function Reverse(bs: Buffer): (r: Buffer)
    ensures |r| == |bs|
    ensures forall i :: 0 <= i < |bs| ==> r[i] == bs[|bs| - 1 - i]
  {
    seq(|bs|, i requires 0 <= i < |bs| => bs[|bs| - 1 - i])
  }

  lemma ReverseTwice(bs: Buffer)
    ensures Reverse(Reverse(bs)) == bs
  {
    var r := Reverse(bs);
    forall i | 0 <= i < |bs| ensures Reverse(r)[i] == bs[i] {
      assert Reverse(r)[i] == r[|bs| - 1 - i];
    }
  }

  /** The n low bytes of v, least significant first. */
  function LittleEndian(n: nat, v: nat): (bs: Buffer)
    ensures |bs| == n
  {
    if n == 0 then [] else [v % 256] + LittleEndian(n - 1, v / 256)
  }

  /** The n low bytes of v, most significant first. */
  function BigEndian(n: nat, v: nat): (bs: Buffer)
    ensures |bs| == n
  {
    Reverse(LittleEndian(n, v))
  }

  function LittleValue(bs: Buffer): nat {
    if bs == [] then 0 else bs[0] + 256 * LittleValue(bs[1..])
  }

  function BigValue(bs: Buffer): nat { LittleValue(Reverse(bs)) }

  lemma {:induction false} LittleRoundTrip(n: nat, v: nat)
    requires v < Pow256(n)
    ensures LittleValue(LittleEndian(n, v)) == v
  {
    if n > 0 {
      LittleRoundTrip(n - 1, v / 256);
      assert LittleEndian(n, v)[1..] == LittleEndian(n - 1, v / 256);
    }
  }

  lemma BigRoundTrip(n: nat, v: nat)
    requires v < Pow256(n)
    ensures BigValue(BigEndian(n, v)) == v
  {
    ReverseTwice(LittleEndian(n, v));
    LittleRoundTrip(n, v);
  }

  lemma {:induction false} LittleBytesOfValue(bs: Buffer)
    ensures LittleValue(bs) < Pow256(|bs|)
    ensures LittleEndian(|bs|, LittleValue(bs)) == bs
  {
    if bs != [] {
      var rest := LittleValue(bs[1..]);
      LittleBytesOfValue(bs[1..]);
      FirstByte(bs[0], rest);
      assert bs == [bs[0]] + bs[1..];
    }
  }

  lemma FirstByte(b: byte, rest: nat)
    ensures (b + 256 * rest) % 256 == b && (b + 256 * rest) / 256 == rest
  {
  }

  // ---- the host's memory ----

  /** The bytes of an n-byte integer as the host keeps it in memory. */
  function Memory(little: bool, n: nat, v: nat): (bs: Buffer)
    ensures |bs| == n
  {
    if little then LittleEndian(n, v) else BigEndian(n, v)
  }

  function Swap(n: nat, v: nat): nat { LittleValue(Reverse(LittleEndian(n, v))) }

  /** htobe16, htobe32 and htobe64; also their inverse be16toh. */
  function HostToBig(little: bool, n: nat, v: nat): nat { if little then Swap(n, v) else v }

  /** htole16, htole32 and htole64. */
  function HostToLittle(little: bool, n: nat, v: nat): nat { if little then v else Swap(n, v) }

  lemma SwapTwice(n: nat, v: nat)
    requires v < Pow256(n)
    ensures Swap(n, v) < Pow256(n)
    ensures Swap(n, Swap(n, v)) == v
  {
    var bs := LittleEndian(n, v);
    LittleBytesOfValue(Reverse(bs));
    ReverseTwice(bs);
    LittleRoundTrip(n, v);
  }

  /** Converting and then copying out of memory gives the same bytes on every host. */
  lemma MemoryOrder(little: bool, n: nat, v: nat)
    requires v < Pow256(n)
    ensures Memory(little, n, HostToBig(little, n, v)) == BigEndian(n, v)
    ensures Memory(little, n, HostToLittle(little, n, v)) == LittleEndian(n, v)
  {
    var bs := LittleEndian(n, v);
    LittleBytesOfValue(Reverse(bs));
    ReverseTwice(bs);
  }

  lemma SwapWord(w: word)
    ensures Swap(2, w) == 256 * (w % 256) + w / 256 < 0x1_0000
    ensures BigEndian(2, w) == [w / 256, w % 256]
  {
    var bs := LittleEndian(2, w);
    assert LittleEndian(1, w / 256) == [w / 256];
    assert bs == [w % 256, w / 256];
    assert Reverse(bs) == [w / 256, w % 256];
    assert Reverse(bs)[1..] == [w % 256];
    assert LittleValue([w % 256]) == w % 256;
  }

  /** The number whose low k bits are those of b and whose other bits are a. */
  function Join(a: nat, b: nat, k: nat): nat {
    if k == 0 then a else 2 * Join(a, b / 2, k - 1) + b % 2
  }

  lemma {:induction false} JoinValue(a: nat, b: nat, k: nat)
    requires b < Pow2(k)
    ensures Join(a, b, k) == a * Pow2(k) + b
  {
    if k > 0 {
      JoinValue(a, b / 2, k - 1);
      DoubleFactor(a, Pow2(k - 1));
    }
  }

  lemma {:induction false} OrJoin(a: nat, b: nat, c: nat, d: nat, k: nat)
    requires b < Pow2(k) && d < Pow2(k)
    ensures Or(Join(a, b, k), Join(c, d, k)) == Join(Or(a, c), Or(b, d), k)
    decreases k
  {
    if k > 0 {
      OrJoin(a, b / 2, c, d / 2, k - 1);
      OrHalves(Join(a, b / 2, k - 1), b % 2, Join(c, d / 2, k - 1), d % 2);
      OrParts(b, d);
    }
  }

  lemma OrParts(b: nat, d: nat)
    ensures Or(b, d) / 2 == Or(b / 2, d / 2)
    ensures Or(b, d) % 2 == Flag(b % 2 == 1 || d % 2 == 1)
  {
    OrHalves(b / 2, b % 2, d / 2, d % 2);
  }

  lemma OrHalves(a: nat, x: nat, b: nat, y: nat)
    requires x < 2 && y < 2
    ensures Or(2 * a + x, 2 * b + y) == 2 * Or(a, b) + Flag(x == 1 || y == 1)
  {
  }

  lemma OrBytes(a: byte, b: byte, c: byte, d: byte)
    ensures Or(a, c) < 0x100 && Or(b, d) < 0x100
    ensures Or(256 * a + b, 256 * c + d) == 256 * Or(a, c) + Or(b, d)
  {
    assert Pow2(8) == 256;
    OrBelow(a, c, 8);
    OrBelow(b, d, 8);
    OrJoin(a, b, c, d, 8);
    JoinValue(a, b, 8);
    JoinValue(c, d, 8);
    JoinValue(Or(a, c), Or(b, d), 8);
  }

  lemma SwapPair(h: byte, l: byte)
    ensures Swap(2, 256 * h + l) == 256 * l + h
  {
    SwapWord(256 * h + l);
  }

  lemma OrSwapped(wh: byte, wl: byte, ch: byte, cl: byte)
    ensures var r := Or(Swap(2, 256 * wh + wl), Swap(2, 256 * ch + cl));
            r < 0x1_0000 && Swap(2, r) == Or(256 * wh + wl, 256 * ch + cl) < 0x1_0000
  {
    SwapPair(wh, wl);
    SwapPair(ch, cl);
    OrBytes(wh, wl, ch, cl);
    OrBytes(wl, wh, cl, ch);
    SwapPair(Or(wl, cl), Or(wh, ch));
  }

  /** Setting swapped constant bits in a stored word sets the plain bits of the word it stands for. */
  lemma OrStored(little: bool, w: word, c: word)
    ensures var r := Or(HostToBig(little, 2, w), HostToBig(little, 2, c));
            r < 0x1_0000 && HostToBig(little, 2, r) == Or(w, c) < 0x1_0000
  {
    var wh: byte, wl: byte, ch: byte, cl: byte := w / 256, w % 256, c / 256, c % 256;
    assert w == 256 * wh + wl && c == 256 * ch + cl;
    OrSwapped(wh, wl, ch, cl);
    if !little { OrBytes(wh, wl, ch, cl); }
  }

  /** htobe16 and be16toh on a header word. */
  function BigOrder(little: bool, w: word): (r: word)
  {
    SwapWord(w);
    HostToBig(little, 2, w)
  }

  lemma BigOrderTwice(little: bool, w: word)
    ensures BigOrder(little, BigOrder(little, w)) == w
    ensures Memory(little, 2, BigOrder(little, w)) == BigEndian(2, w)
  {
    assert Pow256(2) == 0x1_0000;
    SwapTwice(2, w);
    MemoryOrder(little, 2, w);
  }

  // ---- XOR ----

  function XorAll(bs: Buffer): byte {
    if bs == [] then 0 else XorByte(XorAll(bs[..|bs| - 1]), bs[|bs| - 1])
  }

  function XorByte(a: byte, b: byte): byte {
    XorBelow(a, b, 8);
    Xor(a, b)
  }

  lemma XorBelow(a: nat, b: nat, k: nat)
    requires a < Pow2(k) && b < Pow2(k)
    ensures Xor(a, b) < Pow2(k)
    ensures k == 8 ==> Pow2(k) == 256
  {
    forall i: nat | k <= i ensures !Bit(Xor(a, b), i) {
      BitXor(a, b, i);
      HighBits(a, k, i);
      HighBits(b, k, i);
    }
    BelowByBits(Xor(a, b), k);
  }

  lemma XorLaws(a: nat, b: nat, c: nat)
    ensures Xor(Xor(a, b), c) == Xor(a, Xor(b, c))
    ensures Xor(a, b) == Xor(b, a)
    ensures Xor(a, a) == 0
    ensures Xor(a, 0) == a
  {
    forall i: nat
      ensures Bit(Xor(Xor(a, b), c), i) == Bit(Xor(a, Xor(b, c)), i)
      ensures Bit(Xor(a, b), i) == Bit(Xor(b, a), i)
      ensures Bit(Xor(a, a), i) == Bit(0, i)
    {
      BitXor(a, b, i);
      BitXor(b, a, i);
      BitXor(Xor(a, b), c, i);
      BitXor(b, c, i);
      BitXor(a, Xor(b, c), i);
      BitXor(a, a, i);
      BitZero(i);
    }
    SameBits(Xor(Xor(a, b), c), Xor(a, Xor(b, c)));
    SameBits(Xor(a, b), Xor(b, a));
    SameBits(Xor(a, a), 0);
  }

  lemma {:induction false} XorConcat(a: Buffer, b: Buffer)
    ensures XorAll(a + b) == Xor(XorAll(a), XorAll(b))
  {
    if b == [] {
      assert a + b == a;
      XorLaws(XorAll(a), 0, 0);
    } else {
      var n := |b| - 1;
      XorConcat(a, b[..n]);
      assert (a + b)[..|a| + n] == a + b[..n];
      XorLaws(XorAll(a), XorAll(b[..n]), b[n]);
    }
  }
}
