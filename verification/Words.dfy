/**
 Machine words as byte sequences, least significant byte first, which is how the models lay them
 out in memory. Bitwise operators act byte by byte, and shifts by whole bytes are slices.
 */
module Words {
  import opened Arith
  import opened Bits

  type Byte = b: nat | b < 256
  type Half = h: seq<Byte> | |h| == 4 witness [0, 0, 0, 0]
  type Word = w: seq<Byte> | |w| == 8 witness [0, 0, 0, 0, 0, 0, 0, 0]

  /** One enable per byte lane. */
  type ByteEnable = be: seq<bool> | |be| == 8 witness seq(8, _ => false)

  const ZERO: Word := [0, 0, 0, 0, 0, 0, 0, 0]
  const ZERO4: Half := [0, 0, 0, 0]

  // ---------------------------------------------------------------------------------------------
  // Bytes
  // ---------------------------------------------------------------------------------------------

  function NotB(b: Byte): Byte {
    255 - b
  }

  function AndB(a: Byte, b: Byte): Byte {
    AndBound(a, b);
    And(a, b)
  }

  function OrB(a: Byte, b: Byte): Byte {
    AndBound(a, b);
    (a + b - And(a, b)) % 256
  }

  function XorB(a: Byte, b: Byte): Byte {
    AndBound(a, b);
    (a + b - 2 * And(a, b)) % 256
  }

  lemma OnesByte()
    ensures Pow2(8) == 256
  {
    assert Pow2(2) == 4;
    assert Pow2(4) == 16;
    assert Pow2(6) == 64;
  }

  lemma ByteBounds(x: nat, y: nat, p: nat)
    requires x < 256 && y < 256 && Pow2(p) == 256
    ensures And(x, y) <= x && And(x, y) <= y && x + y - And(x, y) < 256
  {
    AndBound(x, y);
    BelowPow2(x, y, p);
  }

  lemma SmallByte(v: nat)
    requires v < 256
    ensures v % 256 == v
  {
  }

  /** Neither operator leaves the byte range. */
  lemma ByteRange(a: Byte, b: Byte)
    ensures And(a, b) <= a && And(a, b) <= b
    ensures OrB(a, b) == a + b - And(a, b) && XorB(a, b) == a + b - 2 * And(a, b)
  {
    OnesByte();
    ByteBounds(a, b, 8);
    SmallByte(a + b - And(a, b));
    SmallByte(a + b - 2 * And(a, b));
  }

  lemma AndByte(a: Byte, b: Byte, i: nat)
    ensures Bit(AndB(a, b), i) <==> Bit(a, i) && Bit(b, i)
  {
    AndBits(a, b, i);
  }

  lemma OrByte(a: Byte, b: Byte, i: nat)
    ensures Bit(OrB(a, b), i) <==> Bit(a, i) || Bit(b, i)
  {
    ByteRange(a, b);
    OrBits(a, b, i);
  }

  lemma XorByte(a: Byte, b: Byte, i: nat)
    ensures Bit(XorB(a, b), i) <==> Bit(a, i) != Bit(b, i)
  {
    ByteRange(a, b);
    XorBits(a, b, i);
  }

  lemma NotByte(a: Byte, i: nat, p: nat)
    requires i < p && Pow2(p) == 256
    ensures Bit(NotB(a), i) <==> !Bit(a, i)
  {
    NotBits(a, p, i);
  }

  /** What the operators on bytes do to each bit. */
  lemma ByteBits(a: Byte, b: Byte, i: nat)
    requires i < 8
    ensures Bit(AndB(a, b), i) <==> Bit(a, i) && Bit(b, i)
    ensures Bit(OrB(a, b), i) <==> Bit(a, i) || Bit(b, i)
    ensures Bit(XorB(a, b), i) <==> Bit(a, i) != Bit(b, i)
    ensures Bit(NotB(a), i) <==> !Bit(a, i)
  {
    OnesByte();
    AndByte(a, b, i);
    OrByte(a, b, i);
    XorByte(a, b, i);
    NotByte(a, i, 8);
  }

  lemma {:induction false} BelowPow2(x: nat, y: nat, p: nat)
    requires x < Pow2(p) && y < Pow2(p)
    ensures x + y - And(x, y) < Pow2(p)
  {
    if x != 0 && y != 0 {
      BelowPow2(x / 2, y / 2, p - 1);
    }
  }

  /** All ones and all zeros are the neutral and the absorbing mask. */
  lemma AndMask(b: Byte)
    ensures AndB(b, 255) == b && AndB(b, 0) == 0
  {
    OnesByte();
    AndOnes(b, 8);
  }

  lemma OrZero(b: Byte)
    ensures OrB(0, b) == b && OrB(b, 0) == b
  {
    assert And(0, b) == 0 && And(b, 0) == 0;
  }

  lemma MergeByte(o: Byte, d: Byte)
    ensures OrB(AndB(o, NotB(255)), AndB(d, 255)) == d
    ensures OrB(AndB(o, NotB(0)), AndB(d, 0)) == o
  {
    AndMask(o);
    AndMask(d);
    OrZero(o);
    OrZero(d);
  }

  // ---------------------------------------------------------------------------------------------
  // Words
  // ---------------------------------------------------------------------------------------------

  function Map2(f: (Byte, Byte) -> Byte, a: Word, b: Word): Word {
    seq(8, i requires 0 <= i < 8 => f(a[i], b[i]))
  }

  function Not(w: Word): Word {
    seq(8, i requires 0 <= i < 8 => NotB(w[i]))
  }

  /** `(old & ~mask) | (data & mask)`. */
  function Merge(old': Word, data: Word, mask: Word): Word {
    Map2(OrB, Map2(AndB, old', Not(mask)), Map2(AndB, data, mask))
  }

  function MaskOf(be: ByteEnable): Word {
    seq(8, i requires 0 <= i < 8 => if be[i] then 255 else 0)
  }

  /** The lanes of `data` where enabled, those of `old'` elsewhere. */
  function Select(old': Word, data: Word, be: ByteEnable): Word {
    seq(8, i requires 0 <= i < 8 => if be[i] then data[i] else old'[i])
  }

  /** A masked update replaces exactly the enabled lanes. */
  lemma MergeIsSelect(old': Word, data: Word, be: ByteEnable)
    ensures Merge(old', data, MaskOf(be)) == Select(old', data, be)
  {
    forall i | 0 <= i < 8
      ensures Merge(old', data, MaskOf(be))[i] == Select(old', data, be)[i]
    {
      MergeByte(old'[i], data[i]);
    }
  }

  /** A masked update takes the bits of the mask from `data` and the others from the old word. */
  lemma MergeBits(old': Word, data: Word, mask: Word, i: nat, k: nat)
    requires i < 8 && k < 8
    ensures Bit(Merge(old', data, mask)[i], k) <==> if Bit(mask[i], k) then Bit(data[i], k) else Bit(old'[i], k)
  {
    var kept, taken := AndB(old'[i], NotB(mask[i])), AndB(data[i], mask[i]);
    ByteBits(mask[i], 0, k);
    ByteBits(old'[i], NotB(mask[i]), k);
    ByteBits(data[i], mask[i], k);
    ByteBits(kept, taken, k);
  }

  /** The mask loop: lane by lane. */
  method BeToMask(be: ByteEnable) returns (mask: Word)
    ensures mask == MaskOf(be)
  {
    mask := ZERO;
    for j := 0 to 8
      invariant forall i :: 0 <= i < 8 ==> mask[i] == if i < j then MaskOf(be)[i] else 0
    {
      if be[j] {
        mask := mask[j := OrB(mask[j], 255)];
      }
    }
  }

  // ---------------------------------------------------------------------------------------------
  // Values
  // ---------------------------------------------------------------------------------------------

  const TWO32: nat := 0x1_0000_0000
  const TWO64: nat := 0x1_0000_0000_0000_0000

  function Value4(h: Half): (v: nat)
    ensures v < TWO32
  {
    var a, b, c, d: int := h[0], h[1], h[2], h[3];
    a + 256 * (b + 256 * (c + 256 * d))
  }

  function Bytes4(v: nat): Half
    requires v < TWO32
  {
    [v % 256, v / 256 % 256, v / 256 / 256 % 256, v / 256 / 256 / 256]
  }

  function Low(w: Word): Half {
    w[..4]
  }

  function High(w: Word): Half {
    w[4..]
  }

  function Value(w: Word): (v: nat)
    ensures v < TWO64
  {
    Value4(Low(w)) + TWO32 * Value4(High(w))
  }

  function Bytes8(v: nat): Word
    requires v < TWO64
  {
    Bytes4(v % TWO32) + Bytes4(v / TWO32)
  }

  /** Two's complement readings. */
  function Signed4(h: Half): int {
    if Value4(h) < 0x8000_0000 then Value4(h) else Value4(h) - TWO32
  }

  function Signed(w: Word): int {
    if Value(w) < 0x8000_0000_0000_0000 then Value(w) else Value(w) - TWO64
  }

  lemma Bytes4Value(v: nat)
    requires v < TWO32
    ensures Value4(Bytes4(v)) == v
  {
    var x := v / 256;
    var y := x / 256;
    assert v == 256 * x + v % 256 && x == 256 * y + x % 256 && y == 256 * (y / 256) + y % 256;
  }

  /** Half words are determined by their values. */
  lemma Value4Injective(g: Half, h: Half)
    requires Value4(g) == Value4(h)
    ensures g == h
  {
    Digit(g[0], g[1] + 256 * (g[2] + 256 * g[3] as int), h[0], h[1] + 256 * (h[2] + 256 * h[3] as int));
    Digit(g[1], g[2] + 256 * g[3] as int, h[1], h[2] + 256 * h[3] as int);
    Digit(g[2], g[3], h[2], h[3]);
  }

  lemma Digit(a: int, x: int, b: int, y: int)
    requires 0 <= a < 256 && 0 <= b < 256 && a + 256 * x == b + 256 * y
    ensures a == b && x == y
  {
  }

  lemma HalfDigit(a: nat, x: nat, b: nat, y: nat)
    requires a < TWO32 && b < TWO32 && a + TWO32 * x == b + TWO32 * y
    ensures a == b && x == y
  {
  }

  lemma ValueInjective(a: Word, b: Word)
    requires Value(a) == Value(b)
    ensures a == b
  {
    HalfDigit(Value4(Low(a)), Value4(High(a)), Value4(Low(b)), Value4(High(b)));
    Value4Injective(Low(a), Low(b));
    Value4Injective(High(a), High(b));
    assert a == Low(a) + High(a) && b == Low(b) + High(b);
  }

  lemma Bytes8Value(v: nat)
    requires v < TWO64
    ensures Value(Bytes8(v)) == v
    ensures Low(Bytes8(v)) == Bytes4(v % TWO32)
  {
    Bytes4Value(v % TWO32);
    Bytes4Value(v / TWO32);
    assert Low(Bytes8(v)) == Bytes4(v % TWO32) && High(Bytes8(v)) == Bytes4(v / TWO32);
  }

  // ---------------------------------------------------------------------------------------------
  // Byte sequences as numbers
  // ---------------------------------------------------------------------------------------------

  /** The number that a byte sequence stands for, least significant byte first. */
  function Number(bs: seq<Byte>): nat {
    if |bs| == 0 then 0 else bs[0] + 256 * Number(bs[1..])
  }

  /** Bit `k` of byte `i` is bit `8 * i + k` of the number. */
  lemma {:induction false} NumberBits(bs: seq<Byte>, i: nat, k: nat)
    requires i < |bs| && k < 8
    ensures Bit(Number(bs), 8 * i + k) <==> Bit(bs[i], k)
  {
    OnesByte();
    NumberSplit(bs[0], Number(bs[1..]), 8, 8 * i + k);
    if i > 0 {
      NumberBits(bs[1..], i - 1, k);
      assert bs[1..][i - 1] == bs[i] && 8 * i + k - 8 == 8 * (i - 1) + k;
    }
  }

  lemma NumberSplit(b: Byte, rest: nat, p: nat, j: nat)
    requires Pow2(p) == 256
    ensures Bit(b + 256 * rest, j) <==> if j < p then Bit(b, j) else Bit(rest, j - p)
  {
    BitSplit(b, rest, p, j);
  }

  lemma {:induction false} NumberBound(bs: seq<Byte>)
    ensures Number(bs) < Pow2(8 * |bs|)
  {
    if |bs| > 0 {
      OnesByte();
      NumberBound(bs[1..]);
      Pow2Sum(8, 8 * (|bs| - 1));
      assert 8 + 8 * (|bs| - 1) == 8 * |bs|;
    }
  }

  lemma NumberCons(b: Byte, rest: seq<Byte>)
    ensures Number([b] + rest) == b + 256 * Number(rest)
  {
    assert ([b] + rest)[1..] == rest;
  }

  lemma HalfNumber(h: Half)
    ensures Value4(h) == Number(h)
  {
    NumberCons(h[3], []);
    NumberCons(h[2], [h[3]]);
    NumberCons(h[1], [h[2]] + [h[3]]);
    NumberCons(h[0], [h[1]] + ([h[2]] + [h[3]]));
    assert [h[3]] + [] == [h[3]];
    assert h == [h[0]] + ([h[1]] + ([h[2]] + [h[3]]));
  }

  lemma {:induction false} NumberAppend(a: seq<Byte>, b: seq<Byte>)
    ensures Number(a + b) == Number(a) + Pow2(8 * |a|) * Number(b)
  {
    if |a| == 0 {
      assert a + b == b;
    } else {
      OnesByte();
      NumberAppend(a[1..], b);
      assert (a + b)[1..] == a[1..] + b;
      Pow2Sum(8, 8 * (|a| - 1));
      assert 8 + 8 * (|a| - 1) == 8 * |a|;
      MulAssociative(256, Pow2(8 * (|a| - 1)), Number(b));
    }
  }

  /** Powers of two, `b` being the number of bits of a byte. */
  lemma PowersOfByte(b: nat)
    requires b > 0 && Pow2(b) == 256
    ensures Pow2(4 * b) == TWO32 && Pow2(8 * b) == TWO64
    ensures 2 * Pow2(4 * b - 1) == TWO32 && 2 * Pow2(8 * b - 1) == TWO64
  {
    Pow2Sum(b, b);
    Pow2Sum(2 * b, 2 * b);
    Pow2Sum(4 * b, 4 * b);
  }

  lemma WordPowers()
    ensures Pow2(32) == TWO32 && Pow2(64) == TWO64
    ensures Pow2(31) == 0x8000_0000 && Pow2(63) == 0x8000_0000_0000_0000
  {
    OnesByte();
    PowersOfByte(8);
  }

  lemma WordNumber(w: Word)
    ensures Value(w) == Number(w) && Value4(Low(w)) == Number(w[..4])
  {
    WordPowers();
    HalfNumber(Low(w));
    HalfNumber(High(w));
    NumberAppend(Low(w), High(w));
    assert w == Low(w) + High(w);
  }

  /** The two's complement reading of a number of `width` bits. */
  function Twos(n: nat, width: nat): int
    requires width > 0
  {
    if Bit(n, width - 1) then n - Pow2(width) else n
  }

  lemma SignedTwos(w: Word)
    ensures Signed(w) == Twos(Number(w), 64) && Signed4(Low(w)) == Twos(Number(w[..4]), 32)
  {
    WordPowers();
    WordNumber(w);
    TopBit(Value(w), 63);
    TopBit(Value4(Low(w)), 31);
  }
}
