/**
 The extended Hamming code used by the ECC encoder and decoder, as a set of words.

 A word has `n = d + p` Hamming positions, numbered 1..n, followed by one overall parity bit.
 Position `k` takes part in check `i` when bit `i` of `k` is set; the positions that are powers of
 two hold check bits, the others hold the data in increasing order.
 */
module SecdedCode {
  import opened Bits

  type Word = seq<bool>

  /** `p` is the width that the search loop of the sources settles on for `d` data bits. */
  ghost predicate IsParityLen(p: nat, d: nat) {
    && p >= 2
    && Pow2(p) >= p + d + 1
    && forall q: nat :: 2 <= q < p ==> Pow2(q) < q + d + 1
  }

  lemma ParityLenUnique(p: nat, q: nat, d: nat)
    requires IsParityLen(p, d) && IsParityLen(q, d)
    ensures p == q
  {
  }

  /** XOR of the positions 1..n of `c` that take part in check `i`. */
  function Check(c: Word, i: nat, n: nat): bool
    requires n <= |c|
  {
    if n == 0 then false else Check(c, i, n - 1) != (Bit(n, i) && c[n - 1])
  }

  /** XOR of the first `n` bits of `c`. */
  function Parity(c: Word, n: nat): bool
    requires n <= |c|
  {
    if n == 0 then false else Parity(c, n - 1) != c[n - 1]
  }

  /** The data bits found at the positions 1..n that are not powers of two, in order. */
  ghost function Data(c: Word, n: nat): Word
    requires n <= |c|
  {
    if n == 0 then []
    else Data(c, n - 1) + if IsPow(n) then [] else [c[n - 1]]
  }

  /** The first `p` checks of `c` over its positions 1..n are even. */
  ghost predicate ChecksEven(c: Word, p: nat, n: nat)
    requires n <= |c|
  {
    forall i: nat :: i < p ==> !Check(c, i, n)
  }

  /** All checks and the overall parity of `c` are even. */
  ghost predicate IsCodeword(c: Word, d: nat, p: nat) {
    && |c| == d + p + 1
    && ChecksEven(c, p, d + p)
    && !Parity(c, |c|)
  }

  /** The number whose bit `i` is check `i + from` of `c`. */
  function Syndrome(c: Word, from: nat, p: nat, n: nat): nat
    requires n <= |c| && from <= p
    decreases p - from
  {
    if from == p then 0
    else 2 * Syndrome(c, from + 1, p, n) + if Check(c, from, n) then 1 else 0
  }

  function Flip(c: Word, k: nat): Word
    requires k < |c|
  {
    c[k := !c[k]]
  }

  /** Number of true bits. */
  function Weight(c: Word): nat {
    if |c| == 0 then 0 else Weight(c[..|c| - 1]) + if c[|c| - 1] then 1 else 0
  }

  function Xor(a: Word, b: Word): (r: Word)
    requires |a| == |b|
    ensures |r| == |a|
  {
    seq(|a|, i requires 0 <= i < |a| => a[i] != b[i])
  }

  /** Number of positions in which two words differ. */
  function Distance(a: Word, b: Word): nat
    requires |a| == |b|
  {
    Weight(Xor(a, b))
  }

  /** The distance is the number of positions in which the words differ. */
  lemma {:induction false} DistanceCounts(a: Word, b: Word)
    requires |a| == |b|
    ensures Distance(a, b) == |set k | 0 <= k < |a| && a[k] != b[k]|
  {
    if |a| > 0 {
      var m := |a| - 1;
      DistanceCounts(a[..m], b[..m]);
      assert Xor(a, b)[..m] == Xor(a[..m], b[..m]);
      var before := set k | 0 <= k < m && a[..m][k] != b[..m][k];
      var all := set k | 0 <= k < |a| && a[k] != b[k];
      assert all == before + if a[m] != b[m] then {m} else {};
    }
  }

  // ---------------------------------------------------------------------------------------------
  // Layout: exactly p of the positions 1..d+p are powers of two
  // ---------------------------------------------------------------------------------------------

  lemma {:induction false} DataLength(c: Word, n: nat, q: nat)
    requires n <= |c|
    requires Pow2(q) <= n < Pow2(q + 1)
    ensures |Data(c, n)| == n - (q + 1)
  {
    PowerOf2Between(n, q);
    if n == 1 {
      assert Data(c, 0) == [];
    } else if n == Pow2(q) {
      DataLength(c, n - 1, q - 1);
    } else {
      DataLength(c, n - 1, q);
    }
  }

  /** The layout loop consumes exactly the `d` data bits. */
  lemma DataFillsWord(c: Word, d: nat, p: nat)
    requires IsParityLen(p, d)
    requires d + p <= |c|
    ensures |Data(c, d + p)| == d
    ensures Pow2(p - 1) <= d + p < Pow2(p)
  {
    if p > 2 {
      assert Pow2(p - 1) < (p - 1) + d + 1;
    } else {
      assert Pow2(1) == 2;
    }
    DataLength(c, d + p, p - 1);
  }

  lemma {:induction false} DataMonotone(c: Word, m: nat, n: nat)
    requires m <= n <= |c|
    ensures |Data(c, m)| <= |Data(c, n)|
  {
    if m < n {
      DataMonotone(c, m, n - 1);
    }
  }

  lemma {:induction false} DataExtends(c: Word, m: nat, n: nat)
    requires m <= n <= |c|
    ensures Data(c, m) <= Data(c, n)
  {
    if m < n {
      DataExtends(c, m, n - 1);
    }
  }

  /** Position `k`, between the powers `2^q` and `2^(q+1)`, holds data bit `k - q - 2`: the data fill
      the positions that are not powers of two in order. */
  lemma DataAt(c: Word, n: nat, k: nat, q: nat)
    requires Pow2(q) < k < Pow2(q + 1) && k <= n <= |c|
    ensures q + 2 <= k && k - q - 2 < |Data(c, n)| && Data(c, n)[k - q - 2] == c[k - 1]
  {
    DataLength(c, k - 1, q);
    PowerOf2Between(k, q);
    DataExtends(c, k, n);
    assert Data(c, k) == Data(c, k - 1) + [c[k - 1]];
  }

  /** The data length depends only on the number of positions. */
  lemma {:induction false} DataLengthUniform(a: Word, b: Word, n: nat)
    requires n <= |a| && n <= |b|
    ensures |Data(a, n)| == |Data(b, n)|
  {
    if n > 0 {
      DataLengthUniform(a, b, n - 1);
    }
  }

  lemma {:induction false} DataPrefix(a: Word, b: Word, n: nat)
    requires n <= |a| && n <= |b| && a[..n] == b[..n]
    ensures Data(a, n) == Data(b, n)
  {
    if n > 0 {
      assert a[..n - 1] == a[..n][..n - 1] == b[..n][..n - 1] == b[..n - 1];
      assert a[n - 1] == a[..n][n - 1] == b[..n][n - 1] == b[n - 1];
      DataPrefix(a, b, n - 1);
    }
  }

  /** Writing a check position, or a position above `n`, leaves the data alone. */
  lemma {:induction false} DataUnchanged(c: Word, n: nat, k: nat, b: bool)
    requires n <= |c| && k < |c|
    requires IsPow(k + 1) || n <= k
    ensures Data(c[k := b], n) == Data(c, n)
  {
    if n > 0 {
      DataUnchanged(c, n - 1, k, b);
    }
  }

  // ---------------------------------------------------------------------------------------------
  // Linearity
  // ---------------------------------------------------------------------------------------------

  lemma {:induction false} CheckUpdate(c: Word, i: nat, n: nat, k: nat, b: bool)
    requires n <= |c| && k < |c|
    ensures Check(c[k := b], i, n) == (Check(c, i, n) != (k < n && Bit(k + 1, i) && c[k] != b))
  {
    if n > 0 {
      CheckUpdate(c, i, n - 1, k, b);
    }
  }

  lemma {:induction false} ParityUpdate(c: Word, n: nat, k: nat, b: bool)
    requires n <= |c| && k < |c|
    ensures Parity(c[k := b], n) == (Parity(c, n) != (k < n && c[k] != b))
  {
    if n > 0 {
      ParityUpdate(c, n - 1, k, b);
    }
  }

  lemma {:induction false} CheckXor(a: Word, b: Word, i: nat, n: nat)
    requires |a| == |b| && n <= |a|
    ensures Check(Xor(a, b), i, n) == (Check(a, i, n) != Check(b, i, n))
  {
    if n > 0 {
      CheckXor(a, b, i, n - 1);
    }
  }

  lemma {:induction false} ParityXor(a: Word, b: Word, n: nat)
    requires |a| == |b| && n <= |a|
    ensures Parity(Xor(a, b), n) == (Parity(a, n) != Parity(b, n))
  {
    if n > 0 {
      ParityXor(a, b, n - 1);
    }
  }

  lemma {:induction false} ParityPrefix(c: Word, m: nat, n: nat)
    requires n <= m <= |c|
    ensures Parity(c[..m], n) == Parity(c, n)
  {
    if n > 0 {
      ParityPrefix(c, m, n - 1);
    }
  }

  /** Overall parity is the parity of the weight. */
  lemma {:induction false} ParityIsWeight(c: Word)
    ensures Parity(c, |c|) <==> Weight(c) % 2 == 1
  {
    if |c| > 0 {
      ParityIsWeight(c[..|c| - 1]);
      ParityPrefix(c, |c| - 1, |c| - 1);
    }
  }

  lemma {:induction false} WeightUpdate(c: Word, k: nat)
    requires k < |c| && c[k]
    ensures Weight(c[k := false]) == Weight(c) - 1
  {
    var m := |c| - 1;
    if k == m {
      assert c[k := false][..m] == c[..m];
    } else {
      WeightUpdate(c[..m], k);
      assert c[k := false][..m] == c[..m][k := false];
    }
  }

  lemma {:induction false} PositiveWeight(c: Word) returns (k: nat)
    requires Weight(c) > 0
    ensures k < |c| && c[k]
  {
    var m := |c| - 1;
    if c[m] {
      k := m;
    } else {
      k := PositiveWeight(c[..m]);
    }
  }

  lemma {:induction false} ZeroWeight(c: Word, i: nat, n: nat)
    requires Weight(c) == 0 && n <= |c|
    ensures !Check(c, i, n)
  {
    if n > 0 {
      ZeroWeight(c, i, n - 1);
      if c[n - 1] {
        WeightUpdate(c, n - 1);
      }
    }
  }

  // ---------------------------------------------------------------------------------------------
  // Syndrome
  // ---------------------------------------------------------------------------------------------

  lemma BitOfDouble(t: nat, b: bool, i: nat)
    ensures Bit(2 * t + if b then 1 else 0, i) == if i == 0 then b else Bit(t, i - 1)
  {
    var x := 2 * t + if b then 1 else 0;
    assert x / 2 == t && (x % 2 == 1 <==> b);
  }

  lemma {:induction false} SyndromeBound(c: Word, from: nat, p: nat, n: nat)
    requires n <= |c| && from <= p
    ensures Syndrome(c, from, p, n) < Pow2(p - from)
    decreases p - from
  {
    if from < p {
      SyndromeBound(c, from + 1, p, n);
    }
  }

  /** Bit `i` of the syndrome is check `from + i`. */
  lemma {:induction false} SyndromeBit(c: Word, from: nat, p: nat, n: nat, i: nat)
    requires n <= |c| && from + i < p
    ensures Bit(Syndrome(c, from, p, n), i) == Check(c, from + i, n)
    decreases i
  {
    BitOfDouble(Syndrome(c, from + 1, p, n), Check(c, from, n), i);
    if i > 0 {
      SyndromeBit(c, from + 1, p, n, i - 1);
    }
  }

  /** The syndrome is the number `x` whose bits are the checks. */
  lemma SyndromeIs(c: Word, p: nat, n: nat, x: nat)
    requires n <= |c| && x < Pow2(p)
    requires forall i: nat :: i < p ==> Check(c, i, n) == Bit(x, i)
    ensures Syndrome(c, 0, p, n) == x
  {
    SyndromeBound(c, 0, p, n);
    forall i: nat | i < p
      ensures Bit(Syndrome(c, 0, p, n), i) == Bit(x, i)
    {
      SyndromeBit(c, 0, p, n, i);
    }
    BitsDetermine(Syndrome(c, 0, p, n), x, p);
  }

  /** The position that the checks attribute to bit `k`: zero for the overall parity bit. */
  function Position(k: nat, n: nat): nat {
    if k < n then k + 1 else 0
  }

  lemma PositionBits(k: nat, n: nat, i: nat)
    ensures Bit(Position(k, n), i) == (k < n && Bit(k + 1, i))
  {
    BitOfZero(i);
  }

  /** An intact codeword has syndrome zero. */
  lemma CleanSyndrome(c: Word, d: nat, p: nat)
    requires IsCodeword(c, d, p)
    ensures Syndrome(c, 0, p, d + p) == 0
  {
    var n := d + p;
    forall i: nat | i < p
      ensures Check(c, i, n) == Bit(0, i)
    {
      BitOfZero(i);
    }
    SyndromeIs(c, p, d + p, 0);
  }

  /** One flip: odd overall parity, and the syndrome names the flipped position. */
  lemma SingleFlip(c: Word, d: nat, p: nat, k: nat)
    requires IsParityLen(p, d) && IsCodeword(c, d, p) && k < |c|
    ensures Parity(Flip(c, k), |c|)
    ensures Syndrome(Flip(c, k), 0, p, d + p) == Position(k, d + p)
  {
    ParityUpdate(c, |c|, k, !c[k]);
    var n := d + p;
    forall i: nat | i < p
      ensures Check(Flip(c, k), i, n) == Bit(Position(k, n), i)
    {
      CheckUpdate(c, i, n, k, !c[k]);
      PositionBits(k, n, i);
    }
    SyndromeIs(Flip(c, k), p, d + p, Position(k, d + p));
  }

  /** Two flips: even overall parity, and a non-zero syndrome. */
  lemma DoubleFlip(c: Word, d: nat, p: nat, k: nat, l: nat)
    requires IsParityLen(p, d) && IsCodeword(c, d, p)
    requires k < |c| && l < |c| && k != l
    ensures !Parity(Flip(Flip(c, k), l), |c|)
    ensures Syndrome(Flip(Flip(c, k), l), 0, p, d + p) != 0
  {
    var a := Flip(c, k);
    var b := Flip(a, l);
    var n := d + p;
    ParityUpdate(c, |c|, k, !c[k]);
    ParityUpdate(a, |c|, l, !a[l]);
    if Syndrome(b, 0, p, n) == 0 {
      forall i: nat | i < p
        ensures Bit(Position(k, n), i) == Bit(Position(l, n), i)
      {
        BitOfZero(i);
        SyndromeBit(b, 0, p, n, i);
        CheckUpdate(c, i, n, k, !c[k]);
        CheckUpdate(a, i, n, l, !a[l]);
        PositionBits(k, n, i);
        PositionBits(l, n, i);
      }
      BitsDetermine(Position(k, n), Position(l, n), p);
    }
  }

  // ---------------------------------------------------------------------------------------------
  // Minimum distance
  // ---------------------------------------------------------------------------------------------

  /** A word in which all checks are even does not have exactly two ones. */
  lemma NotWeightTwo(x: Word, d: nat, p: nat)
    requires IsParityLen(p, d) && IsCodeword(x, d, p)
    ensures Weight(x) != 2
  {
    if Weight(x) == 2 {
      var k := PositiveWeight(x);
      WeightUpdate(x, k);
      var y := x[k := false];
      var l := PositiveWeight(y);
      WeightUpdate(y, l);
      var z := y[l := false];
      var n := d + p;
      forall i: nat | i < p
        ensures Bit(Position(k, n), i) == Bit(Position(l, n), i)
      {
        CheckUpdate(x, i, n, k, false);
        CheckUpdate(y, i, n, l, false);
        ZeroWeight(z, i, n);
        PositionBits(k, n, i);
        PositionBits(l, n, i);
      }
      BitsDetermine(Position(k, n), Position(l, n), p);
    }
  }

  /** The code is linear. */
  lemma XorOfCodewords(a: Word, b: Word, d: nat, p: nat)
    requires IsCodeword(a, d, p) && IsCodeword(b, d, p)
    ensures IsCodeword(Xor(a, b), d, p)
  {
    var n := d + p;
    forall i: nat | i < p
      ensures !Check(Xor(a, b), i, n)
    {
      CheckXor(a, b, i, n);
    }
    ParityXor(a, b, |a|);
  }

  /** Distinct codewords differ in at least four positions. */
  lemma MinimumDistance(a: Word, b: Word, d: nat, p: nat)
    requires IsParityLen(p, d)
    requires IsCodeword(a, d, p) && IsCodeword(b, d, p) && a != b
    ensures Distance(a, b) >= 4
  {
    var x := Xor(a, b);
    XorOfCodewords(a, b, d, p);
    ParityIsWeight(x);
    NotWeightTwo(x, d, p);
    var k :| 0 <= k < |a| && a[k] != b[k];
    WeightUpdate(x, k);
  }

  // ---------------------------------------------------------------------------------------------
  // The data determine the codeword
  // ---------------------------------------------------------------------------------------------

  /** Equal data: the words agree at every position that is not a power of two. */
  lemma {:induction false} SameDataBits(a: Word, b: Word, n: nat, k: nat)
    requires |a| == |b| && n <= |a| && k < n && !IsPow(k + 1)
    requires Data(a, n) == Data(b, n)
    ensures a[k] == b[k]
  {
    DataLengthUniform(a, b, n - 1);
    if IsPow(n) {
      assert Data(a, n) == Data(a, n - 1) && Data(b, n) == Data(b, n - 1);
      SameDataBits(a, b, n - 1, k);
    } else {
      var u, v := Data(a, n - 1), Data(b, n - 1);
      assert (u + [a[n - 1]])[..|u|] == u && (v + [b[n - 1]])[..|v|] == v;
      assert (u + [a[n - 1]])[|u|] == (v + [b[n - 1]])[|u|];
      if k < n - 1 {
        SameDataBits(a, b, n - 1, k);
      }
    }
  }

  /** A check sees at most the one power-of-two position it owns. */
  lemma {:induction false} OwnCheck(x: Word, i: nat, n: nat)
    requires n <= |x|
    requires forall k: nat :: k < n && !IsPow(k + 1) ==> !x[k]
    ensures Check(x, i, n) == (Pow2(i) <= n && x[Pow2(i) - 1])
  {
    if n > 0 {
      OwnCheck(x, i, n - 1);
      if x[n - 1] {
        var j: nat :| n == Pow2(j);
        BitOfPow2(j, i);
        if j < i {
          Pow2Monotone(j, i);
        } else if i < j {
          Pow2Monotone(i, j);
        }
      }
    }
  }

  /** A codeword whose data bits are all zero has only zeros at positions 1..n. */
  lemma ZeroData(x: Word, d: nat, p: nat, k: nat)
    requires IsParityLen(p, d) && IsCodeword(x, d, p) && k < d + p
    requires forall k: nat :: k < d + p && !IsPow(k + 1) ==> !x[k]
    ensures !x[k]
  {
    var n := d + p;
    if x[k] {
      var j: nat :| k + 1 == Pow2(j);
      OwnCheck(x, j, n);
      DataFillsWord(x, d, p);
      if p < j {
        Pow2Monotone(p, j);
      }
    }
  }

  /** A codeword is determined by its data. */
  lemma CodewordUnique(a: Word, b: Word, d: nat, p: nat)
    requires IsParityLen(p, d)
    requires IsCodeword(a, d, p) && IsCodeword(b, d, p)
    requires Data(a, d + p) == Data(b, d + p)
    ensures a == b
  {
    var n := d + p;
    var x := Xor(a, b);
    XorOfCodewords(a, b, d, p);
    forall k: nat | k < n && !IsPow(k + 1)
      ensures !x[k]
    {
      SameDataBits(a, b, n, k);
    }
    forall k: nat | k < n
      ensures !x[k]
    {
      ZeroData(x, d, p, k);
    }
    ParityPrefixFalse(x, n);
    assert forall k: nat :: k < |x| ==> !x[k] && (x[k] <==> a[k] != b[k]);
  }

  lemma {:induction false} ParityPrefixFalse(x: Word, n: nat)
    requires n <= |x|
    requires forall k: nat :: k < n ==> !x[k]
    ensures !Parity(x, n)
  {
    if n > 0 {
      ParityPrefixFalse(x, n - 1);
    }
  }
}
