/**
 The ECC encoders (the C reference and the RTL) and the RTL decoder, as loops over bit buffers,
 proved against the code of module SecdedCode.
 */
module Secded {
  import opened Arith
  import opened Bits
  import opened SecdedCode

  /** The `d` low bits of `word`, least significant first. */
  function BitsOf(word: nat, d: nat): Word {
    seq(d, i requires 0 <= i < d => Bit(word, i))
  }

  /** The number that bits stand for, bit `i` weighing `2^i`. */
  function NumberOf(bits: Word): nat {
    if |bits| == 0 then 0
    else NumberOf(bits[..|bits| - 1]) + if bits[|bits| - 1] then Pow2(|bits| - 1) else 0
  }

  lemma LowBits(word: nat, m: nat)
    ensures word % Pow2(m + 1) == word % Pow2(m) + if Bit(word, m) then Pow2(m) else 0
  {
    ShiftIsBit(word, m);
    RemainderOfDouble(word, Pow2(m));
  }

  /** The `d` bits stand for the word, cut to `d` bits. */
  lemma {:induction false} BitsNumber(word: nat, d: nat)
    ensures NumberOf(BitsOf(word, d)) == word % Pow2(d)
  {
    if d > 0 {
      BitsNumber(word, d - 1);
      assert BitsOf(word, d)[..d - 1] == BitsOf(word, d - 1);
      LowBits(word, d - 1);
    }
  }

  /** The width search: it stops at the least sufficient width, whatever the data length. */
  method CalcParityLen(d: nat) returns (p: nat)
    ensures IsParityLen(p, d)
  {
    p := 2;
    while Pow2(p) < p + d + 1
      invariant p >= 2
      invariant forall q: nat :: 2 <= q < p ==> Pow2(q) < q + d + 1
      decreases p + d + 1 - Pow2(p)
    {
      p := p + 1;
    }
  }

  method ToBin(data: array<bool>, word: nat)
    modifies data
    ensures data[..] == BitsOf(word, data.Length) && NumberOf(data[..]) == word % Pow2(data.Length)
  {
    BitsNumber(word, data.Length);
    for i := 0 to data.Length
      invariant data[..i] == BitsOf(word, data.Length)[..i]
    {
      ShiftIsBit(word, i);
      data[i] := word / Pow2(i) % 2 == 1;
      assert data[..i + 1] == data[..i] + [data[i]];
    }
    assert data[..] == data[..data.Length];
  }

  /** One check bit, by the accumulation loop over the positions 1..n. */
  method ComputeCheck(c: Word, i: nat, n: nat) returns (parity: bool)
    requires n <= |c|
    ensures parity == Check(c, i, n)
  {
    parity := false;
    for k := 1 to n + 1
      invariant parity == Check(c, i, k - 1)
    {
      AndPow2(k, i);
      if And(k, Pow2(i)) != 0 {
        parity := parity != c[k - 1];
      }
    }
  }

  method ComputeParity(c: Word, n: nat) returns (parity: bool)
    requires n <= |c|
    ensures parity == Parity(c, n)
  {
    parity := false;
    for k := 0 to n
      invariant parity == Parity(c, k)
    {
      parity := parity != c[k];
    }
  }

  /** The positions of 1..n that are powers of two hold zeros. */
  ghost predicate PowersClear(c: Word, n: nat)
    requires n <= |c|
  {
    forall k: nat :: k < n && IsPow(k + 1) ==> !c[k]
  }

  lemma ExpandClear(c: Word, i: nat, b: bool)
    requires 1 <= i <= |c| && PowersClear(c, i - 1) && (IsPow(i) ==> !b)
    ensures PowersClear(c[i - 1 := b], i)
  {
    var c' := c[i - 1 := b];
    forall k: nat | k < i && IsPow(k + 1)
      ensures !c'[k]
    {
      if k == i - 1 {
        assert k + 1 == i;
      } else {
        assert c'[k] == c[k];
      }
    }
  }

  lemma ExpandData(c: Word, i: nat, b: bool)
    requires 1 <= i <= |c|
    ensures Data(c[i - 1 := b], i) == Data(c, i - 1) + if IsPow(i) then [] else [b]
  {
    var c' := c[i - 1 := b];
    assert Data(c', i - 1) == Data(c, i - 1) by {
      assert c'[..i - 1] == c[..i - 1];
      DataPrefix(c', c, i - 1);
    }
    assert c'[i - 1] == b;
  }

  lemma TakeOne(info: Word, idx: nat)
    requires idx < |info|
    ensures info[..idx] + [info[idx]] == info[..idx + 1]
  {
  }

  lemma RoomForData(c: Word, d: nat, p: nat, i: nat)
    requires IsParityLen(p, d) && 1 <= i <= d + p <= |c| && !IsPow(i)
    ensures |Data(c, i - 1)| < d
  {
    DataFillsWord(c, d, p);
    DataMonotone(c, i, d + p);
  }

  /** The layout loop: zeros at the powers of two, the data bits in order elsewhere. */
  method Expand(info: Word, p: nat, codeword: array<bool>)
    requires IsParityLen(p, |info|) && codeword.Length == |info| + p + 1
    modifies codeword
    ensures Data(codeword[..], |info| + p) == info
    ensures PowersClear(codeword[..], |info| + p)
  {
    var d := |info|;
    var idx := 0;
    for i := 1 to d + p + 1
      invariant idx <= d
      invariant Data(codeword[..], i - 1) == info[..idx]
      invariant PowersClear(codeword[..], i - 1)
    {
      ghost var before := codeword[..];
      PowerOf2Test(i);
      if IsPowerOf2(i) {
        codeword[i - 1] := false;
      } else {
        RoomForData(before, d, p, i);
        TakeOne(info, idx);
        codeword[i - 1] := info[idx];
        idx := idx + 1;
      }
      ExpandClear(before, i, codeword[i - 1]);
      ExpandData(before, i, codeword[i - 1]);
      assert codeword[..] == before[i - 1 := codeword[i - 1]];
    }
    DataFillsWord(codeword[..], d, p);
  }

  /** The check bits `from..p` lie within positions 1..n and hold zeros. */
  ghost predicate ChecksClear(c: Word, from: nat, p: nat, n: nat)
    requires n <= |c|
  {
    forall j: nat :: from <= j < p ==> Pow2(j) <= n && !c[Pow2(j) - 1]
  }

  /** Writing the zero check bit at position 2^i changes check `i` by the bit written, and nothing
      else: no other check, no data bit. */
  lemma WriteCheckBit(c: Word, i: nat, n: nat, b: bool)
    requires n <= |c| && Pow2(i) <= n && !c[Pow2(i) - 1]
    ensures Check(c[Pow2(i) - 1 := b], i, n) == (Check(c, i, n) != b)
    ensures forall j: nat :: j != i ==> Check(c[Pow2(i) - 1 := b], j, n) == Check(c, j, n)
    ensures Data(c[Pow2(i) - 1 := b], n) == Data(c, n)
  {
    var k := Pow2(i) - 1;
    BitOfPow2(i, i);
    CheckUpdate(c, i, n, k, b);
    forall j: nat | j != i
      ensures Check(c[k := b], j, n) == Check(c, j, n)
    {
      BitOfPow2(i, j);
      CheckUpdate(c, j, n, k, b);
    }
    DataUnchanged(c, n, k, b);
  }

  /** One pass of the parity loop: check `i` becomes even, the checks already written stay so. */
  lemma ParityStep(c: Word, p: nat, n: nat, i: nat)
    requires i < p && n <= |c|
    requires ChecksEven(c, i, n) && ChecksClear(c, i, p, n)
    ensures Pow2(i) <= n
    ensures ChecksEven(c[Pow2(i) - 1 := Check(c, i, n)], i + 1, n)
    ensures ChecksClear(c[Pow2(i) - 1 := Check(c, i, n)], i + 1, p, n)
    ensures Data(c[Pow2(i) - 1 := Check(c, i, n)], n) == Data(c, n)
  {
    assert Pow2(i) <= n && !c[Pow2(i) - 1];
    WriteCheckBit(c, i, n, Check(c, i, n));
    var c' := c[Pow2(i) - 1 := Check(c, i, n)];
    forall j: nat | j < i + 1
      ensures !Check(c', j, n)
    {
      assert j != i ==> Check(c', j, n) == Check(c, j, n);
    }
    forall j: nat | i + 1 <= j < p
      ensures Pow2(j) <= n && !c'[Pow2(j) - 1]
    {
      Pow2Monotone(i, j);
    }
  }

  lemma CheckPositionsClear(c: Word, d: nat, p: nat)
    requires IsParityLen(p, d) && d + p <= |c|
    requires PowersClear(c, d + p)
    ensures ChecksClear(c, 0, p, d + p)
  {
    forall j: nat | j < p
      ensures Pow2(j) <= d + p && !c[Pow2(j) - 1]
    {
      DataFillsWord(c, d, p);
      if j < p - 1 {
        Pow2Monotone(j, p - 1);
      }
    }
  }

  /** Appending the XOR of the other bits makes the overall parity even. */
  lemma CloseParity(c: Word, d: nat, p: nat)
    requires |c| == d + p + 1 && ChecksEven(c, p, d + p)
    ensures var c' := c[d + p := Parity(c, d + p)];
      IsCodeword(c', d, p) && Data(c', d + p) == Data(c, d + p)
  {
    var n := d + p;
    var b := Parity(c, n);
    ParityUpdate(c, n, n, b);
    DataUnchanged(c, n, n, b);
    var c' := c[n := b];
    forall i: nat | i < p
      ensures !Check(c', i, n)
    {
      CheckUpdate(c, i, n, n, b);
    }
  }

  /** The parity loop: the check bits are computed and written in place, one after the other. */
  method WriteChecks(codeword: array<bool>, p: nat, n: nat)
    requires n <= codeword.Length && ChecksClear(codeword[..], 0, p, n)
    modifies codeword
    ensures ChecksEven(codeword[..], p, n)
    ensures Data(codeword[..], n) == old(Data(codeword[..], n))
  {
    ghost var data := Data(codeword[..], n);
    for i := 0 to p
      invariant ChecksEven(codeword[..], i, n) && ChecksClear(codeword[..], i, p, n)
      invariant Data(codeword[..], n) == data
    {
      ghost var before := codeword[..];
      ParityStep(before, p, n, i);
      var parity := ComputeCheck(codeword[..], i, n);
      codeword[Pow2(i) - 1] := parity;
      assert codeword[..] == before[Pow2(i) - 1 := parity];
    }
  }

  /** The loops of the C encoder, on the bits of the word. */
  method EncodeBits(info: Word, d: nat, p: nat, codeword: array<bool>)
    requires |info| == d && IsParityLen(p, d) && codeword.Length == d + p + 1
    modifies codeword
    ensures IsCodeword(codeword[..], d, p) && Data(codeword[..], d + p) == info
  {
    Expand(info, p, codeword);
    CheckPositionsClear(codeword[..], d, p);
    WriteChecks(codeword, p, d + p);
    ghost var before := codeword[..];
    CloseParity(before, d, p);
    var parity := ComputeParity(codeword[..], d + p);
    codeword[d + p] := parity;
    assert codeword[..] == before[d + p := parity];
  }

  method WordBits(word: nat, d: nat) returns (bits: Word)
    ensures |bits| == d && bits == BitsOf(word, d)
  {
    var info := new bool[d];
    ToBin(info, word);
    bits := info[..];
  }

  /** A codeword buffer has room for the word, its check bits and the parity bit. */
  ghost predicate HasRoom(length: nat, d: nat) {
    exists p :: IsParityLen(p, d) && length == d + p + 1
  }

  lemma RoomIs(length: nat, d: nat, p: nat)
    requires HasRoom(length, d) && IsParityLen(p, d)
    ensures length == d + p + 1
  {
    var q :| IsParityLen(q, d) && length == d + q + 1;
    ParityLenUnique(p, q, d);
  }

  /** A codeword whose data are the bits of the word, and stand for the word, cut to `d` bits. */
  ghost predicate Encodes(c: Word, word: nat, d: nat, p: nat) {
    && IsCodeword(c, d, p)
    && Data(c, d + p) == BitsOf(word, d)
    && NumberOf(Data(c, d + p)) == word % Pow2(d)
  }

  lemma EncodesBits(c: Word, word: nat, d: nat, p: nat)
    requires IsCodeword(c, d, p) && Data(c, d + p) == BitsOf(word, d)
    ensures Encodes(c, word, d, p)
  {
    BitsNumber(word, d);
  }

  /** The C encoder for a known width. */
  method EncodeWord(word: nat, d: nat, p: nat, codeword: array<bool>)
    requires IsParityLen(p, d) && codeword.Length == d + p + 1
    modifies codeword
    ensures Encodes(codeword[..], word, d, p)
  {
    var bits := WordBits(word, d);
    EncodeBits(bits, d, p, codeword);
    EncodesBits(codeword[..], word, d, p);
  }

  /** The C encoder. */
  method EccEncode(word: nat, d: nat, codeword: array<bool>) returns (p: nat)
    requires HasRoom(codeword.Length, d)
    modifies codeword
    ensures IsParityLen(p, d) && Encodes(codeword[..], word, d, p)
  {
    p := CalcParityLen(d);
    RoomIs(codeword.Length, d, p);
    EncodeWord(word, d, p, codeword);
  }

  /** One pass of the RTL's merging loop, with the parity taken from the expanded word. */
  lemma MergeStep(c: Word, expanded: Word, p: nat, n: nat, i: nat)
    requires i < p && n <= |c| && n <= |expanded|
    requires ChecksEven(c, i, n) && ChecksClear(c, i, p, n)
    requires forall j: nat :: i <= j < p ==> Check(c, j, n) == Check(expanded, j, n)
    ensures Pow2(i) <= n
    ensures var c' := c[Pow2(i) - 1 := Check(expanded, i, n)];
      && ChecksEven(c', i + 1, n) && ChecksClear(c', i + 1, p, n) && Data(c', n) == Data(c, n)
      && forall j: nat :: i + 1 <= j < p ==> Check(c', j, n) == Check(expanded, j, n)
  {
    ParityStep(c, p, n, i);
    WriteCheckBit(c, i, n, Check(expanded, i, n));
  }

  /** The merging loop of the RTL encoder: all parity bits are taken from the expanded word. */
  method MergeParities(expanded: Word, p: nat, n: nat) returns (merged: Word)
    requires n <= |expanded| && ChecksClear(expanded, 0, p, n)
    ensures |merged| == |expanded| && ChecksEven(merged, p, n) && Data(merged, n) == Data(expanded, n)
  {
    merged := expanded;
    for i := 0 to p
      invariant |merged| == |expanded| && Data(merged, n) == Data(expanded, n)
      invariant ChecksEven(merged, i, n) && ChecksClear(merged, i, p, n)
      invariant forall j: nat :: i <= j < p ==> Check(merged, j, n) == Check(expanded, j, n)
    {
      MergeStep(merged, expanded, p, n, i);
      var parity := ComputeCheck(expanded, i, n);
      merged := merged[Pow2(i) - 1 := parity];
    }
  }

  /** The overall parity bit. */
  method Close(c: Word, d: nat, p: nat) returns (closed: Word)
    requires |c| == d + p + 1 && ChecksEven(c, p, d + p)
    ensures IsCodeword(closed, d, p) && Data(closed, d + p) == Data(c, d + p)
  {
    CloseParity(c, d, p);
    var parity := ComputeParity(c, d + p);
    closed := c[d + p := parity];
  }

  /** The RTL encoder. */
  method EccEncodeRtl(data: Word, p: nat) returns (encoded: Word)
    requires IsParityLen(p, |data|)
    ensures IsCodeword(encoded, |data|, p)
    ensures Data(encoded, |data| + p) == data
  {
    var n := |data| + p;
    var buffer := new bool[n + 1];
    Expand(data, p, buffer);
    CheckPositionsClear(buffer[..], |data|, p);
    var merged := MergeParities(buffer[..], p, n);
    encoded := Close(merged, |data|, p);
  }

  datatype Decoded = Decoded(
    data: Word, syndrome: nat, singleError: bool, parityError: bool, doubleError: bool)

  /** What the decoder reports: a syndrome outside the word addresses no bit. */
  ghost function Decode(w: Word, d: nat, p: nat): Decoded
    requires |w| == d + p + 1
  {
    var s := Syndrome(w, 0, p, d + p);
    var odd := Parity(w, |w|);
    var corrected := if 0 < s <= d + p then Flip(w, s - 1) else w;
    Decoded(Data(corrected, d + p), s, odd && s != 0, odd && s == 0, !odd && s != 0)
  }

  lemma {:induction false} SyndromeAccumulates(c: Word, i: nat, p: nat, n: nat, low: nat)
    requires n <= |c| && i < p
    ensures low + Pow2(i) * Syndrome(c, i, p, n)
         == low + (if Check(c, i, n) then Pow2(i) else 0) + Pow2(i + 1) * Syndrome(c, i + 1, p, n)
  {
    var t := Syndrome(c, i + 1, p, n);
    assert Pow2(i) * (2 * t) == Pow2(i + 1) * t;
    assert Pow2(i) * (2 * t + 1) == Pow2(i + 1) * t + Pow2(i);
  }

  method ComputeSyndrome(w: Word, p: nat, n: nat) returns (syndrome: nat)
    requires n <= |w|
    ensures syndrome == Syndrome(w, 0, p, n)
  {
    syndrome := 0;
    for i := 0 to p
      invariant syndrome + Pow2(i) * Syndrome(w, i, p, n) == Syndrome(w, 0, p, n)
    {
      SyndromeAccumulates(w, i, p, n, syndrome);
      var check := ComputeCheck(w, i, n);
      if check {
        syndrome := syndrome + Pow2(i);
      }
    }
  }

  /** The RTL decoder. */
  method EccDecode(w: Word, d: nat, p: nat) returns (r: Decoded)
    requires IsParityLen(p, d) && |w| == d + p + 1
    ensures r == Decode(w, d, p)
  {
    var odd := ComputeParity(w, d + p + 1);
    var syndrome := ComputeSyndrome(w, p, d + p);
    var corrected := w;
    if syndrome != 0 && syndrome <= d + p {
      corrected := w[syndrome - 1 := !w[syndrome - 1]];
    }
    var data := [];
    for i := 1 to d + p + 1
      invariant data == Data(corrected, i - 1)
    {
      PowerOf2Test(i);
      if !IsPowerOf2(i) {
        data := data + [corrected[i - 1]];
      }
    }
    r := Decoded(data, syndrome, odd && syndrome != 0, odd && syndrome == 0, !odd && syndrome != 0);
  }

  // ---------------------------------------------------------------------------------------------
  // End to end
  // ---------------------------------------------------------------------------------------------

  /** Distinct d-bit words encode to codewords at distance at least four. */
  lemma EncodingsFarApart(v: nat, w: nat, d: nat, p: nat, a: Word, b: Word)
    requires IsParityLen(p, d) && v < Pow2(d) && w < Pow2(d) && v != w
    requires Encodes(a, v, d, p) && Encodes(b, w, d, p)
    ensures Distance(a, b) >= 4
  {
    SmallRemainder(v, Pow2(d));
    SmallRemainder(w, Pow2(d));
    MinimumDistance(a, b, d, p);
  }

  /** An intact codeword decodes to its data with all flags clear. */
  lemma DecodeClean(c: Word, d: nat, p: nat)
    requires IsParityLen(p, d) && IsCodeword(c, d, p)
    ensures Decode(c, d, p) == Decoded(Data(c, d + p), 0, false, false, false)
  {
    CleanSyndrome(c, d, p);
  }

  /** One flipped bit is repaired: the data of the codeword come back, the syndrome names the bit,
      and exactly one of the single-error and parity-error flags is raised. */
  lemma DecodeSingle(c: Word, d: nat, p: nat, k: nat)
    requires IsParityLen(p, d) && IsCodeword(c, d, p) && k < |c|
    ensures Decode(Flip(c, k), d, p)
         == Decoded(Data(c, d + p), Position(k, d + p), k < d + p, k == d + p, false)
  {
    SingleFlip(c, d, p, k);
    if k < d + p {
      assert Flip(Flip(c, k), k) == c;
    } else {
      DataUnchanged(c, d + p, k, !c[k]);
    }
  }

  /** Two flipped bits are detected, and only the double-error flag is raised. */
  lemma DecodeDouble(c: Word, d: nat, p: nat, k: nat, l: nat)
    requires IsParityLen(p, d) && IsCodeword(c, d, p)
    requires k < |c| && l < |c| && k != l
    ensures var r := Decode(Flip(Flip(c, k), l), d, p);
      r.doubleError && !r.singleError && !r.parityError
  {
    DoubleFlip(c, d, p, k, l);
  }
}
