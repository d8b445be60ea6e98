/**
 What the AXI adapters share: bus geometry, burst length and the cache line as a
 sequence of bus words, word 0 being the least significant.
 */
module AxiBurst {
  import opened Bits
  import opened Arith

  /** Transfer sizes are log2 of the number of bytes, in three bits. */
  type MemSize = n: nat | n < 8

  /** A cache line as bus words, least significant first. */
  type Words = seq<nat>

  function Zeros(n: nat): Words {
    seq(n, _ => 0)
  }

  /** Response codes of the B and R channels. */
  datatype RespCode = Okay | ExOkay | SlvErr | DecErr

  /** `log2`: log2 of the bus width in bytes; `words`: bus words in a cache line; `depth`: cells of
      the FIFOs. */
  datatype Config = Config(log2: nat, words: nat, depth: nat) {
    predicate Ok() {
      log2 < 8 && words >= 1 && depth >= 2
    }
  }

  /** AXI LEN: number of beats minus one, in eight bits. */
  function AxiLen(c: Config, size: MemSize): nat {
    if size >= c.log2 then (Pow2(size - c.log2) - 1) % 256 else 0
  }

  function AxiSize(c: Config, size: MemSize): nat {
    if size >= c.log2 then c.log2 else size
  }

  /** A transfer of at most one bus word is not a line transfer. */
  predicate IsUncached(c: Config, size: MemSize) {
    size <= c.log2
  }

  /** Number of beats of a burst. */
  type BeatCount = n: nat | 1 <= n <= 128 witness 1

  function Beats(c: Config, size: MemSize): BeatCount {
    LenBound(c, size);
    AxiLen(c, size) + 1
  }

  /** The bus word of the line that the address falls in. */
  function WordIndex(c: Config, addr: nat): (i: nat)
    requires c.Ok()
    ensures i < c.words
  {
    addr / Pow2(c.log2) % c.words
  }

  lemma SmallPowers(k: nat)
    requires k < 8
    ensures Pow2(k) <= 128
  {
    assert Pow2(3) == 8;
    assert Pow2(5) == 32;
    assert Pow2(7) == 128;
    if k < 7 {
      Pow2Monotone(k, 7);
    }
  }

  lemma LenBound(c: Config, size: MemSize)
    ensures AxiLen(c, size) == if size >= c.log2 then Pow2(size - c.log2) - 1 else 0
    ensures AxiLen(c, size) < 128
  {
    if size >= c.log2 {
      SmallPowers(size - c.log2);
    }
  }

  /** No three-bit size overflows the eight-bit length, and the burst moves the requested bytes: in
      beats of the full bus width, or in a single beat if it fits in one. */
  lemma BurstCoversTransfer(c: Config, size: MemSize)
    requires c.Ok()
    ensures Beats(c, size) * Pow2(AxiSize(c, size)) == Pow2(size)
    ensures AxiSize(c, size) <= c.log2 && (Beats(c, size) > 1 ==> AxiSize(c, size) == c.log2)
    ensures Beats(c, size) == AxiLen(c, size) + 1 && AxiLen(c, size) < 256
    ensures IsUncached(c, size) <==> Pow2(size) <= Pow2(c.log2)
    ensures IsUncached(c, size) <==> Beats(c, size) == 1
  {
    LenBound(c, size);
    if size >= c.log2 {
      Pow2Sum(size - c.log2, c.log2);
    }
    if size > c.log2 {
      Pow2Monotone(c.log2, size);
      Pow2Monotone(0, size - c.log2);
    } else if size < c.log2 {
      Pow2Monotone(size, c.log2);
    }
  }

  // ---------------------------------------------------------------------------------------------
  // Byte addresses
  // ---------------------------------------------------------------------------------------------

  /** Byte `off` of bus word `w` of line number `line`, counted through memory, is byte `addr`. */
  ghost predicate Splits(c: Config, addr: nat, line: nat, w: nat, off: nat) {
    off < Pow2(c.log2) && addr == (line * c.words + w) * Pow2(c.log2) + off
  }

  /** Byte address `addr` lies in bus word `w` of its line. */
  ghost predicate IsAt(c: Config, addr: nat, w: nat) {
    w < c.words && exists line, off :: Splits(c, addr, line, w, off)
  }

  lemma IndexIsAt(c: Config, addr: nat)
    requires c.Ok()
    ensures IsAt(c, addr, WordIndex(c, addr))
  {
    var b := Pow2(c.log2);
    Division(addr, b);
    Division(addr / b, c.words);
    assert Splits(c, addr, addr / b / c.words, WordIndex(c, addr), addr % b);
  }

  lemma AtIsIndex(c: Config, addr: nat, w: nat)
    requires c.Ok() && IsAt(c, addr, w)
    ensures w == WordIndex(c, addr)
  {
    var line, off :| Splits(c, addr, line, w, off);
    BlockUnit(addr, Pow2(c.log2), c.words, line, w, off);
  }

  lemma StartIsAt(c: Config)
    requires c.Ok()
    ensures IsAt(c, 0, 0)
  {
    assert Splits(c, 0, 0, 0, 0);
  }
}
