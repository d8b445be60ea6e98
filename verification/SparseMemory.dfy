/**
 The simulator's sparse memory: a map from word addresses to 32-bit words behind a 32-bit address
 space, accessed through a 64-byte bus, by block writes of any alignment, and by atomic operations.
 It is proved to behave as a flat array of bytes that starts out zero.
 */
module SparseMemory {
  import opened Arith
  import opened Words
  import opened Amo
  import opened AmoMeaning

  /** Size of the address space. */
  const SPACE: nat := 0x1_0000_0000

  type Lanes = m: seq<bool> | |m| == 4 witness [false, false, false, false]
  type Contents = map<nat, Half>

  // ---------------------------------------------------------------------------------------------
  // The flat view
  // ---------------------------------------------------------------------------------------------

  /** A limit of zero means that every address exists. */
  predicate InRange(limit: nat, word: nat) {
    limit == 0 || word < limit
  }

  function WordOf(a: nat): nat {
    a - a % 4
  }

  function ByteOf(m: Contents, limit: nat, a: nat): Byte {
    if InRange(limit, WordOf(a)) && WordOf(a) in m then m[WordOf(a)][a % 4] else 0
  }

  function Flat(m: Contents, limit: nat): nat -> Byte {
    (a: nat) => ByteOf(m, limit, a)
  }

  function SpanOf(g: nat -> Byte, a: nat, n: nat): (r: seq<Byte>)
    ensures |r| == n && forall i :: 0 <= i < n ==> r[i] == g(a + i)
  {
    seq<Byte>(n, i requires 0 <= i < n => g(a + i))
  }

  function Mix(old': Half, data: Half, mask: Lanes): Half {
    seq(4, i requires 0 <= i < 4 => if mask[i] then data[i] else old'[i])
  }

  function Get(m: Contents, addr: nat): Half {
    if addr in m then m[addr] else ZERO4
  }

  /** The word that a read returns. */
  function Load(m: Contents, limit: nat, addr: nat): Half {
    if InRange(limit, addr) && addr in m then m[addr] else ZERO4
  }

  /** It holds the four bytes of the flat view. */
  lemma LoadBytes(m: Contents, limit: nat, addr: nat, i: nat)
    requires addr % 4 == 0 && i < 4
    ensures Load(m, limit, addr)[i] == ByteOf(m, limit, addr + i)
  {
    assert WordOf(addr + i) == addr && (addr + i) % 4 == i;
  }

  /** The masked write of one word. */
  function Put(m: Contents, limit: nat, addr: nat, data: Half, mask: Lanes): Contents {
    if InRange(limit, addr) then m[addr := Mix(Get(m, addr), data, mask)] else m
  }

  /** It replaces the enabled bytes of that word, and no other byte. */
  lemma PutByte(m: Contents, limit: nat, addr: nat, data: Half, mask: Lanes, a: nat)
    requires addr % 4 == 0
    ensures ByteOf(Put(m, limit, addr, data, mask), limit, a)
         == if InRange(limit, addr) && addr <= a < addr + 4 && mask[a - addr] then data[a - addr]
            else ByteOf(m, limit, a)
  {
    if WordOf(a) == addr {
      assert a - addr == a % 4;
    } else {
      assert !(addr <= a < addr + 4);
    }
  }

  // ---------------------------------------------------------------------------------------------
  // Bus writes
  // ---------------------------------------------------------------------------------------------

  /** Byte `a` after the first `n` lanes of a bus write at `base`. */
  function Stored(was: Byte, limit: nat, base: nat, n: nat, be: seq<bool>, data: seq<Byte>, a: nat): Byte
    requires n <= |be| == |data|
  {
    if base <= a < base + n && be[a - base] && InRange(limit, WordOf(a)) then data[a - base] else was
  }

  /** One word of a bus write, skipped when none of its bytes is enabled. */
  function StoreOne(m: Contents, limit: nat, base: nat, k: nat, be: seq<bool>, data: seq<Byte>): Contents
    requires k + 4 <= |be| == |data|
  {
    if be[k] || be[k + 1] || be[k + 2] || be[k + 3]
    then Put(m, limit, base + k, data[k..k + 4], be[k..k + 4]) else m
  }

  /** The memory after the first `n` words of a bus write. */
  function StoreWords(m: Contents, limit: nat, base: nat, n: nat, be: seq<bool>, data: seq<Byte>): Contents
    requires 4 * n <= |be| == |data|
  {
    if n == 0 then m
    else StoreOne(StoreWords(m, limit, base, n - 1, be, data), limit, base, 4 * (n - 1), be, data)
  }

  lemma StoreWord(m: Contents, limit: nat, base: nat, k: nat, be: seq<bool>, data: seq<Byte>, was: Byte, a: nat)
    requires base % 4 == 0 && k % 4 == 0 && k + 4 <= |be| == |data|
    requires ByteOf(m, limit, a) == Stored(was, limit, base, k, be, data, a)
    ensures ByteOf(StoreOne(m, limit, base, k, be, data), limit, a)
         == Stored(was, limit, base, k + 4, be, data, a)
  {
    PutByte(m, limit, base + k, data[k..k + 4], be[k..k + 4], a);
    if base + k <= a < base + k + 4 {
      assert WordOf(a) == base + k;
    }
  }

  /** Every byte after a bus write. */
  lemma {:induction false} StoredByte(
    m: Contents, limit: nat, base: nat, n: nat, be: seq<bool>, data: seq<Byte>, a: nat)
    requires base % 4 == 0 && 4 * n <= |be| == |data|
    ensures ByteOf(StoreWords(m, limit, base, n, be, data), limit, a)
         == Stored(ByteOf(m, limit, a), limit, base, 4 * n, be, data, a)
  {
    if n > 0 {
      var before := StoreWords(m, limit, base, n - 1, be, data);
      StoredByte(m, limit, base, n - 1, be, data, a);
      StoreWord(before, limit, base, 4 * (n - 1), be, data, ByteOf(m, limit, a), a);
    }
  }

  lemma StoredBytes(m: Contents, limit: nat, base: nat, n: nat, be: seq<bool>, data: seq<Byte>)
    requires base % 4 == 0 && 4 * n <= |be| == |data|
    ensures forall a: nat :: ByteOf(StoreWords(m, limit, base, n, be, data), limit, a)
                          == Stored(ByteOf(m, limit, a), limit, base, 4 * n, be, data, a)
  {
    forall a: nat
      ensures ByteOf(StoreWords(m, limit, base, n, be, data), limit, a)
           == Stored(ByteOf(m, limit, a), limit, base, 4 * n, be, data, a)
    {
      StoredByte(m, limit, base, n, be, data, a);
    }
  }

  // ---------------------------------------------------------------------------------------------
  // Block writes
  // ---------------------------------------------------------------------------------------------

  function Wrap(a: nat): nat
    requires a < 2 * SPACE
  {
    if a < SPACE then a else a - SPACE
  }

  /** Distance from `base` up to `a`, around the end of the address space. */
  function Distance(base: nat, a: nat): nat
    requires base < SPACE && a < SPACE
  {
    if base <= a then a - base else a + SPACE - base
  }

  /** The bytes a block write of `size` bytes reaches. A block that starts inside a word and ends
      before its last byte reaches beyond its end. */
  function Reach(addr: nat, size: nat): (n: nat)
    ensures n >= size
  {
    var offset := addr % 4;
    if offset != 0 && offset + size < 4 then
      if 4 - offset < offset + size then 4 - offset else offset + size
    else size
  }

  /** Byte `a` after `n` bytes starting at `addr` were taken from `buf`. */
  function Blitted(was: Byte, limit: nat, addr: nat, n: nat, buf: int -> Byte, a: nat): Byte
    requires addr < SPACE && a < SPACE
  {
    if Distance(addr, a) < n && InRange(limit, WordOf(a)) then buf(Distance(addr, a)) else was
  }

  /** The block starts at a word boundary or reaches the next one. */
  predicate Exact(addr: nat, size: nat) {
    addr % 4 == 0 || addr % 4 + size >= 4
  }

  /** A block of `n` bytes from `addr` on: byte `d` of the buffer is stored at `addr + d`, around the end
      of the address space, if that exists; every other byte stays. */
  lemma BlittedMeaning(was: Byte, limit: nat, addr: nat, n: nat, buf: int -> Byte, a: nat, d: nat)
    requires addr < SPACE && a < SPACE && d < SPACE && (addr + d) % SPACE == a
    ensures Blitted(was, limit, addr, n, buf, a) == if d < n && (limit == 0 || a - a % 4 < limit) then buf(d) else was
  {
    assert d == Distance(addr, a);
  }

  /** A block write touches exactly its own bytes, whatever the memory and the buffer hold, if and
      only if it starts at a word boundary or reaches the next one. */
  lemma BlockExact(addr: nat, size: nat)
    requires addr < SPACE && size < SPACE
    ensures (forall was: Byte, buf: int -> Byte, a: nat :: a < SPACE ==>
              Blitted(was, 0, addr, Reach(addr, size), buf, a) == Blitted(was, 0, addr, size, buf, a))
       <==> Exact(addr, size)
  {
    if !Exact(addr, size) {
      var a := addr + size;
      var buf := (_: int) => 1 as Byte;
      assert Distance(addr, a) == size;
      assert Blitted(0, 0, addr, Reach(addr, size), buf, a) == 1;
      assert Blitted(0, 0, addr, size, buf, a) == 0;
    }
  }

  function Lanes4(from: int, to: int): Lanes {
    seq(4, i => from <= i < to)
  }

  function Fetch(buf: int -> Byte, at: int): Half {
    [buf(at), buf(at + 1), buf(at + 2), buf(at + 3)]
  }

  /** One more aligned word of a block write, of which `n` bytes are enabled. */
  lemma BlitWord(m: Contents, limit: nat, base: nat, done: nat, n: nat, buf: int -> Byte, was: Byte, a: nat)
    requires base < SPACE && done < SPACE && done + n <= SPACE && n <= 4 && a < SPACE
    requires Wrap(base + done) % 4 == 0
    requires ByteOf(m, limit, a) == Blitted(was, limit, base, done, buf, a)
    ensures ByteOf(Put(m, limit, Wrap(base + done), Fetch(buf, done), Lanes4(0, n)), limit, a)
         == Blitted(was, limit, base, done + n, buf, a)
  {
    var addr := Wrap(base + done);
    PutByte(m, limit, addr, Fetch(buf, done), Lanes4(0, n), a);
    if addr <= a < addr + n {
      assert Distance(base, a) == done + (a - addr);
      assert WordOf(a) == addr;
    } else {
      assert !(done <= Distance(base, a) < done + n);
    }
  }

  /** The first, unaligned word of a block write. */
  lemma BlitFirst(m: Contents, limit: nat, base: nat, n: nat, buf: int -> Byte, a: nat)
    requires base < SPACE && a < SPACE && base % 4 != 0 && n <= 4 - base % 4
    ensures ByteOf(Put(m, limit, WordOf(base), Fetch(buf, -(base % 4)), Lanes4(base % 4, base % 4 + n)), limit, a)
         == Blitted(ByteOf(m, limit, a), limit, base, n, buf, a)
  {
    var addr := WordOf(base);
    PutByte(m, limit, addr, Fetch(buf, -(base % 4)), Lanes4(base % 4, base % 4 + n), a);
    if addr <= a < addr + 4 {
      assert WordOf(a) == addr;
    }
  }

  // ---------------------------------------------------------------------------------------------
  // Atomic operations
  // ---------------------------------------------------------------------------------------------

  const ALL: Lanes := [true, true, true, true]

  /** The operations of the simulator: those of the memory interface, and the two exclusive ones. */
  datatype SimOp = Compute(op: MemOp) | LoadExclusive | StoreExclusive

  /** The four-bit operation code. */
  datatype Code = Defined(op: SimOp) | Reserved

  function SimResult(op: SimOp, mem: Word, core: Word): Word {
    match op
    case Compute(f) => SimCompute(f, mem, core)
    case LoadExclusive => mem
    case StoreExclusive => core
  }

  function Join(low: Half, high: Half): Word {
    low + high
  }

  /** Eight bytes of the operand line, from byte `k` on. */
  function OperandAt(data: nat -> Byte, k: nat): Word {
    SpanOf(data, k, 8)
  }

  /** Four bytes of the flat view. */
  function FourAt(g: nat -> Byte, a: nat): Half {
    SpanOf(g, a, 4)
  }

  /** What an update stores, given the word at its address and the next one. */
  type Rule = (Half, Half) -> Word

  /** The result of an atomic operation: single words are sign-extended. */
  function AmoValue(low: Half, high: Half, double: bool, op: SimOp, core: Word): Word {
    if double then SimResult(op, Join(low, high), core)
    else SimResult(op, SignExtend(low), SignExtend(Low(core)))
  }

  function AmoRule(double: bool, op: SimOp, core: Word): Rule {
    (low: Half, high: Half) => AmoValue(low, high, double, op, core)
  }

  /** Byte `a` after an update of four or eight bytes at `addr`, `g` being the flat view before it. */
  function UpdatedByte(g: nat -> Byte, limit: nat, addr: nat, double: bool, rule: Rule, a: nat): Byte
    requires addr < SPACE && a < SPACE
  {
    var result := rule(FourAt(g, addr), FourAt(g, Wrap(addr + 4)));
    var d := Distance(addr, a);
    if d < (if double then 8 else 4) && InRange(limit, WordOf(a)) then result[d] else g(a)
  }

  function Updated(m: Contents, limit: nat, addr: nat, double: bool, rule: Rule): Contents
    requires addr < SPACE
  {
    var next := Wrap(addr + 4);
    var result := rule(Load(m, limit, addr), Load(m, limit, next));
    var first := Put(m, limit, addr, Low(result), ALL);
    if double then Put(first, limit, next, High(result), ALL) else first
  }

  lemma LoadIsFour(m: Contents, limit: nat, addr: nat)
    requires addr % 4 == 0
    ensures Load(m, limit, addr) == FourAt(Flat(m, limit), addr)
  {
    forall i | 0 <= i < 4
      ensures Load(m, limit, addr)[i] == FourAt(Flat(m, limit), addr)[i]
    {
      LoadBytes(m, limit, addr, i);
    }
  }

  /** The bytes of one whole word written. */
  lemma PutWhole(m: Contents, limit: nat, addr: nat, data: Half, a: nat)
    requires addr < SPACE && addr % 4 == 0 && a < SPACE
    ensures ByteOf(Put(m, limit, addr, data, ALL), limit, a)
         == if Distance(addr, a) < 4 && InRange(limit, WordOf(a)) then data[Distance(addr, a)]
            else ByteOf(m, limit, a)
  {
    PutByte(m, limit, addr, data, ALL, a);
    if addr <= a < addr + 4 {
      assert WordOf(a) == addr;
    }
  }

  lemma NextWord(addr: nat, a: nat)
    requires addr < SPACE && addr % 4 == 0 && a < SPACE
    ensures Wrap(addr + 4) < SPACE && Wrap(addr + 4) % 4 == 0
    ensures var d := Distance(addr, a);
      Distance(Wrap(addr + 4), a) == if d >= 4 then d - 4 else d + SPACE - 4
  {
  }

  lemma UpdateOneByte(m: Contents, limit: nat, addr: nat, double: bool, rule: Rule, a: nat)
    requires addr < SPACE && addr % 4 == 0 && a < SPACE
    ensures ByteOf(Updated(m, limit, addr, double, rule), limit, a)
         == UpdatedByte(Flat(m, limit), limit, addr, double, rule, a)
  {
    var next := Wrap(addr + 4);
    NextWord(addr, a);
    LoadIsFour(m, limit, addr);
    LoadIsFour(m, limit, next);
    var result := rule(Load(m, limit, addr), Load(m, limit, next));
    PutWhole(m, limit, addr, Low(result), a);
    PutWhole(Put(m, limit, addr, Low(result), ALL), limit, next, High(result), a);
  }

  lemma UpdateBytes(m: Contents, limit: nat, addr: nat, double: bool, rule: Rule)
    requires addr < SPACE && addr % 4 == 0
    ensures forall a: nat :: a < SPACE ==>
      ByteOf(Updated(m, limit, addr, double, rule), limit, a)
        == UpdatedByte(Flat(m, limit), limit, addr, double, rule, a)
  {
    forall a: nat | a < SPACE
      ensures ByteOf(Updated(m, limit, addr, double, rule), limit, a)
           == UpdatedByte(Flat(m, limit), limit, addr, double, rule, a)
    {
      UpdateOneByte(m, limit, addr, double, rule, a);
    }
  }

  /** The flat view after an update without address limit. */
  function UpdatedFlat(g: nat -> Byte, addr: nat, double: bool, rule: Rule): nat -> Byte
    requires addr < SPACE
  {
    (a: nat) => if a < SPACE then UpdatedByte(g, 0, addr, double, rule, a) else g(a)
  }

  lemma JoinSpans(g: nat -> Byte, a: nat)
    ensures Join(FourAt(g, a), FourAt(g, a + 4)) == SpanOf(g, a, 8)
    ensures Low(SpanOf(g, a, 8)) == FourAt(g, a) && High(SpanOf(g, a, 8)) == FourAt(g, a + 4)
  {
  }

  lemma DoubleUpdate(g: nat -> Byte, base: nat, rule: Rule)
    requires base + 8 <= SPACE
    ensures SpanOf(UpdatedFlat(g, base, true, rule), base, 8) == rule(FourAt(g, base), FourAt(g, base + 4))
  {
    var h, result := UpdatedFlat(g, base, true, rule), rule(FourAt(g, base), FourAt(g, base + 4));
    assert Wrap(base + 4) == base + 4;
    forall i: nat | i < 8
      ensures SpanOf(h, base, 8)[i] == result[i]
    {
      assert Distance(base, base + i) == i;
      assert h(base + i) == UpdatedByte(g, 0, base, true, rule, base + i);
    }
  }

  /** An update of four bytes, seen on one byte of the double word around it. */
  lemma SingleUpdateByte(g: nat -> Byte, base: nat, off: nat, rule: Rule, f: Half -> Half, i: nat)
    requires base + 8 <= SPACE && (off == 0 || off == 4) && i < 8
    requires forall low, high :: Low(rule(low, high)) == f(low)
    ensures UpdatedByte(g, 0, base + off, false, rule, base + i)
         == if off <= i < off + 4 then f(FourAt(g, base + off))[i - off] else g(base + i)
  {
    var low, high := FourAt(g, base + off), FourAt(g, Wrap(base + off + 4));
    assert Low(rule(low, high)) == f(low);
    assert Distance(base + off, base + i) == if off <= i then i - off else i + SPACE - off;
    if off <= i < off + 4 {
      assert rule(low, high)[i - off] == Low(rule(low, high))[i - off];
    }
  }

  /** An update of four bytes replaces its half of the double word. */
  lemma SingleUpdate(g: nat -> Byte, base: nat, off: nat, rule: Rule, f: Half -> Half)
    requires base + 8 <= SPACE && (off == 0 || off == 4)
    requires forall low, high :: Low(rule(low, high)) == f(low)
    ensures SpanOf(UpdatedFlat(g, base + off, false, rule), base, 8) == ApplyHalf(SpanOf(g, base, 8), off, f)
  {
    var before, after := SpanOf(g, base, 8), SpanOf(UpdatedFlat(g, base + off, false, rule), base, 8);
    var half := f(FourAt(g, base + off));
    assert before[off..off + 4] == FourAt(g, base + off);
    forall i: nat | i < 8
      ensures after[i] == if off <= i < off + 4 then half[i - off] else before[i]
    {
      assert after[i] == UpdatedByte(g, 0, base + off, false, rule, base + i);
      SingleUpdateByte(g, base, off, rule, f, i);
    }
    assert after[off..off + 4] == half;
    HalfReplaced(before, after, off, f);
  }

  lemma AlignedDouble(g: nat -> Byte, base: nat, op: MemOp, core: Word)
    requires base + 8 <= SPACE
    ensures SpanOf(UpdatedFlat(g, base, true, AmoRule(true, Compute(op), core)), base, 8)
         == SimCompute(op, SpanOf(g, base, 8), core)
  {
    DoubleUpdate(g, base, AmoRule(true, Compute(op), core));
    JoinSpans(g, base);
  }

  lemma AlignedSingle(g: nat -> Byte, base: nat, off: nat, op: MemOp, core: Word, half: Half)
    requires base + 8 <= SPACE && (off == 0 || off == 4) && Low(core) == half
    ensures SpanOf(UpdatedFlat(g, base + off, false, AmoRule(false, Compute(op), core)), base, 8)
         == ApplyHalf(SpanOf(g, base, 8), off, (h: Half) => SimHalf(op, h, half))
  {
    var rule := AmoRule(false, Compute(op), core);
    var f := (h: Half) => SimHalf(op, h, half);
    forall low, high
      ensures Low(rule(low, high)) == f(low)
    {
      assert rule(low, high) == SimCompute(op, SignExtend(low), SignExtend(half));
    }
    SingleUpdate(g, base, off, rule, f);
  }

  /** The double word at `base` after an operation on four or eight of its bytes, with the operand at
      the same place of its bus line. */
  function UpdatedWord(g: nat -> Byte, base: nat, off: nat, word: bool, op: MemOp, data: nat -> Byte): Word
    requires base + 8 <= SPACE && (off == 0 || off == 4)
  {
    var rule := AmoRule(!word, Compute(op), OperandAt(data, (base + off) % 64));
    SpanOf(UpdatedFlat(g, base + off, !word, rule), base, 8)
  }

  lemma UpdatedDouble(g: nat -> Byte, base: nat, op: MemOp, data: nat -> Byte)
    requires base + 8 <= SPACE && base % 8 == 0
    ensures UpdatedWord(g, base, 0, false, op, data)
         == SimulatorWord(op, SpanOf(g, base, 8), OperandAt(data, base % 64), 0, false)
  {
    AlignedDouble(g, base, op, OperandAt(data, base % 64));
  }

  lemma OperandHalf(data: nat -> Byte, k: nat, off: nat)
    requires off == 0 || off == 4
    ensures OperandAt(data, k)[off..off + 4] == FourAt(data, k + off)
    ensures Low(OperandAt(data, k + off)) == FourAt(data, k + off)
  {
  }

  lemma PlaceInLine(base: nat, off: nat)
    requires base % 8 == 0 && off < 8
    ensures (base + off) % 64 == base % 64 + off
  {
    Division(base, 8);
    FactorRemainder(8, base / 8, 8);
    Division(base, 64);
    QuotientUnique(base + off, 64, base / 64, base % 64 + off);
  }

  lemma SimulatorSingle(op: MemOp, old': Word, y: Word, off: nat, half: Half)
    requires (off == 0 || off == 4) && y[off..off + 4] == half
    ensures SimulatorWord(op, old', y, off, true) == ApplyHalf(old', off, (h: Half) => SimHalf(op, h, half))
  {
  }

  lemma WordOfRule(g: nat -> Byte, base: nat, off: nat, op: MemOp, data: nat -> Byte, k: nat)
    requires base + 8 <= SPACE && (off == 0 || off == 4) && (base + off) % 64 == k
    ensures UpdatedWord(g, base, off, true, op, data)
         == SpanOf(UpdatedFlat(g, base + off, false, AmoRule(false, Compute(op), OperandAt(data, k))), base, 8)
  {
  }

  lemma UpdatedSingle(g: nat -> Byte, base: nat, off: nat, op: MemOp, data: nat -> Byte)
    requires base + 8 <= SPACE && base % 8 == 0 && (off == 0 || off == 4)
    ensures UpdatedWord(g, base, off, true, op, data)
         == SimulatorWord(op, SpanOf(g, base, 8), OperandAt(data, base % 64), off, true)
  {
    var k := base % 64 + off;
    PlaceInLine(base, off);
    OperandHalf(data, base % 64, off);
    SimulatorSingle(op, SpanOf(g, base, 8), OperandAt(data, base % 64), off, FourAt(data, k));
    AlignedSingle(g, base, off, op, OperandAt(data, k), FourAt(data, k));
    WordOfRule(g, base, off, op, data, k);
  }

  /** On a naturally aligned access without address limit, that double word is the one which module
      Amo compares with the other implementations. */
  lemma AmoAligned(g: nat -> Byte, base: nat, off: nat, word: bool, op: MemOp, data: nat -> Byte)
    requires base + 8 <= SPACE && base % 8 == 0 && (off == 0 || (off == 4 && word))
    ensures UpdatedWord(g, base, off, word, op, data)
         == SimulatorWord(op, SpanOf(g, base, 8), OperandAt(data, base % 64), off, word)
  {
    if word {
      UpdatedSingle(g, base, off, op, data);
    } else {
      UpdatedDouble(g, base, op, data);
    }
  }

  /** What an operation stores in the accessed bytes, as numbers. */
  lemma AmoValueMeaning(low: Half, high: Half, double: bool, op: MemOp, core: Word)
    ensures var r := AmoValue(low, high, double, Compute(op), core);
      if double then MemMeans(op, Number(Join(low, high)), Number(core), Number(r), 64)
      else MemMeans(op, Number(low), Number(Low(core)), Number(Low(r)), 32)
  {
    if double {
      SimMeaning(op, Join(low, high), core);
    } else {
      SimHalfMeaning(op, low, Low(core));
    }
  }

  /** The bytes that the exclusive operations put in the result. */
  lemma ExclusiveValue(low: Half, high: Half, double: bool, core: Word, d: nat)
    requires d < if double then 8 else 4
    ensures AmoValue(low, high, double, LoadExclusive, core)[d] == if d < 4 then low[d] else high[d - 4]
    ensures AmoValue(low, high, double, StoreExclusive, core)[d] == core[d]
  {
  }

  /** A store-exclusive stores the operand, a load-exclusive leaves every byte as it was. */
  lemma ExclusiveBytes(g: nat -> Byte, limit: nat, addr: nat, double: bool, data: nat -> Byte, a: nat)
    requires addr < SPACE && addr % 4 == 0 && a < SPACE
    ensures var core, d := OperandAt(data, addr % 64), Distance(addr, a);
      && UpdatedByte(g, limit, addr, double, AmoRule(double, LoadExclusive, core), a) == g(a)
      && UpdatedByte(g, limit, addr, double, AmoRule(double, StoreExclusive, core), a)
         == if d < (if double then 8 else 4) && InRange(limit, WordOf(a)) then data(addr % 64 + d) else g(a)
  {
    var core, d := OperandAt(data, addr % 64), Distance(addr, a);
    if d < if double then 8 else 4 {
      ExclusiveValue(FourAt(g, addr), FourAt(g, Wrap(addr + 4)), double, core, d);
      ByteInPlace(g, addr, a);
    }
  }

  lemma ByteInPlace(g: nat -> Byte, addr: nat, a: nat)
    requires addr < SPACE && addr % 4 == 0 && a < SPACE && Distance(addr, a) < 8
    ensures var d := Distance(addr, a);
      g(a) == if d < 4 then FourAt(g, addr)[d] else FourAt(g, Wrap(addr + 4))[d - 4]
  {
  }

  // ---------------------------------------------------------------------------------------------
  // The memory
  // ---------------------------------------------------------------------------------------------

  class Memory {
    var mem: Contents
    const limit: nat

    /** The flat view. */
    ghost function At(a: nat): Byte
      reads this
    {
      ByteOf(mem, limit, a)
    }

    constructor (limit: nat)
      ensures this.limit == limit && forall a: nat :: At(a) == 0
    {
      this.limit := limit;
      mem := map[];
    }

    /** Masked write of one word, lane by lane. */
    method Write(addr: nat, data: Half, mask: Lanes) returns (ok: bool)
      requires addr % 4 == 0
      modifies this
      ensures ok == InRange(limit, addr)
      ensures mem == Put(old(mem), limit, addr, data, mask)
    {
      if limit != 0 && addr >= limit {
        return false;
      }
      var word := Get(mem, addr);
      for i := 0 to 4
        invariant forall k :: 0 <= k < 4 ==>
          word[k] == if k < i then Mix(Get(mem, addr), data, mask)[k] else Get(mem, addr)[k]
        invariant mem == old(mem)
      {
        if mask[i] {
          word := word[i := data[i]];
        }
      }
      assert word == Mix(Get(mem, addr), data, mask);
      mem := mem[addr := word];
      ok := true;
    }

    method Read(addr: nat) returns (ok: bool, data: Half)
      requires addr % 4 == 0
      ensures ok == (InRange(limit, addr) && addr in mem) && data == Load(mem, limit, addr)
      ensures forall i :: 0 <= i < 4 ==> data[i] == At(addr + i)
    {
      forall i | 0 <= i < 4
        ensures Load(mem, limit, addr)[i] == At(addr + i)
      {
        LoadBytes(mem, limit, addr, i);
      }
      if (limit != 0 && addr >= limit) || addr !in mem {
        return false, ZERO4;
      }
      return true, mem[addr];
    }

    /** 64-byte bus read. */
    method BusRead(addr: nat) returns (data: seq<Byte>)
      requires addr < SPACE
      ensures |data| == 64
      ensures forall j :: 0 <= j < 64 ==> data[j] == At(addr - addr % 64 + j)
    {
      var base := addr - addr % 64;
      data := [];
      for i := 0 to 16
        invariant |data| == 4 * i
        invariant forall j :: 0 <= j < 4 * i ==> data[j] == At(base + j)
      {
        var _, word := Read(base + 4 * i);
        data := data + word;
      }
    }

    /** 64-byte bus write under byte enables; words without an enabled byte are skipped. */
    method BusWrite(addr: nat, be: seq<bool>, data: seq<Byte>)
      requires addr < SPACE && |be| == |data| == 64
      modifies this
      ensures var base := addr - addr % 64;
        forall a: nat :: At(a) == if base <= a < base + 64 && be[a - base] && (limit == 0 || a - a % 4 < limit)
                                  then data[a - base] else old(At(a))
    {
      var base := addr - addr % 64;
      StoredBytes(mem, limit, base, 16, be, data);
      BusWriteWords(base, be, data);
    }

    method BusWriteWords(base: nat, be: seq<bool>, data: seq<Byte>)
      requires base % 4 == 0 && |be| == |data| == 64
      modifies this
      ensures mem == StoreWords(old(mem), limit, base, 16, be, data)
    {
      for i := 0 to 16
        invariant mem == StoreWords(old(mem), limit, base, i, be, data)
      {
        var k := 4 * i;
        if be[k] || be[k + 1] || be[k + 2] || be[k + 3] {
          var _ := Write(base + k, data[k..k + 4], be[k..k + 4]);
        }
      }
    }

    /** The unaligned start of a block write. The mask is shifted right by what the block falls
        short of the word boundary, and then left by the offset. */
    method WriteFirst(addr: nat, size: nat, buf: int -> Byte) returns (done: nat)
      requires addr < SPACE && size < SPACE && addr % 4 != 0
      modifies this
      ensures done == if 4 - addr % 4 > size then size else 4 - addr % 4
      ensures forall a: nat :: a < SPACE ==>
        At(a) == Blitted(old(At(a)), limit, addr, if done == size then Reach(addr, size) else done, buf, a)
    {
      ghost var m := mem;
      var offset := addr % 4;
      var room := 4 - offset;
      var excess := if room > size then room - size else 0;
      var mask := Lanes4(offset, offset + 4 - excess);
      done := if room > size then size else room;
      ghost var n := if done == size then Reach(addr, size) else done;
      assert mask == Lanes4(offset, offset + n);
      var _ := Write(addr - offset, Fetch(buf, -offset), mask);
      forall a: nat | a < SPACE
        ensures At(a) == Blitted(ByteOf(m, limit, a), limit, addr, n, buf, a)
      {
        BlitFirst(m, limit, addr, n, buf, a);
      }
    }

    /** Block write of `size` bytes from `buf`, whose surroundings may be read but not stored. */
    method WriteBlock(addr: nat, size: nat, buf: int -> Byte)
      requires addr < SPACE && size < SPACE
      modifies this
      ensures forall a: nat :: a < SPACE ==>
        At(a) == Blitted(old(At(a)), limit, addr, Reach(addr, size), buf, a)
    {
      var done := 0;
      if addr % 4 != 0 {
        done := WriteFirst(addr, size, buf);
        if done == size {
          return;
        }
      }
      WriteRest(addr, size, done, buf, old(mem));
    }

    /** The aligned part of a block write; `m` is the memory before the block. */
    method WriteRest(addr: nat, size: nat, start: nat, buf: int -> Byte, ghost m: Contents)
      requires addr < SPACE && start <= size < SPACE && Wrap(addr + start) % 4 == 0
      requires forall a: nat :: a < SPACE ==>
        At(a) == Blitted(ByteOf(m, limit, a), limit, addr, start, buf, a)
      modifies this
      ensures forall a: nat :: a < SPACE ==>
        At(a) == Blitted(ByteOf(m, limit, a), limit, addr, size, buf, a)
    {
      var done := start;
      while size - done >= 4
        invariant done <= size && Wrap(addr + done) % 4 == 0
        invariant forall a: nat :: a < SPACE ==>
          At(a) == Blitted(ByteOf(m, limit, a), limit, addr, done, buf, a)
      {
        WriteAligned(addr, done, 4, buf, m);
        done := done + 4;
      }
      if done < size {
        WriteAligned(addr, done, size - done, buf, m);
      }
    }

    /** One aligned word of a block write; `m` is the memory before the block. */
    method WriteAligned(addr: nat, done: nat, n: nat, buf: int -> Byte, ghost m: Contents)
      requires addr < SPACE && done < SPACE && done + n <= SPACE && n <= 4 && Wrap(addr + done) % 4 == 0
      requires forall a: nat :: a < SPACE ==>
        At(a) == Blitted(ByteOf(m, limit, a), limit, addr, done, buf, a)
      modifies this
      ensures forall a: nat :: a < SPACE ==>
        At(a) == Blitted(ByteOf(m, limit, a), limit, addr, done + n, buf, a)
    {
      ghost var before := mem;
      var _ := Write(Wrap(addr + done), Fetch(buf, done), Lanes4(0, n));
      forall a: nat | a < SPACE
        ensures At(a) == Blitted(ByteOf(m, limit, a), limit, addr, done + n, buf, a)
      {
        BlitWord(before, limit, addr, done, n, buf, ByteOf(m, limit, a), a);
      }
    }

    /** Reads, updates and writes four or eight bytes. */
    method Update(addr: nat, double: bool, rule: Rule)
      requires addr < SPACE && addr % 4 == 0
      modifies this
      ensures mem == Updated(old(mem), limit, addr, double, rule)
    {
      var next := Wrap(addr + 4);
      var _, low := Read(addr);
      var _, high := Read(next);
      var result := rule(low, high);
      var _ := Write(addr, Low(result), ALL);
      if double {
        var _ := Write(next, High(result), ALL);
      }
    }

    /** Atomic operation on four or eight bytes at a word boundary; `data` is the bus line of the
        operand, with whatever follows it. It answers with the bus line as it was, and aborts on a
        reserved code. */
    method MemoryAmo(addr: nat, double: bool, code: Code, data: nat -> Byte) returns (ok: bool, line: seq<Byte>)
      requires addr < SPACE && addr % 4 == 0
      modifies this
      ensures |line| == 64 && forall j :: 0 <= j < 64 ==> line[j] == old(At(addr - addr % 64 + j))
      ensures ok <==> code.Defined?
      ensures !ok ==> mem == old(mem)
      ensures ok ==> forall a: nat :: a < SPACE ==>
        At(a) == UpdatedByte(old(Flat(mem, limit)), limit, addr, double,
                             AmoRule(double, code.op, OperandAt(data, addr % 64)), a)
    {
      line := BusRead(addr);
      ok := code.Defined?;
      if ok {
        var rule := AmoRule(double, code.op, OperandAt(data, addr % 64));
        UpdateBytes(mem, limit, addr, double, rule);
        Update(addr, double, rule);
      }
    }
  }
}
