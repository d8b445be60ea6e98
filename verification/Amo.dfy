/**
 Atomic memory operations: the scoreboard's, the memory response model's and the simulator's
 implementations, and their agreement on the bytes left in memory.
 */
module Amo {
  import opened Words

  /** Operations of the core interface. */
  datatype AmoOp = Swap | Add | And | Or | Xor | Max | MaxU | Min | MinU

  /** Operations of the memory interface. */
  datatype MemOp = ADD | CLR | SET | EOR | SMAX | SMIN | UMAX | UMIN | SWAP

  /** How the cache forwards an operation: AND becomes CLR of the complement. */
  function ToMem(op: AmoOp): MemOp {
    match op
    case Swap => SWAP
    case Add => ADD
    case And => CLR
    case Or => SET
    case Xor => EOR
    case Max => SMAX
    case MaxU => UMAX
    case Min => SMIN
    case MinU => UMIN
  }

  function MemOperand(op: AmoOp, x: Word): Word {
    if op.And? then Not(x) else x
  }

  /** Addition modulo 2^64. */
  function Plus(a: Word, b: Word): Word {
    Bytes8((Value(a) + Value(b)) % TWO64)
  }

  /** Signed comparison of the low 32 bits or of all 64. */
  predicate SignedGreater(a: Word, b: Word, word: bool) {
    if word then Signed4(Low(a)) > Signed4(Low(b)) else Signed(a) > Signed(b)
  }

  /** `hpdcache_test_amo::compute_amo`; `word`: the access has four bytes. */
  function CoreCompute(op: AmoOp, ld: Word, st: Word, word: bool): Word {
    match op
    case Swap => st
    case Add => Plus(ld, st)
    case And => Map2(AndB, ld, st)
    case Or => Map2(OrB, ld, st)
    case Xor => Map2(XorB, ld, st)
    case Max => if SignedGreater(ld, st, word) then ld else st
    case MaxU => if Value(ld) > Value(st) then ld else st
    case Min => if SignedGreater(ld, st, word) then st else ld
    case MinU => if Value(ld) > Value(st) then st else ld
  }

  /** `hpdcache_test_mem_resp_model_base::compute_amo`. */
  function MemCompute(op: MemOp, ld: Word, st: Word, word: bool): Word {
    match op
    case ADD => Plus(ld, st)
    case CLR => Map2(AndB, ld, Not(st))
    case SET => Map2(OrB, ld, st)
    case EOR => Map2(XorB, ld, st)
    case SMAX => if SignedGreater(ld, st, word) then ld else st
    case UMAX => if Value(ld) > Value(st) then ld else st
    case SMIN => if SignedGreater(ld, st, word) then st else ld
    case UMIN => if Value(ld) > Value(st) then st else ld
    case SWAP => st
  }

  /** The arithmetic of `memory_amo`, on operands extended to 64 bits. */
  function SimCompute(op: MemOp, mem: Word, core: Word): Word {
    match op
    case ADD => Plus(mem, core)
    case CLR => Map2(AndB, mem, Not(core))
    case SET => Map2(OrB, mem, core)
    case EOR => Map2(XorB, mem, core)
    case SMAX => if Signed(mem) > Signed(core) then mem else core
    case SMIN => if Signed(mem) < Signed(core) then mem else core
    case UMAX => if Value(mem) > Value(core) then mem else core
    case UMIN => if Value(mem) < Value(core) then mem else core
    case SWAP => core
  }

  // ---------------------------------------------------------------------------------------------
  // Operand extraction
  // ---------------------------------------------------------------------------------------------

  /** Byte offset in a word. */
  type Offset = o: nat | o < 8

  /** A word shifted down to byte offset zero. */
  function ShiftDown(w: Word, off: Offset): Word {
    w[off..] + ZERO[..off]
  }

  /** The operand of an access at byte offset `off` of a word: zero-extended when it has four
      bytes, the whole word, in its place, when it has not. */
  function Extract(w: Word, off: Offset, word: bool): Word {
    if word then ShiftDown(w, off)[..4] + ZERO4 else w
  }

  /** A result shifted up to byte offset `off`. */
  function ShiftUp(w: Word, off: Offset): Word {
    ZERO[..off] + w[..8 - off]
  }

  lemma AlignedHalf(w: Word, off: Offset)
    requires off == 0 || off == 4
    ensures Extract(w, off, true) == w[off..off + 4] + ZERO4
    ensures ShiftUp(w, off) == if off == 0 then w else ZERO4 + w[..4]
  {
  }

  function SignExtend(h: Half): Word {
    h + if Value4(h) < 0x8000_0000 then ZERO4 else [255, 255, 255, 255]
  }

  /** Enables of the bytes of an aligned access. */
  function Enables(off: nat, word: bool): ByteEnable {
    seq(8, i => !word || off <= i < off + 4)
  }

  /** The memory word after the scoreboard's update of its shadow RAM. */
  function ScoreboardAmo(op: AmoOp, old': Word, x: Word, off: nat, word: bool): Word
    requires off == 0 || off == 4
  {
    var r := CoreCompute(op, Extract(old', off, word), Extract(x, off, word), word);
    Select(old', ShiftUp(r, off), Enables(off, word))
  }

  /** The memory word after the memory response model's masked write. */
  function MemoryAmo(op: AmoOp, old': Word, x: Word, off: nat, word: bool): Word
    requires off == 0 || off == 4
  {
    var r := MemCompute(ToMem(op), Extract(old', off, word), Extract(MemOperand(op, x), off, word), word);
    Merge(old', ShiftUp(r, off), MaskOf(Enables(off, word)))
  }

  /** A four-byte operation of the simulator, on sign-extended operands. */
  function SimHalf(op: MemOp, a: Half, b: Half): Half {
    Low(SimCompute(op, SignExtend(a), SignExtend(b)))
  }

  /** Applies `f` to the half of a word at byte offset `off`. */
  function ApplyHalf(w: Word, off: nat, f: Half -> Half): Word
    requires off == 0 || off == 4
  {
    if off == 0 then f(w[..4]) + w[4..] else w[..4] + f(w[4..])
  }

  lemma HalfReplaced(before: Word, after: Word, off: nat, f: Half -> Half)
    requires off == 0 || off == 4
    requires after[off..off + 4] == f(before[off..off + 4])
    requires forall i :: 0 <= i < 8 && !(off <= i < off + 4) ==> after[i] == before[i]
    ensures after == ApplyHalf(before, off, f)
  {
    assert before[0..4] == before[..4] && before[4..8] == before[4..];
    assert after == after[..off] + after[off..off + 4] + after[off + 4..];
  }

  /** The two 32-bit words left by the simulator, which writes one or both of them. */
  function SimulatorWord(op: MemOp, old': Word, y: Word, off: nat, word: bool): Word
    requires off == 0 || off == 4
  {
    if !word then SimCompute(op, old', y)
    else ApplyHalf(old', off, (h: Half) => SimHalf(op, h, y[off..off + 4]))
  }

  function SimulatorAmo(op: AmoOp, old': Word, x: Word, off: nat, word: bool): Word
    requires off == 0 || off == 4
  {
    SimulatorWord(ToMem(op), old', MemOperand(op, x), off, word)
  }

  // ---------------------------------------------------------------------------------------------
  // Agreement
  // ---------------------------------------------------------------------------------------------

  lemma NotInvolutive(x: Word)
    ensures Not(Not(x)) == x
  {
  }

  /** AND with an operand is CLR with its complement, also on zero-extended words. */
  lemma AndIsClr(ld: Word, x: Word, off: Offset, word: bool)
    requires word ==> High(ld) == ZERO4 && forall i :: 8 - off <= i < 8 ==> ld[i] == 0
    ensures Map2(AndB, ld, Extract(x, off, word)) == Map2(AndB, ld, Not(Extract(Not(x), off, word)))
  {
    if word {
      forall i | 0 <= i < 8
        ensures AndB(ld[i], Extract(x, off, word)[i]) == AndB(ld[i], Not(Extract(Not(x), off, word))[i])
      {
        if i >= 4 {
          assert High(ld)[i - 4] == 0;
        }
      }
    } else {
      NotInvolutive(x);
    }
  }

  lemma ExtractZeros(w: Word, off: Offset)
    ensures var e := Extract(w, off, true);
      High(e) == ZERO4 && forall i :: 8 - off <= i < 8 ==> e[i] == 0
  {
  }

  /** The scoreboard and the memory response model compute the same 64 bits, at any offset. */
  lemma CoreMatchesMem(op: AmoOp, old': Word, x: Word, off: Offset, word: bool)
    ensures CoreCompute(op, Extract(old', off, word), Extract(x, off, word), word)
         == MemCompute(ToMem(op), Extract(old', off, word), Extract(MemOperand(op, x), off, word), word)
  {
    if op.And? {
      if word {
        ExtractZeros(old', off);
      }
      AndIsClr(Extract(old', off, word), x, off, word);
    }
  }

  lemma HalvesOf(a: Half, b: Half)
    ensures Low(a + b) == a && High(a + b) == b
  {
  }

  /** Sign extension keeps both the signed and the unsigned order of words. */
  lemma ExtensionsOrder(a: Half, b: Half)
    ensures Value(a + ZERO4) == Value4(a)
    ensures Signed(SignExtend(a)) == Signed4(a)
    ensures Value(SignExtend(a)) > Value(SignExtend(b)) <==> Value4(a) > Value4(b)
  {
    HalvesOf(a, ZERO4);
    HalvesOf(a, [255, 255, 255, 255]);
    HalvesOf(b, ZERO4);
    HalvesOf(b, [255, 255, 255, 255]);
  }

  lemma ModMod(n: nat, k: nat)
    ensures (n + k * TWO32) % TWO64 % TWO32 == n % TWO32
  {
    var m := n + k * TWO32;
    var q, r := m / TWO64, m % TWO64;
    assert n == (q * TWO32 + r / TWO32 - k) * TWO32 + r % TWO32;
  }

  lemma LowOfSum(a: Word, b: Word, n: nat, k: nat)
    requires Value(a) + Value(b) == n + k * TWO32
    ensures Low(Plus(a, b)) == Bytes4(n % TWO32)
  {
    ModMod(n, k);
    Bytes8Value((n + k * TWO32) % TWO64);
  }

  lemma ExtendedValue(a: Half) returns (k: nat)
    ensures Value(SignExtend(a)) == Value4(a) + k * TWO32
  {
    HalvesOf(a, ZERO4);
    HalvesOf(a, [255, 255, 255, 255]);
    k := if Value4(a) < 0x8000_0000 then 0 else TWO32 - 1;
  }

  /** The low word of a sum does not depend on how the operands were extended. */
  lemma LowSum(a: Half, b: Half)
    ensures Low(Plus(a + ZERO4, b + ZERO4)) == Low(Plus(SignExtend(a), SignExtend(b)))
  {
    ExtensionsOrder(a, b);
    ExtensionsOrder(b, a);
    var n := Value4(a) + Value4(b);
    var k := ExtendedValue(a);
    var l := ExtendedValue(b);
    LowOfSum(a + ZERO4, b + ZERO4, n, 0);
    LowOfSum(SignExtend(a), SignExtend(b), n, k + l);
  }

  lemma SimMatchesMemWord(op: MemOp, a: Half, b: Half)
    ensures Low(MemCompute(op, a + ZERO4, b + ZERO4, true)) == SimHalf(op, a, b)
  {
    LowSum(a, b);
    ExtensionsOrder(a, b);
    ExtensionsOrder(b, a);
    HalvesOf(a, ZERO4);
    HalvesOf(b, ZERO4);
    HalvesOf(a, SignExtend(a)[4..]);
    HalvesOf(b, SignExtend(b)[4..]);
    if Value4(a) == Value4(b) {
      Value4Injective(a, b);
    }
  }

  lemma SimMatchesMemDouble(op: MemOp, a: Word, b: Word)
    ensures MemCompute(op, a, b, false) == SimCompute(op, a, b)
  {
    if Value(a) == Value(b) {
      ValueInjective(a, b);
    }
  }

  /** Writing the low half of a result at a byte offset. */
  lemma SelectWord(old': Word, r: Word, off: nat)
    requires off == 0 || off == 4
    ensures Select(old', ShiftUp(r, off), Enables(off, true))
         == if off == 0 then r[..4] + old'[4..] else old'[..4] + r[..4]
  {
    AlignedHalf(r, off);
  }

  lemma MemorySideWord(op: MemOp, old': Word, y: Word, off: Offset)
    requires off == 0 || off == 4
    ensures Select(old', ShiftUp(MemCompute(op, Extract(old', off, true), Extract(y, off, true), true), off),
                   Enables(off, true))
         == SimulatorWord(op, old', y, off, true)
  {
    var a, b: Half := old'[off..off + 4], y[off..off + 4];
    AlignedHalf(old', off);
    AlignedHalf(y, off);
    SimMatchesMemWord(op, a, b);
    SelectWord(old', MemCompute(op, a + ZERO4, b + ZERO4, true), off);
    assert a == if off == 0 then old'[..4] else old'[4..];
  }

  lemma MemorySideDouble(op: MemOp, old': Word, y: Word)
    ensures Select(old', ShiftUp(MemCompute(op, Extract(old', 0, false), Extract(y, 0, false), false), 0),
                   Enables(0, false))
         == SimulatorWord(op, old', y, 0, false)
  {
    SimMatchesMemDouble(op, old', y);
    AlignedHalf(MemCompute(op, old', y, false), 0);
    SelectAll(old', MemCompute(op, old', y, false));
  }

  lemma SelectAll(old': Word, r: Word)
    ensures Select(old', r, Enables(0, false)) == r
  {
  }

  lemma MemorySide(op: MemOp, old': Word, y: Word, off: nat, word: bool)
    requires off == 0 || (off == 4 && word)
    ensures Select(old', ShiftUp(MemCompute(op, Extract(old', off, word), Extract(y, off, word), word), off),
                   Enables(off, word))
         == SimulatorWord(op, old', y, off, word)
  {
    if word {
      MemorySideWord(op, old', y, off);
    } else {
      MemorySideDouble(op, old', y);
    }
  }

  /** All three implementations leave the same bytes in memory, for every operation, size and
      aligned offset, although they extend words differently and AND is forwarded as CLR. */
  lemma AmosAgree(op: AmoOp, old': Word, x: Word, off: nat, word: bool)
    requires off == 0 || (off == 4 && word)
    ensures ScoreboardAmo(op, old', x, off, word) == MemoryAmo(op, old', x, off, word)
    ensures MemoryAmo(op, old', x, off, word) == SimulatorAmo(op, old', x, off, word)
  {
    CoreMatchesMem(op, old', x, off, word);
    var r := MemCompute(ToMem(op), Extract(old', off, word), Extract(MemOperand(op, x), off, word), word);
    MergeIsSelect(old', ShiftUp(r, off), Enables(off, word));
    MemorySide(ToMem(op), old', MemOperand(op, x), off, word);
  }
}
