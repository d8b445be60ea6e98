/**
 What atomic memory operations compute, on the numbers that the accessed bytes stand for: sums modulo
 the access width, single bits, and unsigned and two's complement order. The scoreboard, the memory
 response model and the simulator are proved to compute just that.
 */
module AmoMeaning {
  import opened Bits
  import opened Words
  import opened Amo

  ghost predicate Bitwise(g: (bool, bool) -> bool, n: nat, m: nat, r: nat, width: nat) {
    forall j: nat :: j < width ==> (Bit(r, j) <==> g(Bit(n, j), Bit(m, j)))
  }

  predicate IsSum(n: nat, m: nat, r: nat, width: nat) {
    r == (n + m) % Pow2(width)
  }

  ghost predicate Larger(n: nat, m: nat, r: nat, f: nat -> int) {
    (r == n || r == m) && f(n) <= f(r) && f(m) <= f(r)
  }

  ghost predicate Smaller(n: nat, m: nat, r: nat, f: nat -> int) {
    (r == n || r == m) && f(r) <= f(n) && f(r) <= f(m)
  }

  /** `r` is the result of a core operation on memory value `n` and operand `m`, of `width` bits. */
  ghost predicate CoreMeans(op: AmoOp, n: nat, m: nat, r: nat, width: nat)
    requires width > 0
  {
    match op
    case Swap => r == m
    case Add => IsSum(n, m, r, width)
    case And => Bitwise((a, b) => a && b, n, m, r, width)
    case Or => Bitwise((a, b) => a || b, n, m, r, width)
    case Xor => Bitwise((a, b) => a != b, n, m, r, width)
    case Max => Larger(n, m, r, (v: nat) => Twos(v, width))
    case MaxU => Larger(n, m, r, (v: nat) => v)
    case Min => Smaller(n, m, r, (v: nat) => Twos(v, width))
    case MinU => Smaller(n, m, r, (v: nat) => v)
  }

  /** The same for the operations of the memory interface. */
  ghost predicate MemMeans(op: MemOp, n: nat, m: nat, r: nat, width: nat)
    requires width > 0
  {
    match op
    case ADD => IsSum(n, m, r, width)
    case CLR => Bitwise((a, b) => a && !b, n, m, r, width)
    case SET => Bitwise((a, b) => a || b, n, m, r, width)
    case EOR => Bitwise((a, b) => a != b, n, m, r, width)
    case SMAX => Larger(n, m, r, (v: nat) => Twos(v, width))
    case SMIN => Smaller(n, m, r, (v: nat) => Twos(v, width))
    case UMAX => Larger(n, m, r, (v: nat) => v)
    case UMIN => Smaller(n, m, r, (v: nat) => v)
    case SWAP => r == m
  }

  // ---------------------------------------------------------------------------------------------
  // Bitwise operations
  // ---------------------------------------------------------------------------------------------

  ghost predicate OnBits(f: (Byte, Byte) -> Byte, g: (bool, bool) -> bool, x: Byte, y: Byte, k: nat) {
    Bit(f(x, y), k) <==> g(Bit(x, k), Bit(y, k))
  }

  lemma MapBits(f: (Byte, Byte) -> Byte, g: (bool, bool) -> bool, a: Word, b: Word, n: nat)
    requires n <= 8 && forall x: Byte, y: Byte, k: nat :: k < 8 ==> OnBits(f, g, x, y, k)
    ensures Bitwise(g, Number(a[..n]), Number(b[..n]), Number(Map2(f, a, b)[..n]), 8 * n)
  {
    forall j: nat | j < 8 * n
      ensures Bit(Number(Map2(f, a, b)[..n]), j) <==> g(Bit(Number(a[..n]), j), Bit(Number(b[..n]), j))
    {
      var i, k := j / 8, j % 8;
      NumberBits(a[..n], i, k);
      NumberBits(b[..n], i, k);
      NumberBits(Map2(f, a, b)[..n], i, k);
      assert OnBits(f, g, a[i], b[i], k);
    }
  }

  lemma NotBitsOf(w: Word, n: nat, j: nat)
    requires n <= 8 && j < 8 * n
    ensures Bit(Number(Not(w)[..n]), j) <==> !Bit(Number(w[..n]), j)
  {
    NumberBits(w[..n], j / 8, j % 8);
    NumberBits(Not(w)[..n], j / 8, j % 8);
    ByteBits(w[j / 8], 0, j % 8);
  }

  lemma AndMeaning(a: Word, b: Word, n: nat)
    requires n <= 8
    ensures Bitwise((x, y) => x && y, Number(a[..n]), Number(b[..n]), Number(Map2(AndB, a, b)[..n]), 8 * n)
  {
    var g := (x: bool, y: bool) => x && y;
    forall x: Byte, y: Byte, k: nat | k < 8
      ensures OnBits(AndB, g, x, y, k)
    {
      ByteBits(x, y, k);
    }
    MapBits(AndB, g, a, b, n);
  }

  lemma OrMeaning(a: Word, b: Word, n: nat)
    requires n <= 8
    ensures Bitwise((x, y) => x || y, Number(a[..n]), Number(b[..n]), Number(Map2(OrB, a, b)[..n]), 8 * n)
  {
    var g := (x: bool, y: bool) => x || y;
    forall x: Byte, y: Byte, k: nat | k < 8
      ensures OnBits(OrB, g, x, y, k)
    {
      ByteBits(x, y, k);
    }
    MapBits(OrB, g, a, b, n);
  }

  lemma XorMeaning(a: Word, b: Word, n: nat)
    requires n <= 8
    ensures Bitwise((x, y) => x != y, Number(a[..n]), Number(b[..n]), Number(Map2(XorB, a, b)[..n]), 8 * n)
  {
    var g := (x: bool, y: bool) => x != y;
    forall x: Byte, y: Byte, k: nat | k < 8
      ensures OnBits(XorB, g, x, y, k)
    {
      ByteBits(x, y, k);
    }
    MapBits(XorB, g, a, b, n);
  }

  lemma ClearMeaning(a: Word, b: Word, n: nat)
    requires n <= 8
    ensures Bitwise((x, y) => x && !y, Number(a[..n]), Number(b[..n]), Number(Map2(AndB, a, Not(b))[..n]), 8 * n)
  {
    AndMeaning(a, Not(b), n);
    forall j: nat | j < 8 * n
      ensures Bit(Number(Map2(AndB, a, Not(b))[..n]), j) <==> Bit(Number(a[..n]), j) && !Bit(Number(b[..n]), j)
    {
      NotBitsOf(b, n, j);
    }
  }

  // ---------------------------------------------------------------------------------------------
  // Sums and orders
  // ---------------------------------------------------------------------------------------------

  /** Bytes of an access. */
  function Size(word: bool): nat {
    if word then 4 else 8
  }

  lemma DoubleSum(a: Word, b: Word)
    ensures IsSum(Number(a), Number(b), Number(Plus(a, b)), 64)
  {
    WordPowers();
    WordNumber(a);
    WordNumber(b);
    WordNumber(Plus(a, b));
    Bytes8Value((Value(a) + Value(b)) % TWO64);
  }

  lemma SingleSum(a: Word, b: Word)
    ensures IsSum(Number(a[..4]), Number(b[..4]), Number(Plus(a, b)[..4]), 32)
  {
    WordPowers();
    WordNumber(a);
    WordNumber(b);
    WordNumber(Plus(a, b));
    var n := Value4(Low(a)) + Value4(Low(b));
    LowOfSum(a, b, n, Value4(High(a)) + Value4(High(b)));
    Bytes4Value(n % TWO32);
  }

  /** A statement about both widths, from one about each. */
  lemma BothWidths(p: (nat, nat, nat, nat) -> bool, a: Word, b: Word, sum: Word, word: bool)
    requires if word then p(Number(a[..4]), Number(b[..4]), Number(sum[..4]), 32)
             else p(Number(a), Number(b), Number(sum), 64)
    ensures var n := Size(word); p(Number(a[..n]), Number(b[..n]), Number(sum[..n]), 8 * n)
  {
    assert a[..8] == a && b[..8] == b && sum[..8] == sum;
  }

  lemma SumMeaning(a: Word, b: Word, word: bool)
    ensures var n := Size(word); IsSum(Number(a[..n]), Number(b[..n]), Number(Plus(a, b)[..n]), 8 * n)
  {
    if word {
      SingleSum(a, b);
    } else {
      DoubleSum(a, b);
    }
    BothWidths(IsSum, a, b, Plus(a, b), word);
  }

  /** Operands of four bytes are zero-extended. */
  predicate Extended(w: Word, word: bool) {
    word ==> High(w) == ZERO4
  }

  lemma UnsignedMeaning(w: Word, word: bool)
    requires Extended(w, word)
    ensures Value(w) == Number(w[..Size(word)])
  {
    WordNumber(w);
    assert w[..8] == w;
  }

  lemma SignedMeaning(w: Word, word: bool)
    ensures (if word then Signed4(Low(w)) else Signed(w)) == Twos(Number(w[..Size(word)]), 8 * Size(word))
  {
    SignedTwos(w);
    assert w[..8] == w;
  }

  // ---------------------------------------------------------------------------------------------
  // The operations
  // ---------------------------------------------------------------------------------------------

  lemma MemMeaning(op: MemOp, ld: Word, st: Word, word: bool)
    requires Extended(ld, word) && Extended(st, word)
    ensures var n := Size(word);
      MemMeans(op, Number(ld[..n]), Number(st[..n]), Number(MemCompute(op, ld, st, word)[..n]), 8 * n)
  {
    match op
    case ADD => SumMeaning(ld, st, word);
    case CLR => ClearMeaning(ld, st, Size(word));
    case SET => OrMeaning(ld, st, Size(word));
    case EOR => XorMeaning(ld, st, Size(word));
    case SMAX => SignedMeaning(ld, word); SignedMeaning(st, word);
    case SMIN => SignedMeaning(ld, word); SignedMeaning(st, word);
    case UMAX => UnsignedMeaning(ld, word); UnsignedMeaning(st, word);
    case UMIN => UnsignedMeaning(ld, word); UnsignedMeaning(st, word);
    case SWAP =>
  }

  lemma CoreMeaning(op: AmoOp, ld: Word, st: Word, word: bool)
    requires Extended(ld, word) && Extended(st, word)
    ensures var n := Size(word);
      CoreMeans(op, Number(ld[..n]), Number(st[..n]), Number(CoreCompute(op, ld, st, word)[..n]), 8 * n)
  {
    match op
    case Swap =>
    case Add => SumMeaning(ld, st, word);
    case And => AndMeaning(ld, st, Size(word));
    case Or => OrMeaning(ld, st, Size(word));
    case Xor => XorMeaning(ld, st, Size(word));
    case Max => SignedMeaning(ld, word); SignedMeaning(st, word);
    case MaxU => UnsignedMeaning(ld, word); UnsignedMeaning(st, word);
    case Min => SignedMeaning(ld, word); SignedMeaning(st, word);
    case MinU => UnsignedMeaning(ld, word); UnsignedMeaning(st, word);
  }

  /** The simulator's arithmetic on a double word. */
  lemma SimMeaning(op: MemOp, mem: Word, core: Word)
    ensures MemMeans(op, Number(mem), Number(core), Number(SimCompute(op, mem, core)), 64)
  {
    SimMatchesMemDouble(op, mem, core);
    MemMeaning(op, mem, core, false);
    assert mem[..8] == mem && core[..8] == core && SimCompute(op, mem, core)[..8] == SimCompute(op, mem, core);
  }

  /** The simulator's arithmetic on a single word, which it sign-extends. */
  lemma SimHalfMeaning(op: MemOp, a: Half, b: Half)
    ensures MemMeans(op, Number(a), Number(b), Number(SimHalf(op, a, b)), 32)
  {
    SimMatchesMemWord(op, a, b);
    HalvesOf(a, ZERO4);
    HalvesOf(b, ZERO4);
    MemMeaning(op, a + ZERO4, b + ZERO4, true);
    assert (a + ZERO4)[..4] == a && (b + ZERO4)[..4] == b;
  }

  // ---------------------------------------------------------------------------------------------
  // What is left in memory
  // ---------------------------------------------------------------------------------------------

  /** The number in the accessed bytes of a word. */
  function Field(w: Word, off: nat, word: bool): nat
    requires off == 0 || (off == 4 && word)
  {
    Number(w[off..off + Size(word)])
  }

  /** No byte outside the access changes. */
  ghost predicate OthersKept(old': Word, r: Word, off: nat, word: bool) {
    forall i :: 0 <= i < 8 && !(off <= i < off + Size(word)) ==> r[i] == old'[i]
  }

  lemma ExtractField(w: Word, off: nat, word: bool)
    requires off == 0 || (off == 4 && word)
    ensures Extended(Extract(w, off, word), word)
    ensures Number(Extract(w, off, word)[..Size(word)]) == Field(w, off, word)
  {
    if word {
      AlignedHalf(w, off);
      assert (w[off..off + 4] + ZERO4)[..4] == w[off..off + 4];
    } else {
      assert w[0..8] == w[..8];
    }
  }

  lemma ShiftedField(r: Word, off: nat, word: bool)
    requires off == 0 || (off == 4 && word)
    ensures Field(ShiftUp(r, off), off, word) == Number(r[..Size(word)])
  {
    AlignedHalf(r, off);
    assert ShiftUp(r, off)[off..off + Size(word)] == r[..Size(word)];
  }

  /** The scoreboard's result, in its place. */
  lemma CoreFieldMeaning(op: AmoOp, old': Word, x: Word, off: nat, word: bool)
    requires off == 0 || (off == 4 && word)
    ensures var r := ShiftUp(CoreCompute(op, Extract(old', off, word), Extract(x, off, word), word), off);
      CoreMeans(op, Field(old', off, word), Field(x, off, word), Field(r, off, word), 8 * Size(word))
  {
    ExtractField(old', off, word);
    ExtractField(x, off, word);
    CoreMeaning(op, Extract(old', off, word), Extract(x, off, word), word);
    ShiftedField(CoreCompute(op, Extract(old', off, word), Extract(x, off, word), word), off, word);
  }

  /** The result of the memory response model, in its place. */
  lemma MemFieldMeaning(op: MemOp, old': Word, y: Word, off: nat, word: bool)
    requires off == 0 || (off == 4 && word)
    ensures var r := ShiftUp(MemCompute(op, Extract(old', off, word), Extract(y, off, word), word), off);
      MemMeans(op, Field(old', off, word), Field(y, off, word), Field(r, off, word), 8 * Size(word))
  {
    ExtractField(old', off, word);
    ExtractField(y, off, word);
    MemMeaning(op, Extract(old', off, word), Extract(y, off, word), word);
    ShiftedField(MemCompute(op, Extract(old', off, word), Extract(y, off, word), word), off, word);
  }

  /** Scoreboard, memory response model and simulator all leave the result of the operation in the
      accessed bytes, and no other byte changes. */
  lemma AmosMean(op: AmoOp, old': Word, x: Word, off: nat, word: bool, r: Word)
    requires off == 0 || (off == 4 && word)
    requires r == ScoreboardAmo(op, old', x, off, word)
          || r == MemoryAmo(op, old', x, off, word)
          || r == SimulatorAmo(op, old', x, off, word)
    ensures CoreMeans(op, Field(old', off, word), Field(x, off, word), Field(r, off, word), 8 * Size(word))
    ensures OthersKept(old', r, off, word)
  {
    AmosAgree(op, old', x, off, word);
    CoreFieldMeaning(op, old', x, off, word);
    var s := ShiftUp(CoreCompute(op, Extract(old', off, word), Extract(x, off, word), word), off);
    SelectField(old', s, off, word);
  }

  lemma SelectField(old': Word, s: Word, off: nat, word: bool)
    requires off == 0 || (off == 4 && word)
    ensures var r := Select(old', s, Enables(off, word));
      Field(r, off, word) == Field(s, off, word) && OthersKept(old', r, off, word)
  {
    var r := Select(old', s, Enables(off, word));
    assert r[off..off + Size(word)] == s[off..off + Size(word)];
  }
}
