/**
 The scoreboard against the memory response model: requests are served one after the other, each
 passed straight to memory. Over every such run the shadow RAM agrees with memory and the
 scoreboard reports no error.
 */
module Testbench {
  import opened Arith
  import opened Words
  import opened Amo
  import opened Requests
  import opened Ram
  import opened MemModel
  import opened MemResponse
  import opened Scoreboard
  import opened Uncached
  import opened AmoMeaning

  // ---------------------------------------------------------------------------------------------
  // Agreement of the shadow cells with memory
  // ---------------------------------------------------------------------------------------------

  /** Every known cell holds the byte of word `w`. */
  ghost predicate SlotAgrees(c: Cells8, m: Store, w: nat) {
    forall i :: 0 <= i < 8 && c[i].Known? ==> w in m && m[w][i] == c[i].value
  }

  ghost predicate Sized(cells: seq<Cell>) {
    |cells| > 0 && |cells| % 8 == 0
  }

  /** No other word of `used` falls on the slot of `w`. */
  ghost predicate Unaliased(used: set<nat>, w: nat, size: nat)
    requires size > 0 && size % 8 == 0
  {
    forall v :: v in used && Slot(8 * v, size) == Slot(8 * w, size) ==> v == w
  }

  /** `used`: the words accessed so far. Each has its own slot, whose known cells are its bytes, and
      nothing is known outside these slots. */
  ghost predicate Agrees(cells: seq<Cell>, m: Store, used: set<nat>)
    requires Sized(cells)
  {
    && (forall w :: w in used ==> SlotAgrees(SlotCells(cells, 8 * w), m, w))
    && (forall w :: w in used ==> Unaliased(used, w, |cells|))
    && (forall k :: 0 <= k < |cells| && cells[k].Known? ==> Accounted(used, k, |cells|))
  }

  ghost predicate Accounted(used: set<nat>, k: nat, size: nat)
    requires size > 0 && size % 8 == 0
  {
    exists w :: w in used && Slot(8 * w, size) == k - k % 8
  }

  lemma SlotOfWord(addr: nat, size: nat)
    requires size > 0 && size % 8 == 0
    ensures Slot(addr, size) == Slot(8 * (addr / 8), size)
  {
  }

  lemma SlotStart(k: nat, j: nat)
    requires k % 8 == 0
    ensures k <= j < k + 8 <==> j - j % 8 == k
  {
  }

  /** A word that aliases no used one starts from an agreeing slot. */
  lemma AgreesHere(cells: seq<Cell>, m: Store, used: set<nat>, w: nat)
    requires Sized(cells) && Agrees(cells, m, used) && Unaliased(used, w, |cells|)
    ensures SlotAgrees(SlotCells(cells, 8 * w), m, w)
  {
    var k := Slot(8 * w, |cells|);
    if w !in used {
      forall i | 0 <= i < 8
        ensures SlotCells(cells, 8 * w)[i].Unknown?
      {
        var j := k + i;
        SlotStart(k, j);
        assert SlotCells(cells, 8 * w)[i] == cells[j];
        assert !Accounted(used, j, |cells|);
      }
    }
  }

  lemma OtherSlot(cells: seq<Cell>, cells': seq<Cell>, w: nat, v: nat)
    requires Sized(cells) && |cells'| == |cells|
    requires OutsideSame(cells, cells', Slot(8 * w, |cells|))
    requires Slot(8 * v, |cells|) != Slot(8 * w, |cells|)
    ensures SlotCells(cells', 8 * v) == SlotCells(cells, 8 * v)
  {
    var k, l := Slot(8 * w, |cells|), Slot(8 * v, |cells|);
    forall j | l <= j < l + 8
      ensures cells'[j] == cells[j]
    {
      SlotStart(k, j);
      SlotStart(l, j);
    }
    assert cells'[l..l + 8] == cells[l..l + 8];
  }

  lemma AccountedStep(cells: seq<Cell>, cells': seq<Cell>, used: set<nat>, w: nat, j: nat)
    requires Sized(cells) && |cells'| == |cells| && j < |cells| && cells'[j].Known?
    requires OutsideSame(cells, cells', Slot(8 * w, |cells|))
    requires cells[j].Known? ==> Accounted(used, j, |cells|)
    ensures Accounted(used + {w}, j, |cells|)
  {
    var n := |cells|;
    SlotStart(Slot(8 * w, n), j);
    if j - j % 8 == Slot(8 * w, n) {
      assert w in used + {w};
    } else {
      var v :| v in used && Slot(8 * v, n) == j - j % 8;
      assert v in used + {w};
    }
  }

  /** Agreement is kept when only the slot and the word accessed change, and agree again. */
  lemma AgreesStep(cells: seq<Cell>, m: Store, used: set<nat>, w: nat, cells': seq<Cell>, m': Store)
    requires Sized(cells) && Agrees(cells, m, used) && Unaliased(used, w, |cells|)
    requires |cells'| == |cells|
    requires OutsideSame(cells, cells', Slot(8 * w, |cells|))
    requires forall v :: v in m && v != w ==> v in m' && m'[v] == m[v]
    requires SlotAgrees(SlotCells(cells', 8 * w), m', w)
    ensures Agrees(cells', m', used + {w})
  {
    forall v | v in used + {w}
      ensures SlotAgrees(SlotCells(cells', 8 * v), m', v)
    {
      if v != w {
        OtherSlot(cells, cells', w, v);
        assert SlotAgrees(SlotCells(cells, 8 * v), m, v);
      }
    }
    forall j | 0 <= j < |cells| && cells'[j].Known?
      ensures Accounted(used + {w}, j, |cells|)
    {
      AccountedStep(cells, cells', used, w, j);
    }
  }

  ghost predicate OutsideSame(cells: seq<Cell>, cells': seq<Cell>, k: nat)
    requires |cells'| == |cells|
  {
    forall j :: 0 <= j < |cells| && !(k <= j < k + 8) ==> cells'[j] == cells[j]
  }

  // ---------------------------------------------------------------------------------------------
  // The effect of each request on one slot and one word
  // ---------------------------------------------------------------------------------------------

  function Blend(c: Cells8, data: Word, be: ByteEnable): Cells8 {
    seq(8, i requires 0 <= i < 8 => if be[i] then Known(data[i]) else c[i])
  }

  lemma PutSlot(cells: seq<Cell>, addr: nat, data: Word, be: ByteEnable)
    requires Sized(cells)
    ensures OutsideSame(cells, Put(cells, addr, data, be), Slot(addr, |cells|))
    ensures SlotCells(Put(cells, addr, data, be), addr) == Blend(SlotCells(cells, addr), data, be)
  {
  }

  /** The same masked write to the shadow and to memory. */
  lemma StoreAgrees(c: Cells8, m: Store, w: nat, data: Word, be: ByteEnable, rnd: Word)
    requires SlotAgrees(c, m, w)
    ensures SlotAgrees(Blend(c, data, be), Stored(m, w, data, be, rnd), w)
  {
  }

  lemma MaterialiseAgrees(c: Cells8, m: Store, w: nat, rnd: Word)
    requires SlotAgrees(c, m, w)
    ensures SlotAgrees(c, Materialise(m, w, rnd), w)
  {
  }

  /** A read that fills the unknown bytes with what memory returned. */
  lemma LoadAgrees(c: Cells8, m: Store, q: Req, rnd: Word)
    requires SlotAgrees(c, m, q.Word())
    ensures var m' := Materialise(m, q.Word(), rnd);
      SlotAgrees(Blend(c, m'[q.Word()], Unset(q, c)), m', q.Word())
  {
  }

  /** Extracting from the response of an atomic operation gives back the operand memory used. */
  lemma ExtractShift(x: Word, off: nat, word: bool)
    requires off == 0 || (off == 4 && word)
    ensures Extract(ShiftUp(Extract(x, off, word), off), off, word) == Extract(x, off, word)
    ensures forall i :: off <= i < off + (if word then 4 else 8) ==>
      ShiftUp(Extract(x, off, word), off)[i] == x[i]
  {
  }

  /** Data read from an agreeing memory pass the scoreboard's comparison. */
  lemma ReportMatches(e: Inflight, c: Cells8, m: Store, rdata: Word)
    requires Reports(e.rdata, e.rv, c) && SlotAgrees(c, m, e.req.Word()) && e.req.Word() in m
    requires forall i :: 0 <= i < 8 && InAccess(e.req, i) ==> rdata[i] == m[e.req.Word()][i]
    ensures DataMatches(e, rdata)
  {
  }

  // ---------------------------------------------------------------------------------------------
  // What it means to serve a request
  // ---------------------------------------------------------------------------------------------

  /** Whether a request takes effect, given the scoreboard's reservation and the one that memory
      holds. */
  predicate Effective(regions: seq<Region>, r: Reservation, held: Exclusive, q: Req) {
    && !Faults(regions, q)
    && (q.kind.StoreConditional? ==>
          Matches(r, q) && Overlaps(q.addr, q.addr + q.bytes, held.base, held.end))
  }

  /** The word that an atomic operation leaves in memory `m`, where its word exists. */
  function AtomicWord(q: Req, was: Word): Word
    requires q.Legal() && q.kind.Atomic?
  {
    AtomicResult(ToMem(q.kind.op), was, MemOperand(q.kind.op, q.wdata), q.addr % 8, q.bytes == 4)
  }

  /** Memory after a request. */
  function MemoryAfter(m: Store, q: Req, effective: bool, rnd: Word): Store
    requires q.Legal()
  {
    var n := Materialise(m, q.Word(), rnd);
    if !effective then m
    else match q.kind
      case Atomic(_) => Stored(n, q.Word(), AtomicWord(q, n[q.Word()]), q.be, rnd)
      case Store => Stored(m, q.Word(), q.wdata, q.be, rnd)
      case StoreConditional => Stored(m, q.Word(), q.wdata, q.be, rnd)
      case _ => n
  }

  /** The shadow cells after a request: the bytes written, or the bytes read that were unknown. */
  function ShadowAfter(cells: seq<Cell>, m: Store, q: Req, effective: bool, rnd: Word): seq<Cell>
    requires Sized(cells) && q.Legal()
  {
    var was := Materialise(m, q.Word(), rnd)[q.Word()];
    if !effective then cells
    else match q.kind
      case Atomic(_) => Put(cells, q.addr, AtomicWord(q, was), q.be)
      case Store => Put(cells, q.addr, q.wdata, q.be)
      case StoreConditional => Put(cells, q.addr, q.wdata, q.be)
      case _ => Put(cells, q.addr, was, Unset(q, SlotCells(cells, q.addr)))
  }

  /** What the core is told: reads and atomic operations get the bytes memory held before, a
      store-conditional its status. */
  predicate Answers(m: Store, q: Req, effective: bool, rnd: Word, data: Word) {
    match q.kind
    case Store => true
    case StoreConditional => data == StatusWord(q.bytes, effective)
    case _ =>
      effective ==> forall i :: 0 <= i < 8 && InAccess(q, i) ==> data[i] == Materialise(m, q.Word(), rnd)[q.Word()][i]
  }

  /** Transaction IDs have no influence on memory and answers. */
  lemma IdIrrelevant(m: Store, q: Req, id: nat, effective: bool, rnd: Word, data: Word)
    requires q.Legal()
    ensures MemoryAfter(m, q.(id := id), effective, rnd) == MemoryAfter(m, q, effective, rnd)
    ensures Answers(m, q.(id := id), effective, rnd, data) <==> Answers(m, q, effective, rnd, data)
  {
  }

  /** The exclusive record that memory holds after a request that leaves a reservation. */
  function HeldAfter(held: Exclusive, q: Req): Exclusive {
    if q.kind.LoadReserved? then Exclusive(true, q.addr, q.addr + q.bytes) else held
  }

  /** Whatever was served, the shadow and memory agree again. */
  lemma ServedAgrees(cells: seq<Cell>, m: Store, used: set<nat>, q: Req, effective: bool, rnd: Word)
    requires Sized(cells) && Agrees(cells, m, used) && Unaliased(used, q.Word(), |cells|) && q.Legal()
    ensures var cells' := ShadowAfter(cells, m, q, effective, rnd);
      |cells'| == |cells| && Agrees(cells', MemoryAfter(m, q, effective, rnd), used + {q.Word()})
  {
    var w := q.Word();
    var c := SlotCells(cells, q.addr);
    var n := Materialise(m, w, rnd);
    AgreesHere(cells, m, used, w);
    SlotOfWord(q.addr, |cells|);
    var cells', m' := ShadowAfter(cells, m, q, effective, rnd), MemoryAfter(m, q, effective, rnd);
    if effective {
      MaterialiseAgrees(c, m, w, rnd);
      match q.kind {
        case Atomic(_) =>
          PutSlot(cells, q.addr, AtomicWord(q, n[w]), q.be);
          StoreAgrees(c, n, w, AtomicWord(q, n[w]), q.be, rnd);
        case Store =>
          PutSlot(cells, q.addr, q.wdata, q.be);
          StoreAgrees(c, m, w, q.wdata, q.be, rnd);
        case StoreConditional =>
          PutSlot(cells, q.addr, q.wdata, q.be);
          StoreAgrees(c, m, w, q.wdata, q.be, rnd);
        case _ =>
          PutSlot(cells, q.addr, n[w], Unset(q, c));
          LoadAgrees(c, m, q, rnd);
      }
    }
    AgreesStep(cells, m, used, w, cells', m');
  }

  /** Agreement means that every known byte of an accessed word is the byte of memory. */
  lemma KnownIsMemory(cells: seq<Cell>, m: Store, used: set<nat>, w: nat, i: nat)
    requires Sized(cells) && Agrees(cells, m, used) && w in used && i < 8
    ensures var c := SlotCells(cells, 8 * w)[i];
      c.Known? ==> w in m && m[w][i] == c.value
  {
    assert SlotAgrees(SlotCells(cells, 8 * w), m, w);
  }

  /** The scoreboard learns: after a read that took effect the accessed bytes are known, after a
      write the enabled ones, each as memory has it. */
  lemma ServedKnows(cells: seq<Cell>, m: Store, q: Req, rnd: Word, i: nat)
    requires Sized(cells) && q.Legal() && i < 8 && SlotAgrees(SlotCells(cells, q.addr), m, q.Word())
    requires if q.kind.Load? || q.kind.LoadReserved?
             then Within(8 * (q.addr / 8) + i, q.addr, q.addr + q.bytes) else q.be[i]
    ensures var cells', m' := ShadowAfter(cells, m, q, true, rnd), MemoryAfter(m, q, true, rnd);
      |cells'| == |cells| && q.Word() in m' && SlotCells(cells', q.addr)[i] == Known(m'[q.Word()][i])
  {
    var w, c := q.Word(), SlotCells(cells, q.addr);
    var n := Materialise(m, w, rnd);
    AccessMeaning(q, i);
    match q.kind {
      case Atomic(_) => PutSlot(cells, q.addr, AtomicWord(q, n[w]), q.be);
      case Store => PutSlot(cells, q.addr, q.wdata, q.be);
      case StoreConditional => PutSlot(cells, q.addr, q.wdata, q.be);
      case _ =>
        MaterialiseAgrees(c, m, w, rnd);
        PutSlot(cells, q.addr, n[w], Unset(q, c));
    }
  }

  /** What an answer tells the core, byte address by byte address. */
  lemma AnswersMeaning(m: Store, q: Req, effective: bool, rnd: Word, data: Word, a: nat)
    requires Answers(m, q, effective, rnd, data) && a / 8 == q.addr / 8 && Within(a, q.addr, q.addr + q.bytes)
    ensures effective && (q.kind.Load? || q.kind.LoadReserved? || q.kind.Atomic?) ==>
      data[a % 8] == if a / 8 in m then m[a / 8][a % 8] else rnd[a % 8]
    ensures q.kind.StoreConditional? && q.Legal() ==>
      Number(data[q.addr % 8..q.addr % 8 + q.bytes]) == if effective then 0 else 1
  {
    AccessMeaning(q, a % 8);
    Division(a, 8);
    if q.kind.StoreConditional? && q.Legal() {
      assert q.addr % 8 == 0 || (q.addr % 8 == 4 && q.bytes == 4);
      StatusMeaning(q.addr % 8, q.bytes, effective);
    }
  }

  /** The answer of memory to a read passes the comparison, and fills the unknown bytes. */
  lemma ReadAnswer(e: Inflight, cells: seq<Cell>, m: Store, data: Word, rnd: Word, sc: bool)
    requires Sized(cells) && (e.req.kind.Load? || e.req.kind.LoadReserved?) && !e.isError
    requires e.req.Legal() && e.req.Fits()
    requires Reports(e.rdata, e.rv, SlotCells(cells, e.req.addr))
    requires SlotAgrees(SlotCells(cells, e.req.addr), m, e.req.Word())
    requires data == Materialise(m, e.req.Word(), rnd)[e.req.Word()]
    ensures Accepts(e, sc, false, data)
    ensures CellsAfterResp(e, sc, data, cells) == ShadowAfter(cells, m, e.req, true, rnd)
  {
    var c := SlotCells(cells, e.req.addr);
    MaterialiseAgrees(c, m, e.req.Word(), rnd);
    ReportMatches(e, c, Materialise(m, e.req.Word(), rnd), data);
  }

  /** The bytes of the word that an atomic operation answers with. */
  function Loaded(q: Req, was: Word): Word
    requires q.Legal() && q.kind.Atomic?
  {
    ShiftUp(Extract(was, q.addr % 8, q.bytes == 4), q.addr % 8)
  }

  /** The answer holds the accessed bytes, and from it the scoreboard derives the very word that
      memory wrote. */
  lemma LoadedMeaning(q: Req, was: Word)
    requires q.Legal() && q.kind.Atomic?
    ensures forall i :: 0 <= i < 8 && InAccess(q, i) ==> Loaded(q, was)[i] == was[i]
    ensures AmoResult(q, Loaded(q, was)) == AtomicWord(q, was)
  {
    var off, word := q.addr % 8, q.bytes == 4;
    assert off == 0 || (off == 4 && word);
    ExtractShift(was, off, word);
    CoreMatchesMem(q.kind.op, was, q.wdata, off, word);
  }

  /** The word that an atomic request leaves holds, in the accessed bytes, the result of the core's
      operation on the bytes of memory and of the request. */
  lemma AtomicWordMeaning(q: Req, was: Word)
    requires q.Legal() && q.kind.Atomic?
    ensures var off, word := q.addr % 8, q.bytes == 4;
      && (off == 0 || (off == 4 && word))
      && CoreMeans(q.kind.op, Field(was, off, word), Field(q.wdata, off, word),
                   Field(AtomicWord(q, was), off, word), 8 * Size(word))
  {
    var off, word := q.addr % 8, q.bytes == 4;
    assert off == 0 || (off == 4 && word);
    CoreMatchesMem(q.kind.op, was, q.wdata, off, word);
    CoreFieldMeaning(q.kind.op, was, q.wdata, off, word);
  }

  /** The answer of memory to an atomic operation passes the comparison, and makes the scoreboard
      derive the word that memory wrote. */
  lemma AtomicAnswer(e: Inflight, cells: seq<Cell>, m: Store, rnd: Word, sc: bool)
    requires Sized(cells) && e.req.Legal() && e.req.Fits() && e.req.kind.Atomic? && !e.isError
    requires Reports(e.rdata, e.rv, SlotCells(cells, e.req.addr))
    requires SlotAgrees(SlotCells(cells, e.req.addr), m, e.req.Word())
    ensures var loaded := Loaded(e.req, Materialise(m, e.req.Word(), rnd)[e.req.Word()]);
      && Accepts(e, sc, false, loaded) && Answers(m, e.req, true, rnd, loaded)
      && CellsAfterResp(e, sc, loaded, cells) == ShadowAfter(cells, m, e.req, true, rnd)
  {
    var c := SlotCells(cells, e.req.addr);
    var n := Materialise(m, e.req.Word(), rnd);
    MaterialiseAgrees(c, m, e.req.Word(), rnd);
    LoadedMeaning(e.req, n[e.req.Word()]);
    ReportMatches(e, c, n, Loaded(e.req, n[e.req.Word()]));
  }

  // ---------------------------------------------------------------------------------------------
  // The reservation of memory, over the trace
  // ---------------------------------------------------------------------------------------------

  /** `held` is the range of the load-reserved that holds the reservation of word `w`. */
  ghost predicate HeldFor(regions: seq<Region>, trace: seq<Req>, w: nat, held: Exclusive) {
    exists k :: 0 <= k < |trace| && Reserved(regions, trace, k, w)
      && held == Exclusive(true, trace[k].addr, trace[k].addr + trace[k].bytes)
  }

  /** A store-conditional takes effect exactly when it does not fault and overlaps the latest
      load-reserved, which must still hold its reservation; any other request when it does not
      fault. */
  ghost predicate TakesEffect(regions: seq<Region>, trace: seq<Req>, q: Req) {
    && !Faults(regions, q)
    && (q.kind.StoreConditional? ==>
          exists k :: 0 <= k < |trace| && Reserved(regions, trace, k, q.Word())
            && Overlaps(q.addr, q.addr + q.bytes, trace[k].addr, trace[k].addr + trace[k].bytes))
  }

  /** The requests access a common byte. */
  ghost predicate Meet(q: Req, r: Req) {
    exists a :: Touches(q, a) && Touches(r, a)
  }

  lemma MeetOverlaps(q: Req, r: Req)
    requires q.bytes > 0 && r.bytes > 0
    ensures Meet(q, r) <==> Overlaps(q.addr, q.addr + q.bytes, r.addr, r.addr + r.bytes)
  {
    if Overlaps(q.addr, q.addr + q.bytes, r.addr, r.addr + r.bytes) {
      var a := if q.addr < r.addr then r.addr else q.addr;
      assert Touches(q, a) && Touches(r, a);
    }
  }

  /** A store-conditional takes effect exactly when it does not fault, and shares a byte with a
      load-reserved that still holds the reservation of its word. */
  lemma SuccessMeaning(regions: seq<Region>, trace: seq<Req>, q: Req)
    requires q.kind.StoreConditional? && q.bytes > 0 && forall k :: 0 <= k < |trace| ==> trace[k].bytes > 0
    ensures TakesEffect(regions, trace, q)
       <==> !Faults(regions, q)
            && exists k :: 0 <= k < |trace| && Reserved(regions, trace, k, q.Word()) && Meet(q, trace[k])
  {
    forall k | 0 <= k < |trace|
      ensures Meet(q, trace[k])
         <==> Overlaps(q.addr, q.addr + q.bytes, trace[k].addr, trace[k].addr + trace[k].bytes)
    {
      MeetOverlaps(q, trace[k]);
    }
  }

  /** A store-conditional without a reservation is refused before its address is looked at. */
  ghost predicate ReportsError(regions: seq<Region>, trace: seq<Req>, q: Req) {
    Faults(regions, q) && (q.kind.StoreConditional? ==> HoldsReservation(regions, trace, q.Word()))
  }

  /** What the two reservation records decide is what the trace says. */
  lemma EffectMeaning(regions: seq<Region>, trace: seq<Req>, r: Reservation, held: Exclusive, q: Req)
    requires r == ReservationAfter(regions, trace)
    requires r.valid ==> HeldFor(regions, trace, r.base / 8, held)
    ensures Effective(regions, r, held, q) <==> TakesEffect(regions, trace, q)
    ensures Matches(r, q) <==> HoldsReservation(regions, trace, q.Word())
  {
    ReservationMeaning(regions, trace, q);
  }

  lemma HeldStep(regions: seq<Region>, trace: seq<Req>, q: Req, held: Exclusive)
    requires ReservationAfter(regions, trace).valid ==>
      HeldFor(regions, trace, ReservationAfter(regions, trace).base / 8, held)
    ensures var r := ReservationAfter(regions, trace + [q]);
      r.valid ==> HeldFor(regions, trace + [q], r.base / 8, HeldAfter(held, q))
  {
    var r, more := ReservationAfter(regions, trace), trace + [q];
    TraceStep(regions, trace, q);
    var r' := Reserve(regions, r, q);
    if r'.valid {
      if q.kind.LoadReserved? {
        assert Reserved(regions, more, |trace|, r'.base / 8);
      } else {
        var k :| 0 <= k < |trace| && Reserved(regions, trace, k, r.base / 8)
          && held == Exclusive(true, trace[k].addr, trace[k].addr + trace[k].bytes);
        assert forall j :: 0 <= j < |trace| ==> more[j] == trace[j];
        assert Reserved(regions, more, k, r.base / 8);
      }
    }
  }

  lemma TraceStep(regions: seq<Region>, trace: seq<Req>, q: Req)
    ensures ReservationAfter(regions, trace + [q]) == Reserve(regions, ReservationAfter(regions, trace), q)
  {
    assert (trace + [q])[..|trace|] == trace;
  }

  // ---------------------------------------------------------------------------------------------
  // The bench
  // ---------------------------------------------------------------------------------------------

  class Bench {
    const board: Board
    const cache: Register
    const memory: Model
    const atomicId: nat           // the transaction ID under which the cache forwards atomic requests
    ghost var used: set<nat>      // words accessed so far
    ghost var trace: seq<Req>     // requests served so far

    ghost function Repr(): set<object>
    {
      {this, board, board.ram.mem, board.ram.bmap, board.pool, cache, memory, memory.memory}
    }

    ghost predicate Wired() {
      board.Valid() && board.regions == memory.regions && board.pool.max > 0 && memory.lanes > 0
    }

    /** No request is in flight, and nothing was ever reported. */
    ghost predicate Quiet()
      reads board, board.pool
    {
      && board.inflight == map[] && board.amoFifo == []
      && board.memReads == {} && board.memWrites == {}
      && board.pool.Valid() && board.pool.ids == [] && board.pool.unused == 0
      && board.errors == 0
    }

    ghost predicate Valid()
      reads Repr()
    {
      Wired() && Quiet() && Consistent()
    }

    /** The shadow agrees with memory, and the reservations of scoreboard, cache and memory are those
        of the trace. */
    ghost predicate Consistent()
      reads Repr()
      requires Wired()
    {
      && board.reservation == ReservationAfter(board.regions, trace) && Synced()
      && (board.reservation.valid ==> HeldFor(board.regions, trace, board.reservation.base / 8, Held()))
      && Agrees(board.ram.Cells(), memory.memory.words, used)
    }

    constructor (
      regions: seq<Region>, blocks: nat, maxIds: nat, line: LineBytes, atomicId: nat, lanes: nat,
      undefined: nat -> Exclusive)
      requires blocks > 0 && maxIds > 0 && lanes > 0
      ensures Valid() && trace == [] && used == {}
    {
      board := new Board(regions, blocks, maxIds);
      cache := new Register(line);
      memory := new Model(regions, lanes, undefined);
      this.atomicId := atomicId;
      used, trace := {}, [];
    }

    /** Its ID is allocated, and nothing else is going on. */
    ghost predicate Ready(q: Req)
      reads board, board.pool
    {
      && board.inflight == map[] && board.amoFifo == []
      && board.memReads == {} && board.memWrites == {}
      && board.pool.Valid() && board.pool.ids == [q.id] && board.pool.unused == 0
      && board.errors == 0
    }

    /** Exactly one request, with entry `e`, is in flight, and nothing was ever reported. */
    ghost predicate Busy(e: Inflight)
      reads board, board.pool
    {
      && board.inflight == map[e.req.id := e]
      && board.memReads == {} && board.memWrites == {}
      && board.pool.Valid() && board.pool.ids == [e.req.id] && board.pool.unused == 0
      && board.errors == 0
    }

    /** The exclusive record of memory under the ID of atomic requests. */
    ghost function Held(): Exclusive
      reads memory
    {
      memory.Reservation(atomicId)
    }

    /** The cache's reservation register holds what the scoreboard's does. */
    ghost predicate Synced()
      reads board, cache
    {
      cache.View() == board.reservation
    }

    /** Memory holds a reservation whenever the scoreboard does. */
    ghost predicate Linked()
      reads board, memory
    {
      board.reservation.valid ==> Held().valid
    }

    /** Hands the request to the scoreboard. */
    method Begin(q: Req) returns (ghost e: Inflight)
      requires Wired() && Ready(q)
      modifies board, board.ram.mem, board.ram.bmap
      ensures Busy(e) && e.req == q && Flagged(e, board.regions, old(board.reservation))
      ensures !e.isError && Reads(q.kind) ==> Reports(e.rdata, e.rv, SlotCells(old(board.ram.Cells()), q.addr))
      ensures board.reservation == Reserve(board.regions, old(board.reservation), q)
      ensures board.amoFifo == if Forwarded(e) then [e] else []
      ensures board.ram.Cells() == CellsAfterReq(e, old(board.ram.Cells()))
    {
      e := board.CoreReq(q);
    }

    /** Hands an acceptable response to the scoreboard. */
    method Finish(id: nat, error: bool, rdata: Word, ghost e: Inflight)
      requires Wired() && Busy(e) && board.amoFifo == [] && e.req.id == id && e.req.Fits()
      requires Accepts(e, board.scIsAtomic, error, rdata)
      modifies board, board.ram.mem, board.ram.bmap, board.pool
      ensures Quiet() && board.reservation == old(board.reservation)
      ensures board.ram.Cells() == CellsAfterResp(e, old(board.scIsAtomic), rdata, old(board.ram.Cells()))
    {
      board.CoreResp(id, error, rdata);
      assert board.inflight == map[];
    }

    /** A read at the memory interface, watched by the scoreboard. */
    method ReadThrough(q: Req, ghost e: Inflight, rnd: Word, junk: Word) returns (error: bool, data: Word)
      requires Wired() && Busy(e) && board.amoFifo == (if q.kind.LoadReserved? then [e] else []) && q.bytes <= 8
      modifies board, memory, memory.memory
      ensures Busy(e) && board.amoFifo == [] && board.reservation == old(board.reservation)
      ensures error == Faults(board.regions, q)
      ensures error ==> memory.memory.words == old(memory.memory.words)
      ensures !error ==> memory.memory.words == Materialise(old(memory.memory.words), q.Word(), rnd)
      ensures !error ==> data == memory.memory.words[q.Word()]
      ensures Held() == if error then old(Held()) else HeldAfter(old(Held()), q)
    {
      var exclusive := q.kind.LoadReserved?;
      var memId := if exclusive then atomicId else q.id;
      board.MemReadReq(memId, exclusive);
      error, data := memory.ReadWord(q.addr, q.bytes, exclusive, memId, rnd, junk);
      board.MemReadResp(memId, true);
    }

    /** A plain write at the memory interface, watched by the scoreboard. */
    method WriteThrough(q: Req, ghost e: Inflight, rnd: Word) returns (error: bool)
      requires Wired() && Busy(e) && board.amoFifo == [] && q.bytes <= 8
      modifies board, memory, memory.memory
      ensures Busy(e) && board.amoFifo == [] && board.reservation == old(board.reservation)
      ensures error == Faults(board.regions, q) && Held() == old(Held())
      ensures memory.memory.words == if error then old(memory.memory.words)
                                     else Stored(old(memory.memory.words), q.Word(), q.wdata, q.be, rnd)
    {
      var isAtomic, loaded;
      board.MemWriteReq(q.id, Plain);
      error, isAtomic, loaded := memory.WriteWord(q.addr, q.bytes, q.id, Plain, q.wdata, q.be, rnd);
      board.MemWriteResp(q.id, isAtomic);
    }

    /** An atomic operation at the memory interface, watched by the scoreboard. */
    method AtomicThrough(q: Req, ghost e: Inflight, rnd: Word) returns (error: bool, loaded: Word)
      requires Wired() && Busy(e) && board.amoFifo == [e] && q.Legal() && q.kind.Atomic?
      modifies board, memory, memory.memory
      ensures Busy(e) && board.amoFifo == [] && board.reservation == old(board.reservation)
      ensures error == Faults(board.regions, q) && Held() == old(Held())
      ensures memory.memory.words == MemoryAfter(old(memory.memory.words), q, !error, rnd)
      ensures !error ==>
        loaded == Loaded(q, Materialise(old(memory.memory.words), q.Word(), rnd)[q.Word()])
    {
      var kind := AtomicOp(ToMem(q.kind.op));
      var isAtomic;
      board.MemWriteReq(atomicId, kind);
      error, isAtomic, loaded :=
        memory.WriteWord(q.addr, q.bytes, atomicId, kind, MemOperand(q.kind.op, q.wdata), q.be, rnd);
      board.MemReadResp(atomicId, true);
      board.MemWriteResp(atomicId, isAtomic);
    }

    /** A store-exclusive at the memory interface, watched by the scoreboard. */
    method ExclusiveThrough(q: Req, ghost e: Inflight, rnd: Word) returns (error: bool, isAtomic: bool)
      requires Wired() && Busy(e) && board.amoFifo == [e] && e.isAtomic && Held().valid && q.bytes <= 8
      modifies board, memory, memory.memory
      ensures Busy(e) && board.amoFifo == [] && board.reservation == old(board.reservation)
      ensures error == Faults(board.regions, q) && board.scIsAtomic == isAtomic
      ensures isAtomic == (!error && Overlaps(q.addr, q.addr + q.bytes, old(Held()).base, old(Held()).end))
      ensures memory.memory.words == if isAtomic
                                     then Stored(old(memory.memory.words), q.Word(), q.wdata, q.be, rnd)
                                     else old(memory.memory.words)
    {
      var loaded;
      board.MemWriteReq(atomicId, StoreExclusive);
      error, isAtomic, loaded :=
        memory.WriteWord(q.addr, q.bytes, atomicId, StoreExclusive, q.wdata, q.be, rnd);
      board.MemWriteResp(atomicId, isAtomic);
    }

    /** A store: recorded in the shadow at the request, written to memory, acknowledged. */
    method ServeStore(q: Req, rnd: Word) returns (error: bool)
      requires Wired() && Ready(q) && q.Legal() && q.kind.Store? && Synced()
      modifies board, board.ram.mem, board.ram.bmap, board.pool, cache, memory, memory.memory
      ensures Quiet() && Synced() && board.reservation == Reserve(board.regions, old(board.reservation), q)
      ensures error == Faults(board.regions, q) && Held() == old(Held())
      ensures memory.memory.words == MemoryAfter(old(memory.memory.words), q, !error, rnd)
      ensures board.ram.Cells() == ShadowAfter(old(board.ram.Cells()), old(memory.memory.words), q, !error, rnd)
    {
      ghost var e := Begin(q);
      LegalFits(q);
      RegisterStep(cache.line, board.regions, cache.View(), q);
      cache.Snoop(q);
      error := WriteThrough(q, e, rnd);
      Finish(q.id, error, ZERO, e);
    }

    /** A load or load-reserved: memory answers, the scoreboard compares what it knew and records
        what it did not. */
    method ServeRead(q: Req, rnd: Word, junk: Word) returns (error: bool, data: Word)
      requires Wired() && Ready(q) && q.Legal() && (q.kind.Load? || q.kind.LoadReserved?) && Synced()
      requires SlotAgrees(SlotCells(board.ram.Cells(), q.addr), memory.memory.words, q.Word())
      modifies board, board.ram.mem, board.ram.bmap, board.pool, cache, memory, memory.memory
      ensures Quiet() && Synced() && board.reservation == Reserve(board.regions, old(board.reservation), q)
      ensures error == Faults(board.regions, q)
      ensures Held() == if error then old(Held()) else HeldAfter(old(Held()), q)
      ensures Answers(old(memory.memory.words), q, !error, rnd, data)
      ensures memory.memory.words == MemoryAfter(old(memory.memory.words), q, !error, rnd)
      ensures board.ram.Cells() == ShadowAfter(old(board.ram.Cells()), old(memory.memory.words), q, !error, rnd)
    {
      ghost var e := Begin(q);
      LegalFits(q);
      RegisterStep(cache.line, board.regions, cache.View(), q);
      error, data := ReadThrough(q, e, rnd, junk);
      if q.kind.LoadReserved? {
        cache.Reserve(q, error);
      }
      if !error {
        ReadAnswer(e, old(board.ram.Cells()), old(memory.memory.words), data, rnd, board.scIsAtomic);
      }
      Finish(q.id, error, data, e);
    }

    /** An atomic operation: memory answers with the old word and writes the result, which the
        scoreboard derives on its own from the answer. */
    method ServeAtomic(q: Req, rnd: Word) returns (error: bool, data: Word)
      requires Wired() && Ready(q) && q.Legal() && q.kind.Atomic? && Synced()
      requires SlotAgrees(SlotCells(board.ram.Cells(), q.addr), memory.memory.words, q.Word())
      modifies board, board.ram.mem, board.ram.bmap, board.pool, cache, memory, memory.memory
      ensures Quiet() && Synced() && board.reservation == Reserve(board.regions, old(board.reservation), q)
      ensures error == Faults(board.regions, q) && Held() == old(Held())
      ensures Answers(old(memory.memory.words), q, !error, rnd, data)
      ensures memory.memory.words == MemoryAfter(old(memory.memory.words), q, !error, rnd)
      ensures board.ram.Cells() == ShadowAfter(old(board.ram.Cells()), old(memory.memory.words), q, !error, rnd)
    {
      ghost var e := Begin(q);
      LegalFits(q);
      RegisterStep(cache.line, board.regions, cache.View(), q);
      cache.Operate(q);
      error, data := AtomicThrough(q, e, rnd);
      if !error {
        AtomicAnswer(e, old(board.ram.Cells()), old(memory.memory.words), rnd, board.scIsAtomic);
      }
      Finish(q.id, error, data, e);
    }

    /** A store-conditional: the cache forwards it if its register holds a matching reservation, and
        refuses it otherwise. */
    method ServeConditional(q: Req, rnd: Word) returns (error: bool, success: bool)
      requires Wired() && Ready(q) && q.Legal() && q.kind.StoreConditional? && Linked() && Synced()
      modifies board, board.ram.mem, board.ram.bmap, board.pool, cache, memory, memory.memory
      ensures Quiet() && Synced() && board.reservation == Reserve(board.regions, old(board.reservation), q)
      ensures error == (Faults(board.regions, q) && Matches(old(board.reservation), q))
      ensures success == Effective(board.regions, old(board.reservation), old(Held()), q)
      ensures memory.memory.words == MemoryAfter(old(memory.memory.words), q, success, rnd)
      ensures board.ram.Cells() == ShadowAfter(old(board.ram.Cells()), old(memory.memory.words), q, success, rnd)
    {
      HitIsMatch(cache.line, cache.View(), q);
      RegisterStep(cache.line, board.regions, cache.View(), q);
      ghost var e := Begin(q);
      var forwarded := cache.Conditional(q);
      LegalFits(q);
      error, success := false, false;
      if forwarded {
        error, success := ExclusiveThrough(q, e, rnd);
      }
      Finish(q.id, error, StatusWord(q.bytes, success), e);
    }

    /** Serves a request whose ID is allocated. */
    method Dispatch(q: Req, rnd: Word, junk: Word) returns (error: bool, data: Word)
      requires Wired() && Ready(q) && q.Legal() && Linked() && Synced()
      requires SlotAgrees(SlotCells(board.ram.Cells(), q.addr), memory.memory.words, q.Word())
      modifies board, board.ram.mem, board.ram.bmap, board.pool, cache, memory, memory.memory
      ensures Quiet() && Synced() && board.reservation == Reserve(board.regions, old(board.reservation), q)
      ensures board.reservation.valid ==> Held() == HeldAfter(old(Held()), q)
      ensures var effective := Effective(board.regions, old(board.reservation), old(Held()), q);
        && error == (Faults(board.regions, q) && (q.kind.StoreConditional? ==> Matches(old(board.reservation), q)))
        && Answers(old(memory.memory.words), q, effective, rnd, data)
        && memory.memory.words == MemoryAfter(old(memory.memory.words), q, effective, rnd)
        && board.ram.Cells() == ShadowAfter(old(board.ram.Cells()), old(memory.memory.words), q, effective, rnd)
    {
      match q.kind {
        case Store =>
          error := ServeStore(q, rnd);
          data := ZERO;
        case Atomic(_) =>
          error, data := ServeAtomic(q, rnd);
        case StoreConditional =>
          var success;
          error, success := ServeConditional(q, rnd);
          data := StatusWord(q.bytes, success);
        case _ =>
          error, data := ServeRead(q, rnd, junk);
      }
    }

    /** Serves a request whose ID is allocated, and keeps what holds between requests. */
    method ServeAllocated(q: Req, rnd: Word, junk: Word) returns (error: bool, data: Word)
      requires Wired() && Ready(q) && Consistent() && q.Legal()
      requires Unaliased(used, q.Word(), board.ram.mem.Length)
      modifies Repr()
      ensures Valid() && used == old(used) + {q.Word()} && trace == old(trace) + [q]
      ensures var effective := Effective(board.regions, old(board.reservation), old(Held()), q);
        && Answers(old(memory.memory.words), q, effective, rnd, data)
        && memory.memory.words == MemoryAfter(old(memory.memory.words), q, effective, rnd)
      ensures error == (Faults(board.regions, q) && (q.kind.StoreConditional? ==> Matches(old(board.reservation), q)))
    {
      ghost var cells, words, r, held := board.ram.Cells(), memory.memory.words, board.reservation, Held();
      AgreesHere(cells, words, used, q.Word());
      SlotOfWord(q.addr, |cells|);
      error, data := Dispatch(q, rnd, junk);
      ServedAgrees(cells, words, used, q, Effective(board.regions, r, held, q), rnd);
      TraceStep(board.regions, trace, q);
      HeldStep(board.regions, trace, q, held);
      used, trace := used + {q.Word()}, trace + [q];
    }

    /** Serves any request, at an address that does not fall on the shadow slot of another word. */
    method Serve(q: Req, draw: nat, rnd: Word, junk: Word) returns (error: bool, data: Word)
      requires Valid() && q.Legal()
      requires Unaliased(used, q.Word(), board.ram.mem.Length)
      modifies Repr()
      ensures Valid() && used == old(used) + {q.Word()}
      ensures exists id: nat :: id < board.pool.max && trace == old(trace) + [q.(id := id)]
      ensures var effective := TakesEffect(board.regions, old(trace), q);
        && Answers(old(memory.memory.words), q, effective, rnd, data)
        && memory.memory.words == MemoryAfter(old(memory.memory.words), q, effective, rnd)
      ensures error == ReportsError(board.regions, old(trace), q)
    {
      EffectMeaning(board.regions, trace, board.reservation, Held(), q);
      ghost var effective := Effective(board.regions, board.reservation, Held(), q);
      ghost var words := memory.memory.words;
      var id := board.pool.Allocate(draw);
      error, data := ServeAllocated(q.(id := id), rnd, junk);
      IdIrrelevant(words, q, id, effective, rnd, data);
    }
  }
}
