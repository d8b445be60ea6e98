/**
 The scoreboard: it follows core requests and responses, keeps a shadow RAM of what memory must
 hold, and counts every disagreement as an error.
 */
module Scoreboard {
  import opened Arith
  import opened Words
  import opened Amo
  import opened Requests
  import opened Ram
  import opened IdPool
  import opened MemResponse

  /** Depth of the FIFO that passes atomic requests to the memory-side checks. */
  const AMO_FIFO_DEPTH: nat := 16

  /** An entry of the table of requests in flight: what the shadow RAM held at the request, and
      which of it was known. */
  datatype Inflight = Inflight(req: Req, isError: bool, isAtomic: bool, rdata: Word, rv: ByteEnable)

  // ---------------------------------------------------------------------------------------------
  // Specification of requests and responses
  // ---------------------------------------------------------------------------------------------

  /** First shadow cell of the word of `addr`. */
  function Slot(addr: nat, size: nat): (k: nat)
    requires size > 0 && size % 8 == 0
    ensures k + 8 <= size && k % 8 == 0
  {
    SlotAligned(addr, size);
    (addr - addr % 8) % size
  }

  lemma SlotAligned(addr: nat, size: nat)
    requires size > 0 && size % 8 == 0
    ensures (addr - addr % 8) % size + 8 <= size && (addr - addr % 8) % size % 8 == 0
  {
    FactorRemainder(8, addr / 8, size / 8);
    assert addr - addr % 8 == 8 * (addr / 8) && size == 8 * (size / 8);
    assert addr / 8 % (size / 8) + 1 <= size / 8;
  }

  predicate Reads(k: Kind) {
    k.Load? || k.LoadReserved? || k.Atomic?
  }

  /** The eight shadow cells of a word. */
  type Cells8 = c: seq<Cell> | |c| == 8 witness seq(8, _ => Unknown)

  function SlotCells(cells: seq<Cell>, addr: nat): Cells8
    requires |cells| > 0 && |cells| % 8 == 0
  {
    cells[Slot(addr, |cells|)..Slot(addr, |cells|) + 8]
  }

  /** `rdata` and `rv` report what the cells say. */
  predicate Reports(rdata: Word, rv: ByteEnable, c: Cells8) {
    forall i :: 0 <= i < 8 ==> (rv[i] <==> c[i].Known?) && (c[i].Known? ==> rdata[i] == c[i].value)
  }

  /** The flags that the scoreboard derives for a request. */
  predicate Flagged(e: Inflight, regions: seq<Region>, r: Reservation) {
    var fault := Faults(regions, e.req);
    if e.req.kind.StoreConditional?
    then e.isAtomic == Matches(r, e.req) && e.isError == (fault && Matches(r, e.req))
    else e.isError == fault && !e.isAtomic
  }

  /** Atomic requests that memory must see. */
  predicate Forwarded(e: Inflight) {
    e.req.kind.Atomic? || e.req.kind.LoadReserved? || (e.req.kind.StoreConditional? && e.isAtomic)
  }

  predicate InAccess(q: Req, i: nat) {
    q.addr % 8 <= i < q.addr % 8 + q.bytes
  }

  /** The response data agree with everything that was known of the accessed bytes. */
  predicate DataMatches(e: Inflight, rdata: Word) {
    forall i :: 0 <= i < 8 && InAccess(e.req, i) && e.rv[i] ==> rdata[i] == e.rdata[i]
  }

  predicate StatusMatches(e: Inflight, success: bool, rdata: Word) {
    (if e.req.bytes == 4 then Value4(Low(rdata)) else Value(rdata)) == if success then 0 else 1
  }

  /** Nothing about the response is reported as an error. */
  predicate Accepts(e: Inflight, scIsAtomic: bool, error: bool, rdata: Word) {
    && (!e.req.kind.Store? ==> error == e.isError)
    && (!e.isError && e.req.kind.StoreConditional? ==> StatusMatches(e, e.isAtomic && scIsAtomic, rdata))
    && (!e.isError && Reads(e.req.kind) ==> DataMatches(e, rdata))
  }

  /** The word that the scoreboard expects an atomic operation to leave, given the response. */
  function AmoResult(q: Req, rdata: Word): Word
    requires q.kind.Atomic?
  {
    var off: Offset, word := q.addr % 8, q.bytes == 4;
    ShiftUp(CoreCompute(q.kind.op, Extract(rdata, off, word), Extract(q.wdata, off, word), word), off)
  }

  /** Enables of the accessed bytes that are still unknown. */
  function Unset(q: Req, c: Cells8): ByteEnable {
    seq(8, i requires 0 <= i < 8 => InAccess(q, i) && c[i].Unknown?)
  }

  function Put(cells: seq<Cell>, addr: nat, data: Word, be: ByteEnable): (r: seq<Cell>)
    requires |cells| > 0 && |cells| % 8 == 0
    ensures |r| == |cells|
  {
    Overlay(cells, Slot(addr, |cells|), data, be)
  }

  /** The shadow cells after a request: stores are recorded at once. */
  function CellsAfterReq(e: Inflight, cells: seq<Cell>): (r: seq<Cell>)
    requires |cells| > 0 && |cells| % 8 == 0
    ensures |r| == |cells|
  {
    if e.req.kind.Store? && !e.isError then Put(cells, e.req.addr, e.req.wdata, e.req.be) else cells
  }

  /** The shadow cells after an accepted response. */
  function CellsAfterResp(e: Inflight, scIsAtomic: bool, rdata: Word, cells: seq<Cell>): (r: seq<Cell>)
    requires |cells| > 0 && |cells| % 8 == 0
    ensures |r| == |cells|
  {
    if e.isError then cells
    else match e.req.kind
      case Store => cells
      case StoreConditional =>
        if e.isAtomic && scIsAtomic then Put(cells, e.req.addr, e.req.wdata, e.req.be) else cells
      case Atomic(_) => Put(cells, e.req.addr, AmoResult(e.req, rdata), e.req.be)
      case _ => Put(cells, e.req.addr, rdata, Unset(e.req, SlotCells(cells, e.req.addr)))
  }

  function Tail<T>(s: seq<T>): seq<T> {
    if s == [] then [] else s[1..]
  }

  // ---------------------------------------------------------------------------------------------
  // The scoreboard
  // ---------------------------------------------------------------------------------------------

  class Board {
    const regions: seq<Region>
    const ram: RamModel
    const pool: Pool
    var inflight: map<nat, Inflight>
    var reservation: Reservation
    var amoFifo: seq<Inflight>
    var memReads: set<nat>
    var memWrites: set<nat>
    var scIsAtomic: bool
    var errors: nat
    var duplicates: nat   // errors reported for a core request ID that is in flight

    ghost predicate Valid() {
      ram.Valid() && ram.mem.Length % 8 == 0
    }

    constructor (regions: seq<Region>, blocks: nat, maxIds: nat)
      requires blocks > 0
      ensures Valid() && this.regions == regions && ram.mem.Length == 8 * blocks && pool.max == maxIds
      ensures fresh(ram.mem) && fresh(ram.bmap) && fresh(pool)
      ensures forall k :: 0 <= k < ram.mem.Length ==> ram.Cells()[k] == Unknown
      ensures inflight == map[] && reservation == NONE && amoFifo == []
      ensures errors == 0 && duplicates == 0
      ensures memReads == {} && memWrites == {} && pool.Valid() && pool.ids == [] && pool.unused == 0
    {
      this.regions := regions;
      ram := new RamModel(blocks);
      pool := new Pool(maxIds);
      inflight, reservation, amoFifo := map[], NONE, [];
      memReads, memWrites, scIsAtomic, errors, duplicates := {}, {}, false, 0, 0;
    }

    /** What the shadow RAM knows of a word. */
    method ReadShadow(addr: nat) returns (rdata: Word, rv: ByteEnable)
      requires Valid()
      ensures Reports(rdata, rv, SlotCells(ram.Cells(), addr))
    {
      SlotAligned(addr, ram.mem.Length);
      rdata, rv := ram.Read(8, addr - addr % 8);
    }

    method WriteShadow(addr: nat, data: Word, be: ByteEnable)
      requires Valid()
      modifies ram.mem, ram.bmap
      ensures ram.Cells() == Put(old(ram.Cells()), addr, data, be)
    {
      SlotAligned(addr, ram.mem.Length);
      ram.Write(data, be, addr - addr % 8);
    }

    /** The entry of a new request. */
    method MakeEntry(q: Req) returns (e: Inflight)
      requires Valid()
      ensures e.req == q && Flagged(e, regions, reservation)
      ensures !e.isError && Reads(q.kind) ==> Reports(e.rdata, e.rv, SlotCells(ram.Cells(), q.addr))
    {
      var fault := WithinErrorRegion(regions, q.addr, q.addr + q.bytes);
      var rdata: Word, rv: ByteEnable := ZERO, seq(8, _ => false);
      if !fault && Reads(q.kind) {
        rdata, rv := ReadShadow(q.addr);
      }
      var addrMatch := reservation.valid && q.addr / 8 == reservation.base / 8;
      if q.kind.StoreConditional? {
        e := Inflight(q, fault && addrMatch, addrMatch, rdata, rv);
      } else {
        e := Inflight(q, fault, false, rdata, rv);
      }
    }

    /** A core request. */
    method CoreReq(q: Req) returns (ghost e: Inflight)
      requires Valid()
      modifies this, ram.mem, ram.bmap
      ensures e.req == q && Flagged(e, regions, old(reservation))
      ensures !e.isError && Reads(q.kind) ==> Reports(e.rdata, e.rv, SlotCells(old(ram.Cells()), q.addr))
      ensures memReads == old(memReads) && memWrites == old(memWrites) && scIsAtomic == old(scIsAtomic)
      ensures duplicates == old(duplicates) + if q.id in old(inflight) then 1 else 0
      ensures reservation == if q.id in old(inflight) then old(reservation)
                             else Reserve(regions, old(reservation), q)
      ensures var accepted := q.id !in old(inflight) && !(Forwarded(e) && |old(amoFifo)| >= AMO_FIFO_DEPTH);
        && errors == old(errors) + (if accepted then 0 else 1)
        && inflight == (if accepted then old(inflight)[q.id := e] else old(inflight))
        && amoFifo == old(amoFifo) + (if accepted && Forwarded(e) then [e] else [])
        && ram.Cells() == (if accepted then CellsAfterReq(e, old(ram.Cells())) else old(ram.Cells()))
    {
      var entry := MakeEntry(q);
      e := entry;
      if q.id in inflight {
        errors, duplicates := errors + 1, duplicates + 1;
        return;
      }
      if q.kind.LoadReserved? {
        if !entry.isError {
          reservation := Reservation(true, q.addr);
        } else {
          reservation := reservation.(valid := false);
        }
      }
      if q.Writes() {
        var addrMatch := reservation.valid && q.addr / 8 == reservation.base / 8;
        if addrMatch || q.kind.StoreConditional? {
          reservation := reservation.(valid := false);
        }
      }
      if q.kind.Atomic? || q.kind.LoadReserved? || (q.kind.StoreConditional? && entry.isAtomic) {
        if |amoFifo| >= AMO_FIFO_DEPTH {
          errors := errors + 1;
          return;
        }
        amoFifo := amoFifo + [entry];
      }
      if q.kind.Store? && !entry.isError {
        WriteShadow(q.addr, q.wdata, q.be);
      }
      inflight := inflight[q.id := entry];
    }

    /** A cache maintenance request that needs no response: its ID is released at once. */
    method CoreCmo(id: nat)
      requires pool.Valid()
      modifies `errors, `duplicates, pool
      ensures pool.Valid()
      ensures var known := id in inflight;
        && errors == old(errors) + (if known then 1 else 0)
        && duplicates == old(duplicates) + (if known then 1 else 0)
        && pool.ids == (if known then old(pool.ids) else Remove(old(pool.ids), id))
        && pool.unused == old(pool.unused) + (if known || id in old(pool.ids) then 0 else 1)
    {
      if id in inflight {
        errors, duplicates := errors + 1, duplicates + 1;
        return;
      }
      pool.Deallocate(id);
    }

    /** A read request seen at the memory interface. */
    method MemReadReq(id: nat, exclusive: bool)
      modifies this
      ensures memReads == old(memReads) + {id}
      ensures var pops := id !in old(memReads) && exclusive;
        && amoFifo == (if pops then Tail(old(amoFifo)) else old(amoFifo))
        && errors == old(errors) + (if id in old(memReads) || (pops && |old(amoFifo)| != 1) then 1 else 0)
      ensures inflight == old(inflight) && reservation == old(reservation) && duplicates == old(duplicates)
      ensures memWrites == old(memWrites) && scIsAtomic == old(scIsAtomic)
    {
      if id in memReads {
        errors := errors + 1;
        return;
      }
      memReads := memReads + {id};
      if exclusive {
        var _ := PopAtomic();
      }
    }

    /** Takes the atomic request in flight; there shall be exactly one. */
    method PopAtomic() returns (found: bool)
      modifies `errors, `amoFifo
      ensures found == (old(amoFifo) != []) && amoFifo == Tail(old(amoFifo))
      ensures errors == old(errors) + (if |old(amoFifo)| == 1 then 0 else 1)
    {
      if |amoFifo| > 1 {
        errors := errors + 1;
      }
      found := |amoFifo| > 0;
      if found {
        amoFifo := amoFifo[1..];
      } else {
        errors := errors + 1;
      }
    }

    /** One beat of a read response at the memory interface. */
    method MemReadResp(id: nat, last: bool)
      modifies this
      ensures errors == old(errors) + (if id in old(memReads) then 0 else 1)
      ensures memReads == if last then old(memReads) - {id} else old(memReads)
      ensures inflight == old(inflight) && reservation == old(reservation) && amoFifo == old(amoFifo)
      ensures memWrites == old(memWrites) && scIsAtomic == old(scIsAtomic) && duplicates == old(duplicates)
    {
      if id !in memReads {
        errors := errors + 1;
        return;
      }
      if last {
        memReads := memReads - {id};
      }
    }

    /** A write request seen at the memory interface. */
    method MemWriteReq(id: nat, kind: WriteKind)
      modifies this
      ensures errors == old(errors) <==>
        && id !in old(memWrites)
        && (!kind.Plain? ==> |old(amoFifo)| == 1)
        && (kind.StoreExclusive? ==> old(amoFifo)[0].isAtomic)
      ensures errors >= old(errors) && memWrites == old(memWrites) + {id}
      ensures var pops := id !in old(memWrites) && !kind.Plain?;
        && amoFifo == (if pops then Tail(old(amoFifo)) else old(amoFifo))
        && memReads == old(memReads) + (if pops && kind.AtomicOp? && old(amoFifo) != [] then {id} else {})
      ensures inflight == old(inflight) && reservation == old(reservation) && scIsAtomic == old(scIsAtomic)
      ensures duplicates == old(duplicates)
    {
      if id in memWrites {
        errors := errors + 1;
        return;
      }
      memWrites := memWrites + {id};
      if kind.Plain? {
        return;
      }
      var isAtomic := |amoFifo| > 0 && amoFifo[0].isAtomic;
      var found := PopAtomic();
      if kind.AtomicOp? && found {
        memReads := memReads + {id};
      }
      if kind.StoreExclusive? && found && !isAtomic {
        errors := errors + 1;
      }
    }

    /** A write response at the memory interface. */
    method MemWriteResp(id: nat, isAtomic: bool)
      modifies this
      ensures errors == old(errors) + (if id in old(memWrites) then 0 else 1)
      ensures memWrites == old(memWrites) - {id}
      ensures scIsAtomic == if id in old(memWrites) then isAtomic else old(scIsAtomic)
      ensures inflight == old(inflight) && reservation == old(reservation) && amoFifo == old(amoFifo)
      ensures memReads == old(memReads) && duplicates == old(duplicates)
    {
      if id !in memWrites {
        errors := errors + 1;
        return;
      }
      scIsAtomic := isAtomic;
      memWrites := memWrites - {id};
    }

    /** Compares the accessed bytes with what was known of them. */
    method CheckData(e: Inflight, rdata: Word)
      requires e.req.addr % 8 + e.req.bytes <= 8
      modifies `errors
      ensures errors >= old(errors) && (errors == old(errors) <==> DataMatches(e, rdata))
    {
      var first := e.req.addr % 8;
      var n := Mismatches(e.rv, e.rdata, rdata, first, first + e.req.bytes);
      assert n == 0 <==> DataMatches(e, rdata);
      errors := errors + n;
    }

    method IsKnown(addr: nat, i: nat) returns (known: bool)
      requires Valid() && i < 8
      ensures known <==> SlotCells(ram.Cells(), addr)[i].Known?
    {
      OffsetInSlot(addr, i, ram.mem.Length);
      known := ram.GetBmap(addr - addr % 8 + i);
    }

    /** The accessed bytes that are still unknown. */
    method FindUnset(q: Req) returns (be: ByteEnable)
      requires Valid()
      ensures be == Unset(q, SlotCells(ram.Cells(), q.addr))
    {
      ghost var c := SlotCells(ram.Cells(), q.addr);
      be := seq(8, _ => false);
      for i := 0 to 8
        invariant forall j :: 0 <= j < 8 ==> be[j] == (j < i && InAccess(q, j) && c[j].Unknown?)
      {
        var known := IsKnown(q.addr, i);
        be := be[i := !known && InAccess(q, i)];
      }
    }

    /** Records the response bytes of a read that were still unknown. */
    method FillUnset(q: Req, rdata: Word)
      requires Valid()
      modifies ram.mem, ram.bmap
      ensures ram.Cells() == Put(old(ram.Cells()), q.addr, rdata, Unset(q, SlotCells(old(ram.Cells()), q.addr)))
    {
      var be := FindUnset(q);
      WriteShadow(q.addr, rdata, be);
    }

    method ApplyAmo(q: Req, rdata: Word)
      requires Valid() && q.kind.Atomic?
      modifies ram.mem, ram.bmap
      ensures ram.Cells() == Put(old(ram.Cells()), q.addr, AmoResult(q, rdata), q.be)
    {
      var off: Offset, word := q.addr % 8, q.bytes == 4;
      var result := CoreCompute(q.kind.op, Extract(rdata, off, word), Extract(q.wdata, off, word), word);
      WriteShadow(q.addr, ShiftUp(result, off), q.be);
    }

    /** Checks the status of a store-conditional and records its data if it succeeded. */
    method FinishSc(e: Inflight, rdata: Word)
      requires Valid()
      modifies `errors, ram.mem, ram.bmap
      ensures var ok := e.isAtomic && scIsAtomic;
        && errors >= old(errors) && (errors == old(errors) <==> StatusMatches(e, ok, rdata))
        && ram.Cells() == if ok then Put(old(ram.Cells()), e.req.addr, e.req.wdata, e.req.be)
                          else old(ram.Cells())
    {
      var status := if e.req.bytes == 4 then Value4(Low(rdata)) else Value(rdata);
      if e.isAtomic && scIsAtomic {
        WriteShadow(e.req.addr, e.req.wdata, e.req.be);
        if status != 0 {
          errors := errors + 1;
        }
      } else if status != 1 {
        errors := errors + 1;
      }
    }

    /** Checks and records the data part of a response without error. */
    method Settle(e: Inflight, rdata: Word)
      requires Valid() && e.req.Fits() && !e.isError
      modifies `errors, ram.mem, ram.bmap
      ensures errors >= old(errors)
      ensures errors == old(errors) <==>
        && (e.req.kind.StoreConditional? ==> StatusMatches(e, e.isAtomic && scIsAtomic, rdata))
        && (Reads(e.req.kind) ==> DataMatches(e, rdata))
      ensures ram.Cells() == CellsAfterResp(e, scIsAtomic, rdata, old(ram.Cells()))
    {
      match e.req.kind {
        case Store =>
        case StoreConditional =>
          FinishSc(e, rdata);
        case Atomic(_) =>
          CheckData(e, rdata);
          ApplyAmo(e.req, rdata);
        case _ =>
          CheckData(e, rdata);
          FillUnset(e.req, rdata);
      }
    }

    /** A core response. It is dropped when its ID or its error flag is not the expected one;
        otherwise the request leaves the table and its ID is released. */
    method CoreResp(id: nat, error: bool, rdata: Word)
      requires Valid() && pool.Valid() && (id in inflight ==> inflight[id].req.Fits())
      modifies this, ram.mem, ram.bmap, pool
      ensures pool.Valid()
      ensures id !in old(inflight) ==> errors == old(errors) + 1
      ensures id in old(inflight) ==>
        var e := old(inflight)[id];
        errors == old(errors) <==> Accepts(e, old(scIsAtomic), error, rdata)
      ensures
        if id in old(inflight) && (old(inflight)[id].req.kind.Store? || error == old(inflight)[id].isError) then
          && ram.Cells() == CellsAfterResp(old(inflight)[id], old(scIsAtomic), rdata, old(ram.Cells()))
          && inflight == old(inflight) - {id}
          && pool.ids == Remove(old(pool.ids), id)
          && pool.unused == old(pool.unused) + (if id in old(pool.ids) then 0 else 1)
        else
          && ram.Cells() == old(ram.Cells()) && inflight == old(inflight)
          && pool.ids == old(pool.ids) && pool.unused == old(pool.unused)
      ensures reservation == old(reservation) && amoFifo == old(amoFifo) && scIsAtomic == old(scIsAtomic)
      ensures memReads == old(memReads) && memWrites == old(memWrites) && duplicates == old(duplicates)
    {
      if id !in inflight {
        errors := errors + 1;
        return;
      }
      var e := inflight[id];
      if !e.req.kind.Store? && error != e.isError {
        errors := errors + 1;
        return;
      }
      if !e.isError {
        Settle(e, rdata);
      }
      inflight := inflight - {id};
      pool.Deallocate(id);
    }
  }

  method Mismatches(rv: ByteEnable, expected: Word, received: Word, first: nat, last: nat) returns (n: nat)
    requires first <= last <= 8
    ensures n == 0 <==> forall j :: first <= j < last && rv[j] ==> received[j] == expected[j]
  {
    n := 0;
    for i := first to last
      invariant n == 0 <==> forall j :: first <= j < i && rv[j] ==> received[j] == expected[j]
    {
      if rv[i] && received[i] != expected[i] {
        n := n + 1;
      }
    }
  }

  lemma OffsetInSlot(addr: nat, i: nat, size: nat)
    requires size > 0 && size % 8 == 0 && i < 8
    ensures (addr - addr % 8 + i) % size == Slot(addr, size) + i
  {
    var base := addr - addr % 8;
    SlotAligned(addr, size);
    QuotientUnique(base + i, size, base / size, base % size + i);
  }

  // ---------------------------------------------------------------------------------------------
  // What the scoreboard detects
  // ---------------------------------------------------------------------------------------------

  /** The bytes accessed are those of the request's address range. */
  lemma AccessMeaning(q: Req, i: nat)
    ensures InAccess(q, i) <==> Within(8 * (q.addr / 8) + i, q.addr, q.addr + q.bytes)
  {
    Division(q.addr, 8);
  }

  /** A response with another error flag than the expected one is reported, except for stores. */
  lemma DetectsErrorFlag(e: Inflight, sc: bool, error: bool, rdata: Word)
    requires !e.req.kind.Store? && error != e.isError
    ensures !Accepts(e, sc, error, rdata)
  {
  }

  /** A byte that the shadow RAM knew, and that the response gives otherwise, is reported. */
  lemma DetectsWrongByte(e: Inflight, c: Cells8, sc: bool, error: bool, rdata: Word, a: nat)
    requires (e.req.kind.Load? || e.req.kind.LoadReserved? || e.req.kind.Atomic?) && !e.isError
    requires Reports(e.rdata, e.rv, c) && a / 8 == e.req.addr / 8 && Within(a, e.req.addr, e.req.addr + e.req.bytes)
    requires c[a % 8].Known? && rdata[a % 8] != c[a % 8].value
    ensures !Accepts(e, sc, error, rdata)
  {
    AccessMeaning(e.req, a % 8);
    Division(a, 8);
  }

  /** The status of a store-conditional must be 0 if it was forwarded and atomic, and 1 otherwise. */
  lemma DetectsWrongStatus(e: Inflight, sc: bool, error: bool, rdata: Word)
    requires e.req.kind.StoreConditional? && !e.isError && (e.req.bytes == 4 || e.req.bytes == 8)
    requires Number(rdata[..e.req.bytes]) != if e.isAtomic && sc then 0 else 1
    ensures !Accepts(e, sc, error, rdata)
  {
    WordNumber(rdata);
    assert rdata[..8] == rdata;
  }

  /** Nothing else is reported. */
  lemma AcceptsOthers(e: Inflight, c: Cells8, sc: bool, error: bool, rdata: Word)
    requires e.req.kind.Store? || error == e.isError
    requires !e.isError && e.req.kind.StoreConditional? ==>
      (e.req.bytes == 4 || e.req.bytes == 8) && Number(rdata[..e.req.bytes]) == if e.isAtomic && sc then 0 else 1
    requires !e.isError && Reads(e.req.kind) ==> Reports(e.rdata, e.rv, c) && forall i :: 0 <= i < 8 ==>
      (Within(8 * (e.req.addr / 8) + i, e.req.addr, e.req.addr + e.req.bytes) && c[i].Known? ==> rdata[i] == c[i].value)
    ensures Accepts(e, sc, error, rdata)
  {
    WordNumber(rdata);
    assert rdata[..8] == rdata;
    forall i | 0 <= i < 8
      ensures InAccess(e.req, i) <==> Within(8 * (e.req.addr / 8) + i, e.req.addr, e.req.addr + e.req.bytes)
    {
      AccessMeaning(e.req, i);
    }
  }
}
