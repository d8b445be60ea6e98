/**
 Core requests, error regions, and the scoreboard's load-reserved / store-conditional reservation
 with its meaning over whole request traces.
 */
module Requests {
  import opened Arith
  import opened Words
  import opened Amo

  datatype Kind = Load | Store | Atomic(op: AmoOp) | LoadReserved | StoreConditional

  /** A request of the 64-bit core interface. */
  datatype Req = Req(kind: Kind, addr: nat, bytes: nat, wdata: Word, be: ByteEnable, id: nat) {

    /** What the core interface demands: naturally aligned accesses of up to eight bytes, and of
        four or eight bytes for the atomic kinds. */
    predicate Legal() {
      && (bytes == 1 || (bytes == 2 && addr % 2 == 0) || (bytes == 4 && addr % 4 == 0)
          || (bytes == 8 && addr % 8 == 0))
      && (kind.Load? || kind.Store? || bytes >= 4)
    }

    /** What the scoreboard's comparison needs: an access that reads stays inside its word. */
    predicate Fits() {
      kind.Load? || kind.LoadReserved? || kind.Atomic? ==> addr % 8 + bytes <= 8
    }

    /** Address of the eight-byte word accessed. */
    function Word(): nat {
      addr / 8
    }

    predicate Writes() {
      kind.Store? || kind.Atomic? || kind.StoreConditional?
    }
  }

  /** Naturally aligned accesses stay inside their word. */
  lemma OffsetBounds(a: nat)
    ensures a % 2 == 0 ==> a % 8 <= 6
    ensures a % 4 == 0 ==> a % 8 <= 4
  {
    var k, r := a / 8, a % 8;
    if r == 7 {
      QuotientUnique(a, 2, 4 * k + 3, 1);
    }
    if r > 4 {
      QuotientUnique(a, 4, 2 * k + 1, r - 4);
    }
  }

  lemma LegalFits(q: Req)
    requires q.Legal()
    ensures q.Fits()
  {
    OffsetBounds(q.addr);
  }

  // ---------------------------------------------------------------------------------------------
  // Error regions
  // ---------------------------------------------------------------------------------------------

  datatype Region = Region(base: nat, end: nat, error: bool)

  predicate Overlaps(base0: nat, end0: nat, base1: nat, end1: nat) {
    end0 > base1 && base0 < end1
  }

  predicate Within(a: nat, base: nat, end: nat) {
    base <= a < end
  }

  /** The request accesses byte address `a`. */
  predicate Touches(q: Req, a: nat) {
    Within(a, q.addr, q.addr + q.bytes)
  }

  /** Two non-empty ranges overlap exactly when some address is in both. */
  lemma OverlapMeaning(base0: nat, end0: nat, base1: nat, end1: nat)
    requires base0 < end0 && base1 < end1
    ensures Overlaps(base0, end0, base1, end1) <==> exists a :: Within(a, base0, end0) && Within(a, base1, end1)
  {
    if Overlaps(base0, end0, base1, end1) {
      var a := if base0 < base1 then base1 else base0;
      assert Within(a, base0, end0) && Within(a, base1, end1);
    }
  }

  /** The first region that overlaps the access decides. */
  function InError(regions: seq<Region>, base: nat, end: nat): bool {
    if |regions| == 0 then false
    else if Overlaps(regions[0].base, regions[0].end, base, end) then regions[0].error
    else InError(regions[1..], base, end)
  }

  /** Region `k` is the first that overlaps the access. */
  ghost predicate DecidedBy(regions: seq<Region>, base: nat, end: nat, k: nat)
    requires k < |regions|
  {
    && Overlaps(regions[k].base, regions[k].end, base, end)
    && forall j :: 0 <= j < k ==> !Overlaps(regions[j].base, regions[j].end, base, end)
  }

  /** An access faults exactly when the first region that overlaps it is an error region. */
  lemma {:induction false} InErrorMeaning(regions: seq<Region>, base: nat, end: nat)
    ensures InError(regions, base, end)
       <==> exists k :: 0 <= k < |regions| && DecidedBy(regions, base, end, k) && regions[k].error
  {
    if |regions| > 0 && !Overlaps(regions[0].base, regions[0].end, base, end) {
      var rest := regions[1..];
      InErrorMeaning(rest, base, end);
      if InError(rest, base, end) {
        var k :| 0 <= k < |rest| && DecidedBy(rest, base, end, k) && rest[k].error;
        assert DecidedBy(regions, base, end, k + 1) by {
          forall j | 0 <= j < k + 1
            ensures !Overlaps(regions[j].base, regions[j].end, base, end)
          {
            assert j > 0 ==> regions[j] == rest[j - 1];
          }
        }
      }
      if k :| 0 <= k < |regions| && DecidedBy(regions, base, end, k) && regions[k].error {
        assert DecidedBy(rest, base, end, k - 1);
      }
    } else if |regions| > 0 {
      assert DecidedBy(regions, base, end, 0);
    }
  }

  predicate Faults(regions: seq<Region>, q: Req) {
    InError(regions, q.addr, q.addr + q.bytes)
  }

  method WithinErrorRegion(regions: seq<Region>, base: nat, end: nat) returns (error: bool)
    ensures error == InError(regions, base, end)
  {
    for i := 0 to |regions|
      invariant InError(regions, base, end) == InError(regions[i..], base, end)
    {
      if Overlaps(regions[i].base, regions[i].end, base, end) {
        return regions[i].error;
      }
      assert regions[i..][1..] == regions[i + 1..];
    }
    error := false;
  }

  // ---------------------------------------------------------------------------------------------
  // The reservation
  // ---------------------------------------------------------------------------------------------

  datatype Reservation = Reservation(valid: bool, base: nat)

  const NONE := Reservation(false, 0)

  predicate Matches(r: Reservation, q: Req) {
    r.valid && q.Word() == r.base / 8
  }

  /** The reservation buffer after a request. */
  function Reserve(regions: seq<Region>, r: Reservation, q: Req): Reservation {
    match q.kind
    case LoadReserved => if Faults(regions, q) then r.(valid := false) else Reservation(true, q.addr)
    case StoreConditional => r.(valid := false)
    case Store => if Matches(r, q) then r.(valid := false) else r
    case Atomic(_) => if Matches(r, q) then r.(valid := false) else r
    case Load => r
  }

  function ReservationAfter(regions: seq<Region>, trace: seq<Req>): Reservation {
    if |trace| == 0 then NONE
    else Reserve(regions, ReservationAfter(regions, trace[..|trace| - 1]), trace[|trace| - 1])
  }

  /** Request `q` ends a reservation of word `w`. */
  predicate Ends(q: Req, w: nat) {
    q.kind.StoreConditional? || ((q.kind.Store? || q.kind.Atomic?) && q.Word() == w)
  }

  /** The latest load-reserved of the trace is request `k`, it did not fault, it was for word `w`,
      and no later request ended its reservation. */
  ghost predicate Reserved(regions: seq<Region>, trace: seq<Req>, k: nat, w: nat)
    requires k < |trace|
  {
    && trace[k].kind.LoadReserved? && !Faults(regions, trace[k]) && trace[k].Word() == w
    && forall j :: k < j < |trace| ==> !trace[j].kind.LoadReserved? && !Ends(trace[j], w)
  }

  ghost predicate HoldsReservation(regions: seq<Region>, trace: seq<Req>, w: nat) {
    exists k :: 0 <= k < |trace| && Reserved(regions, trace, k, w)
  }

  /** One more request keeps a reservation exactly when it is not a load-reserved and does not end
      it, and makes one exactly when it is a load-reserved of that word that does not fault. */
  lemma HoldsStep(regions: seq<Region>, trace: seq<Req>, q: Req, w: nat)
    ensures HoldsReservation(regions, trace + [q], w)
       <==> if q.kind.LoadReserved? then !Faults(regions, q) && q.Word() == w
            else HoldsReservation(regions, trace, w) && !Ends(q, w)
  {
    var more := trace + [q];
    if HoldsReservation(regions, more, w) {
      var k :| 0 <= k < |more| && Reserved(regions, more, k, w);
      if k < |trace| {
        assert more[|trace|] == q;
        assert forall j :: 0 <= j < |trace| ==> more[j] == trace[j];
        assert Reserved(regions, trace, k, w);
      }
    }
    if q.kind.LoadReserved? && !Faults(regions, q) && q.Word() == w {
      assert Reserved(regions, more, |trace|, w);
    }
    if !q.kind.LoadReserved? && HoldsReservation(regions, trace, w) && !Ends(q, w) {
      var k :| 0 <= k < |trace| && Reserved(regions, trace, k, w);
      assert forall j :: 0 <= j < |trace| ==> more[j] == trace[j];
      assert Reserved(regions, more, k, w);
    }
  }

  /** Over every trace, a store-conditional may succeed exactly when the latest load-reserved did
      not fault, was for the same word, and has since seen no store-conditional and no store or
      atomic operation on that word. */
  lemma {:induction false} ReservationMeaning(regions: seq<Region>, trace: seq<Req>, sc: Req)
    ensures Matches(ReservationAfter(regions, trace), sc) <==> HoldsReservation(regions, trace, sc.Word())
  {
    if |trace| > 0 {
      var m := |trace| - 1;
      ReservationMeaning(regions, trace[..m], sc);
      HoldsStep(regions, trace[..m], trace[m], sc.Word());
      assert trace == trace[..m] + [trace[m]];
    }
  }
}
