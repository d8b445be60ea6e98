/**
 The traffic of transaction IDs between the test sequence, which allocates them, and the scoreboard,
 which follows them and releases them, with any number of requests in flight: every operation of
 the two is a step of the machine of module IdPool.
 */
module IdFlow {
  import opened Words
  import opened Requests
  import opened IdPool
  import opened MemResponse
  import opened Scoreboard

  predicate AllFit(table: map<nat, Inflight>) {
    forall id :: id in table ==> table[id].req.Fits()
  }

  class Flow {
    const board: Board
    ghost var waiting: set<nat>      // allocated, not yet seen by the scoreboard
    ghost var lost: set<nat>         // dropped by the scoreboard
    ghost var steps: seq<Step>       // everything that happened so far

    ghost function Repr(): set<object> {
      {this, board, board.pool, board.ram.mem, board.ram.bmap}
    }

    ghost function Ids(): State
      reads this, board, board.pool
    {
      State(board.pool.ids, waiting, board.inflight.Keys, lost, board.duplicates > 0, board.pool.unused > 0)
    }

    /** The IDs are where the steps so far lead to. */
    ghost predicate Valid()
      reads this, board, board.pool
    {
      && board.Valid() && AllFit(board.inflight)
      && Run(board.pool.max, steps) && Ids() == After(steps)
    }

    constructor (regions: seq<Region>, blocks: nat, maxIds: nat)
      requires blocks > 0
      ensures Valid() && steps == []
    {
      board := new Board(regions, blocks, maxIds);
      waiting, lost, steps := {}, {}, [];
    }

    /** In every state, no ID error was reported, held IDs are distinct and in range, and every key of
        the table is a held ID. */
    lemma Sound()
      requires Valid()
      ensures Consistent(board.pool.max, Ids()) && board.pool.Valid()
      ensures board.duplicates == 0 && board.pool.unused == 0
      ensures forall id :: id in board.inflight ==> id in board.pool.ids
    {
      EveryRunConsistent(board.pool.max, steps);
    }

    /** The sequence allocates an ID for its next transaction. */
    method Allocate(draw: nat) returns (id: nat)
      requires Valid() && board.pool.Available()
      modifies Repr()
      ensures Valid() && steps == old(steps) + [Allocated(id)]
    {
      Sound();
      id := board.pool.Allocate(draw);
      RunExtend(board.pool.max, steps, Allocated(id));
      waiting, steps := waiting + {id}, steps + [Allocated(id)];
    }

    /** The effect of a request on the table. */
    method Admit(q: Req) returns (ghost fate: Fate)
      requires board.Valid() && AllFit(board.inflight) && q.Fits() && q.id !in board.inflight
      modifies board, board.ram.mem, board.ram.bmap
      ensures AllFit(board.inflight) && board.duplicates == old(board.duplicates)
      ensures fate == if q.id in board.inflight then Tracked else Dropped
      ensures board.inflight.Keys == old(board.inflight.Keys) + if fate.Tracked? then {q.id} else {}
      ensures fate.Dropped? ==> |old(board.amoFifo)| >= AMO_FIFO_DEPTH
    {
      ghost var table := board.inflight;
      ghost var e := board.CoreReq(q);
      fate := if q.id in board.inflight then Tracked else Dropped;
      assert board.inflight == if fate.Tracked? then table[q.id := e] else table;
    }

    /** The scoreboard sees a request, which carries an allocated ID. */
    method Request(q: Req) returns (ghost fate: Fate)
      requires Valid() && q.id in waiting && q.Fits()
      modifies Repr()
      ensures Valid() && steps == old(steps) + [Requested(q.id, fate)]
      ensures fate == if q.id in board.inflight then Tracked else Dropped
      ensures fate.Dropped? ==> |old(board.amoFifo)| >= AMO_FIFO_DEPTH
    {
      Sound();
      fate := Admit(q);
      RunExtend(board.pool.max, steps, Requested(q.id, fate));
      lost := if fate.Dropped? then lost + {q.id} else lost;
      waiting, steps := waiting - {q.id}, steps + [Requested(q.id, fate)];
    }

    /** The scoreboard sees a cache maintenance request that needs no response. */
    method RequestCmo(id: nat)
      requires Valid() && id in waiting
      modifies Repr()
      ensures Valid() && steps == old(steps) + [Requested(id, Released)]
    {
      Sound();
      board.CoreCmo(id);
      RunExtend(board.pool.max, steps, Requested(id, Released));
      waiting, steps := waiting - {id}, steps + [Requested(id, Released)];
    }

    /** The scoreboard sees the memory interface: requests and responses of any ID and kind, in any
        order. They drain the FIFO of atomic requests, and touch no core transaction ID. */
    method MemReadReq(id: nat, exclusive: bool)
      requires Valid()
      modifies board
      ensures Valid() && board.amoFifo == old(MemPopped(board.memReads, id, exclusive))
    {
      board.MemReadReq(id, exclusive);
    }

    method MemReadResp(id: nat, last: bool)
      requires Valid()
      modifies board
      ensures Valid()
    {
      board.MemReadResp(id, last);
    }

    method MemWriteReq(id: nat, kind: WriteKind)
      requires Valid()
      modifies board
      ensures Valid() && board.amoFifo == old(MemPopped(board.memWrites, id, !kind.Plain?))
    {
      board.MemWriteReq(id, kind);
    }

    method MemWriteResp(id: nat, isAtomic: bool)
      requires Valid()
      modifies board
      ensures Valid()
    {
      board.MemWriteResp(id, isAtomic);
    }

    /** The FIFO of atomic requests after a memory request: an atomic one with a new ID takes the
        oldest entry. */
    ghost function MemPopped(pending: set<nat>, id: nat, atomic: bool): seq<Inflight>
      reads board
    {
      if atomic && id !in pending then Tail(board.amoFifo) else board.amoFifo
    }

    /** The effect of a response on the IDs. */
    method Deliver(id: nat, error: bool, rdata: Word) returns (ghost accepted: bool)
      requires board.Valid() && board.pool.Valid() && AllFit(board.inflight)
      modifies board, board.pool, board.ram.mem, board.ram.bmap
      ensures AllFit(board.inflight) && (accepted ==> id in old(board.inflight))
      ensures Ids() == Next(old(Ids()), Responded(id, accepted))
    {
      ghost var table := board.inflight;
      accepted := id in table && (table[id].req.kind.Store? || error == table[id].isError);
      board.CoreResp(id, error, rdata);
      assert board.inflight == if accepted then table - {id} else table;
    }

    /** The scoreboard sees a response, whatever its ID, its error flag and its data. */
    method Respond(id: nat, error: bool, rdata: Word) returns (ghost accepted: bool)
      requires Valid()
      modifies Repr()
      ensures Valid() && steps == old(steps) + [Responded(id, accepted)]
    {
      Sound();
      accepted := Deliver(id, error, rdata);
      RunExtend(board.pool.max, steps, Responded(id, accepted));
      steps := steps + [Responded(id, accepted)];
    }
  }
}
