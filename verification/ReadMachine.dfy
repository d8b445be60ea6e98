/**
 The read adapter as a state machine, one step per clock edge, with its metadata FIFO as a queue:
 the specification that the registers of module ReadAdapter are proved against, and the guarantees
 over every run of an AXI slave that answers in order.
 */
module ReadMachine {
  import opened Bits
  import opened AxiBurst
  import opened Runs

  datatype Req = Req(id: nat, addr: nat, size: MemSize)
  datatype Ar = Ar(id: nat, addr: nat, len: nat, size: nat)
  datatype RBeat = RBeat(id: nat, data: nat, resp: RespCode, last: bool)
  datatype Resp = Resp(id: nat, line: Words, error: bool)

  /** What the environment drives in one cycle. */
  datatype In = In(reqValid: bool, req: Req, arReady: bool, rValid: bool, r: RBeat, respReady: bool)

  datatype Meta = Meta(isUc: bool, wordIdx: nat)
  datatype State = State(queue: seq<Meta>, deliver: bool, line: Words, error: bool, id: nat)

  /** A bus word shifted up to word `k` of an otherwise zero line. */
  function OneWord(n: nat, k: nat, data: nat): (r: Words)
    ensures |r| == n
  {
    seq(n, i => if i == k then data else 0)
  }

  function Reset(c: Config): State {
    State([], false, Zeros(c.words), false, 0)
  }

  // ---------------------------------------------------------------------------------------------
  // Combinational outputs and one clock edge
  // ---------------------------------------------------------------------------------------------

  predicate Full(c: Config, s: State) {
    |s.queue| + 1 == c.depth
  }

  function ArOf(c: Config, q: Req): Ar {
    Ar(q.id, q.addr, AxiLen(c, q.size), AxiSize(c, q.size))
  }

  function MetaOf(c: Config, q: Req): Meta
    requires c.Ok()
  {
    Meta(IsUncached(c, q.size), WordIndex(c, q.addr))
  }

  /** AR handshake on the bus: the valid signal is not gated by the FIFO. */
  predicate ArFire(i: In) {
    i.reqValid && i.arReady
  }

  /** Handshake with the cache, which also pushes the metadata. */
  predicate ReqFire(c: Config, s: State, i: In) {
    i.reqValid && i.arReady && !Full(c, s)
  }

  predicate RFire(s: State, i: In) {
    !s.deliver && i.rValid
  }

  predicate RespFire(s: State, i: In) {
    s.deliver && i.respReady
  }

  predicate IsError(b: RBeat) {
    b.resp.SlvErr? || b.resp.DecErr?
  }

  /** The line register after a beat: an uncached beat goes to its word of a zero line, a cached
      one is shifted in at the top. */
  function NextLine(m: Meta, line: Words, data: nat): Words {
    if m.isUc then OneWord(|line|, m.wordIdx, data)
    else if line == [] then [] else line[1..] + [data]
  }

  function NextQueue(c: Config, s: State, i: In): seq<Meta>
    requires c.Ok()
  {
    (if RFire(s, i) && i.r.last && s.queue != [] then s.queue[1..] else s.queue)
    + (if ReqFire(c, s, i) then [MetaOf(c, i.req)] else [])
  }

  /** The assembly registers at a clock edge, under the metadata `m`. */
  function Assemble(c: Config, s: State, i: In, m: Meta): State {
    if RFire(s, i) then
      State(s.queue, i.r.last, NextLine(m, s.line, i.r.data), s.error || IsError(i.r),
            if i.r.last then i.r.id else s.id)
    else if RespFire(s, i) then State(s.queue, false, Zeros(c.words), false, s.id)
    else s
  }

  /** One clock edge. Without an outstanding burst (which the slave must not do) a beat is taken under
      stale metadata, which the queue does not hold; the machine then treats it as cached. */
  function Step(c: Config, s: State, i: In): State
    requires c.Ok()
  {
    var m := if s.queue == [] then Meta(false, 0) else s.queue[0];
    Assemble(c, s, i, m).(queue := NextQueue(c, s, i))
  }

  // ---------------------------------------------------------------------------------------------
  // Runs
  // ---------------------------------------------------------------------------------------------

  /** Everything that crossed the interfaces: accepted requests, AR handshakes, completed bursts,
      beats of the burst being received, responses taken by the cache. */
  datatype Log = Log(
    reqs: seq<Req>, ars: seq<Ar>, bursts: seq<seq<RBeat>>, current: seq<RBeat>, resps: seq<Resp>)

  datatype Run = Run(s: State, l: Log)

  function Record(c: Config, s: State, l: Log, i: In): Log {
    var cur := l.current + if RFire(s, i) then [i.r] else [];
    var done := RFire(s, i) && i.r.last;
    Log(
      l.reqs + (if ReqFire(c, s, i) then [i.req] else []),
      l.ars + (if ArFire(i) then [ArOf(c, i.req)] else []),
      l.bursts + (if done then [cur] else []),
      if done then [] else cur,
      l.resps + (if RespFire(s, i) then [Resp(s.id, s.line, s.error)] else []))
  }

  function RunOf(c: Config, ins: seq<In>): Run
    requires c.Ok()
  {
    if |ins| == 0 then Run(Reset(c), Log([], [], [], [], []))
    else
      var r := RunOf(c, ins[..|ins| - 1]);
      Run(Step(c, r.s, ins[|ins| - 1]), Record(c, r.s, r.l, ins[|ins| - 1]))
  }

  function Next(c: Config, r: Run, i: In): Run
    requires c.Ok()
  {
    Run(Step(c, r.s, i), Record(c, r.s, r.l, i))
  }

  /** The environment: no AR handshake while the metadata FIFO is full, and a slave that answers
      the ARs in order, each with its ID and its number of beats. */
  ghost predicate EnvOk(c: Config, s: State, l: Log, i: In) {
    && (ArFire(i) ==> !Full(c, s))
    && (RFire(s, i) ==>
      && |l.bursts| < |l.ars|
      && var ar := l.ars[|l.bursts|];
         i.r.id == ar.id && (i.r.last <==> |l.current| == ar.len))
  }

  ghost predicate Obeys(c: Config, ins: seq<In>)
    requires c.Ok()
  {
    forall k :: 0 <= k < |ins| ==>
      EnvOk(c, RunOf(c, ins[..k]).s, RunOf(c, ins[..k]).l, ins[k])
  }

  // ---------------------------------------------------------------------------------------------
  // What should be delivered
  // ---------------------------------------------------------------------------------------------

  function Datas(beats: seq<RBeat>): (d: Words)
    ensures |d| == |beats|
  {
    seq(|beats|, i requires 0 <= i < |beats| => beats[i].data)
  }

  predicate SomeError(beats: seq<RBeat>) {
    exists i :: 0 <= i < |beats| && IsError(beats[i])
  }

  /** The line left in the register by a burst: cached beats end up in the top words. */
  function LineOf(c: Config, m: Meta, d: Words): Words {
    if m.isUc && |d| >= 1 then OneWord(c.words, m.wordIdx, d[|d| - 1])
    else (Zeros(c.words) + d)[|d|..]
  }

  function RespOf(c: Config, q: Req, beats: seq<RBeat>): Resp
    requires c.Ok()
  {
    Resp(q.id, LineOf(c, MetaOf(c, q), Datas(beats)), SomeError(beats))
  }

  // ---------------------------------------------------------------------------------------------
  // The invariant of every run
  // ---------------------------------------------------------------------------------------------

  /** Every AR on the bus is an accepted request, and the queue holds the metadata of exactly the
      requests whose bursts are not complete: its head belongs to the burst being received. */
  ghost predicate Tracks(c: Config, s: State, l: Log)
    requires c.Ok()
  {
    && |l.ars| == |l.reqs| == |l.bursts| + |s.queue|
    && |s.queue| < c.depth
    && (forall k :: 0 <= k < |l.reqs| ==> l.ars[k] == ArOf(c, l.reqs[k]))
    && (forall k :: 0 <= k < |s.queue| ==> s.queue[k] == MetaOf(c, l.reqs[|l.bursts| + k]))
  }

  /** The beats received of the current burst are in the line and error registers. */
  ghost predicate Assembles(c: Config, s: State, l: Log)
    requires c.Ok()
  {
    !s.deliver ==>
      && |l.resps| == |l.bursts|
      && (l.current != [] ==>
        s.queue != [] && |l.bursts| < |l.reqs| && |l.current| < Beats(c, l.reqs[|l.bursts|].size))
      && s.line == (if s.queue == [] then Zeros(c.words) else LineOf(c, s.queue[0], Datas(l.current)))
      && s.error == SomeError(l.current)
  }

  /** While delivering, the registers hold the response of the last complete burst. */
  ghost predicate Delivers(c: Config, s: State, l: Log)
    requires c.Ok()
  {
    s.deliver ==>
      && l.current == []
      && |l.bursts| == |l.resps| + 1 <= |l.reqs|
      && Resp(s.id, s.line, s.error) == RespOf(c, l.reqs[|l.resps|], l.bursts[|l.resps|])
  }

  /** Bursts are complete, and every response so far is that of its request and burst. */
  ghost predicate Answers(c: Config, l: Log)
    requires c.Ok()
  {
    && |l.resps| <= |l.bursts| <= |l.reqs|
    && (forall k :: 0 <= k < |l.bursts| ==> |l.bursts[k]| == Beats(c, l.reqs[k].size))
    && (forall k :: 0 <= k < |l.resps| ==> l.resps[k] == RespOf(c, l.reqs[k], l.bursts[k]))
  }

  ghost predicate Correct(c: Config, r: Run)
    requires c.Ok()
  {
    Tracks(c, r.s, r.l) && Assembles(c, r.s, r.l) && Delivers(c, r.s, r.l) && Answers(c, r.l)
  }

  // ---------------------------------------------------------------------------------------------
  // Steps keep it
  // ---------------------------------------------------------------------------------------------

  lemma TracksStep(c: Config, s: State, l: Log, i: In)
    requires c.Ok() && Tracks(c, s, l) && EnvOk(c, s, l, i)
    ensures Tracks(c, Step(c, s, i), Record(c, s, l, i))
  {
    var s', l' := Step(c, s, i), Record(c, s, l, i);
    forall k | 0 <= k < |s'.queue|
      ensures s'.queue[k] == MetaOf(c, l'.reqs[|l'.bursts| + k])
    {
      if RFire(s, i) && i.r.last && k + 1 < |s.queue| {
        assert s'.queue[k] == s.queue[k + 1];
      }
    }
  }

  /** One more beat in the line register. */
  lemma LineStep(c: Config, m: Meta, d: Words, x: nat)
    requires c.Ok() && (m.isUc ==> d == [])
    ensures NextLine(m, LineOf(c, m, d), x) == LineOf(c, m, d + [x])
  {
    if !m.isUc {
      assert (Zeros(c.words) + d)[|d|..][1..] + [x] == (Zeros(c.words) + (d + [x]))[|d| + 1..];
    }
  }

  lemma BeatStep(c: Config, beats: seq<RBeat>, b: RBeat)
    ensures Datas(beats + [b]) == Datas(beats) + [b.data]
    ensures SomeError(beats + [b]) <==> SomeError(beats) || IsError(b)
  {
    var more := beats + [b];
    if SomeError(beats) {
      var k :| 0 <= k < |beats| && IsError(beats[k]);
      assert IsError(more[k]);
    }
    if IsError(b) {
      assert IsError(more[|beats|]);
    }
  }

  /** An accepted beat extends the burst that the head of the queue belongs to. */
  lemma ReceiveStep(c: Config, s: State, l: Log, i: In)
    requires c.Ok() && Tracks(c, s, l) && Assembles(c, s, l) && EnvOk(c, s, l, i) && RFire(s, i)
    ensures s.queue != [] && s.queue[0] == MetaOf(c, l.reqs[|l.bursts|])
    ensures i.r.id == l.reqs[|l.bursts|].id
    ensures i.r.last <==> |l.current| + 1 == Beats(c, l.reqs[|l.bursts|].size)
    ensures Step(c, s, i).line == LineOf(c, s.queue[0], Datas(l.current + [i.r]))
    ensures Step(c, s, i).error == SomeError(l.current + [i.r])
  {
    var q := l.reqs[|l.bursts|];
    BurstCoversTransfer(c, q.size);
    BeatStep(c, l.current, i.r);
    assert l.ars[|l.bursts|] == ArOf(c, q);
    assert s.queue[0] == MetaOf(c, l.reqs[|l.bursts| + 0]);
    LineStep(c, s.queue[0], Datas(l.current), i.r.data);
  }

  lemma AssemblesStep(c: Config, s: State, l: Log, i: In)
    requires c.Ok() && Tracks(c, s, l) && Assembles(c, s, l) && Delivers(c, s, l) && EnvOk(c, s, l, i)
    ensures Assembles(c, Step(c, s, i), Record(c, s, l, i))
  {
    var s', l' := Step(c, s, i), Record(c, s, l, i);
    if RFire(s, i) {
      ReceiveStep(c, s, l, i);
      if !i.r.last {
        assert s'.queue[0] == s.queue[0] && l'.current == l.current + [i.r];
      }
    } else {
      assert l'.current == l.current;
      assert LineOf(c, Meta(false, 0), []) == Zeros(c.words);
      if s.queue == [] && s'.queue != [] {
        assert Zeros(c.words) + [] == Zeros(c.words);
      }
    }
  }

  lemma DeliversStep(c: Config, s: State, l: Log, i: In)
    requires c.Ok() && Tracks(c, s, l) && Assembles(c, s, l) && Delivers(c, s, l) && EnvOk(c, s, l, i)
    ensures Delivers(c, Step(c, s, i), Record(c, s, l, i))
  {
    if RFire(s, i) {
      ReceiveStep(c, s, l, i);
    }
  }

  /** One more burst, of the right number of beats. */
  lemma BurstAnswers(c: Config, l: Log, burst: seq<RBeat>)
    requires c.Ok() && Answers(c, l) && |l.bursts| < |l.reqs|
    requires |burst| == Beats(c, l.reqs[|l.bursts|].size)
    ensures Answers(c, l.(bursts := l.bursts + [burst]))
  {
  }

  /** One more response, that of the next burst. */
  lemma RespAnswers(c: Config, l: Log)
    requires c.Ok() && Answers(c, l) && |l.resps| < |l.bursts|
    ensures Answers(c, l.(resps := l.resps + [RespOf(c, l.reqs[|l.resps|], l.bursts[|l.resps|])]))
  {
  }

  /** More requests do not matter. */
  lemma ReqAnswers(c: Config, l: Log, l': Log)
    requires c.Ok() && Answers(c, l) && l'.bursts == l.bursts && l'.resps == l.resps && l.reqs <= l'.reqs
    ensures Answers(c, l')
  {
  }

  lemma AnswersStep(c: Config, s: State, l: Log, i: In)
    requires c.Ok() && Tracks(c, s, l) && Assembles(c, s, l) && Delivers(c, s, l) && Answers(c, l)
    requires EnvOk(c, s, l, i)
    ensures Answers(c, Record(c, s, l, i))
  {
    var l' := Record(c, s, l, i);
    if RFire(s, i) && i.r.last {
      ReceiveStep(c, s, l, i);
      BurstAnswers(c, l, l.current + [i.r]);
      ReqAnswers(c, l.(bursts := l.bursts + [l.current + [i.r]]), l');
    } else if RespFire(s, i) {
      RespAnswers(c, l);
      ReqAnswers(c, l.(resps := l.resps + [RespOf(c, l.reqs[|l.resps|], l.bursts[|l.resps|])]), l');
    } else {
      ReqAnswers(c, l, l');
    }
  }

  /** Against every slave that answers in order, and under any back-pressure: each response carries
      the ID, the line and the error flag of its own burst. */
  lemma {:induction false} EveryRunCorrect(c: Config, ins: seq<In>)
    requires c.Ok() && Obeys(c, ins)
    ensures Correct(c, RunOf(c, ins))
  {
    if |ins| == 0 {
    } else {
      var m := |ins| - 1;
      var before := ins[..m];
      forall k | 0 <= k < m
        ensures EnvOk(c, RunOf(c, before[..k]).s, RunOf(c, before[..k]).l, before[k])
      {
        assert before[..k] == ins[..k] && before[k] == ins[k];
      }
      EveryRunCorrect(c, before);
      var r := RunOf(c, before);
      TracksStep(c, r.s, r.l, ins[m]);
      AssemblesStep(c, r.s, r.l, ins[m]);
      DeliversStep(c, r.s, r.l, ins[m]);
      AnswersStep(c, r.s, r.l, ins[m]);
    }
  }

  /** The response that the registers hold. */
  function Offered(s: State): Resp {
    Resp(s.id, s.line, s.error)
  }

  /** `r'` still offers the response that `r` does. */
  predicate StillOffers(r: Run, r': Run) {
    r'.s.deliver && Offered(r'.s) == Offered(r.s) && r'.l.resps == r.l.resps
  }

  lemma HoldStep(c: Config, r: Run, i: In)
    requires c.Ok() && r.s.deliver && !i.respReady
    ensures StillOffers(r, Run(Step(c, r.s, i), Record(c, r.s, r.l, i)))
  {
  }

  lemma HoldsOver(c: Config, ins: seq<In>, more: seq<In>)
    requires c.Ok() && RunOf(c, ins).s.deliver
    requires forall k :: 0 <= k < |more| ==> !more[k].respReady
    ensures StillOffers(RunOf(c, ins), RunOf(c, ins + more))
  {
    var r := RunOf(c, ins);
    var run := (xs: seq<In>) => RunOf(c, xs);
    var next := (r': Run, i: In) => Next(c, r', i);
    var inv := (r': Run) => StillOffers(r, r');
    var ok := (i: In) => !i.respReady;
    forall ys, i
      ensures FoldsAt(run, next, ys, i)
    {
      RunStep(c, ys, i);
    }
    forall r': Run, i: In
      ensures Keeps(next, inv, ok, r', i)
    {
      if inv(r') && ok(i) {
        HoldStep(c, r', i);
      }
    }
    Invariant(run, next, inv, ok, ins, more);
  }

  lemma OfferedIsNext(c: Config, r: Run)
    requires c.Ok() && Correct(c, r) && r.s.deliver
    ensures |r.l.resps| < |r.l.reqs| && |r.l.resps| < |r.l.bursts|
    ensures Offered(r.s) == RespOf(c, r.l.reqs[|r.l.resps|], r.l.bursts[|r.l.resps|])
  {
  }

  /** A response stays offered, unchanged, for as long as the cache does not take it, whatever else
      happens on the bus, and it is that of the next request and its own burst. */
  lemma ResponseHolds(c: Config, ins: seq<In>, more: seq<In>, r: Run)
    requires c.Ok() && Obeys(c, ins + more) && RunOf(c, ins).s.deliver && r == RunOf(c, ins + more)
    requires forall k :: 0 <= k < |more| ==> !more[k].respReady
    ensures StillOffers(RunOf(c, ins), r)
    ensures |r.l.resps| < |r.l.reqs| && |r.l.resps| < |r.l.bursts|
    ensures Offered(r.s) == RespOf(c, r.l.reqs[|r.l.resps|], r.l.bursts[|r.l.resps|])
  {
    HoldsOver(c, ins, more);
    EveryRunCorrect(c, ins + more);
    OfferedIsNext(c, r);
  }

  // ---------------------------------------------------------------------------------------------
  // When the line is right
  // ---------------------------------------------------------------------------------------------

  /** Words put into a zero line from word `k` on. */
  function PlacedLine(n: nat, k: nat, d: Words): (r: Words)
    ensures |r| == n
  {
    seq(n, i requires 0 <= i < n => if k <= i < k + |d| then d[i - k] else 0)
  }

  /** The line a cache expects: the words read, from the one that holds byte address `q.addr` on. */
  ghost predicate IsPlaced(c: Config, q: Req, d: Words, line: Words) {
    exists k: nat :: IsAt(c, q.addr, k) && line == PlacedLine(c.words, k, d)
  }

  lemma PlacedIf(c: Config, q: Req, d: Words)
    requires c.Ok() && |d| == Beats(c, q.size)
    requires IsUncached(c, q.size) || WordIndex(c, q.addr) + Beats(c, q.size) == c.words
    ensures IsPlaced(c, q, d, LineOf(c, MetaOf(c, q), d))
  {
    BurstCoversTransfer(c, q.size);
    IndexIsAt(c, q.addr);
    assert LineOf(c, MetaOf(c, q), d) == PlacedLine(c.words, WordIndex(c, q.addr), d);
  }

  lemma MisplacedIf(c: Config, q: Req) returns (d: Words)
    requires c.Ok() && !IsUncached(c, q.size) && WordIndex(c, q.addr) + Beats(c, q.size) != c.words
    ensures |d| == Beats(c, q.size) && !IsPlaced(c, q, d, LineOf(c, MetaOf(c, q), d))
  {
    var n, k := Beats(c, q.size), WordIndex(c, q.addr);
    d := seq(n, i => if i == n - 1 then 1 else 0);
    var line := LineOf(c, MetaOf(c, q), d);
    assert line[c.words - 1] == (Zeros(c.words) + d)[n + c.words - 1] == 1;
    assert PlacedLine(c.words, k, d)[c.words - 1] == 0;
    forall j: nat | IsAt(c, q.addr, j)
      ensures j == k
    {
      AtIsIndex(c, q.addr, j);
    }
  }

  /** The words read reach exactly the end of their line. */
  ghost predicate ReachesEnd(c: Config, q: Req) {
    exists k: nat :: IsAt(c, q.addr, k) && k + Beats(c, q.size) == c.words
  }

  lemma ReachesEndAt(c: Config, q: Req)
    requires c.Ok()
    ensures ReachesEnd(c, q) <==> WordIndex(c, q.addr) + Beats(c, q.size) == c.words
  {
    IndexIsAt(c, q.addr);
    if k: nat :| IsAt(c, q.addr, k) && k + Beats(c, q.size) == c.words {
      AtIsIndex(c, q.addr, k);
    }
  }

  /** The line register holds the words at their addressed place, whatever they are, exactly when
      the read is uncached or its words reach the end of the line. */
  lemma PlacedExactly(c: Config, q: Req)
    requires c.Ok()
    ensures (forall d: Words :: |d| == Beats(c, q.size) ==> IsPlaced(c, q, d, LineOf(c, MetaOf(c, q), d)))
       <==> IsUncached(c, q.size) || ReachesEnd(c, q)
  {
    ReachesEndAt(c, q);
    if IsUncached(c, q.size) || ReachesEnd(c, q) {
      forall d: Words | |d| == Beats(c, q.size)
        ensures IsPlaced(c, q, d, LineOf(c, MetaOf(c, q), d))
      {
        PlacedIf(c, q, d);
      }
    } else {
      var d := MisplacedIf(c, q);
    }
  }

  // ---------------------------------------------------------------------------------------------
  // The channels, field by field
  // ---------------------------------------------------------------------------------------------

  /** What each cycle takes from its interfaces: an AR whenever it is offered and taken, as a request of
      the cache only with room in the metadata FIFO; a beat while none is being delivered; a response
      while one is. */
  lemma Handshakes(c: Config, s: State, l: Log, i: In)
    requires c.Ok() && |s.queue| < c.depth
    ensures var l' := Record(c, s, l, i);
      var beat := i.rValid && !s.deliver;
      && |l'.ars| == |l.ars| + (if i.reqValid && i.arReady then 1 else 0)
      && l'.reqs == l.reqs + (if i.reqValid && i.arReady && |s.queue| < c.depth - 1 then [i.req] else [])
      && l'.bursts == l.bursts + (if beat && i.r.last then [l.current + [i.r]] else [])
      && l'.current == (if beat then if i.r.last then [] else l.current + [i.r] else l.current)
      && l'.resps == l.resps + (if s.deliver && i.respReady then [Resp(s.id, s.line, s.error)] else [])
  {
  }

  /** An AR asks for what the request does: its ID, its address, and a length and size that move its
      bytes in beats of the bus width, or in one if they fit. */
  ghost predicate Asks(c: Config, q: Req, ar: Ar) {
    && ar.id == q.id && ar.addr == q.addr
    && ar.size == (if q.size < c.log2 then q.size else c.log2)
    && (ar.len + 1) * Pow2(ar.size) == Pow2(q.size)
  }

  lemma ArAsks(c: Config, q: Req)
    requires c.Ok()
    ensures Asks(c, q, ArOf(c, q))
  {
    BurstCoversTransfer(c, q.size);
  }

  lemma ArsAsk(c: Config, r: Run, k: nat)
    requires c.Ok() && Tracks(c, r.s, r.l) && k < |r.l.ars|
    ensures |r.l.ars| == |r.l.reqs| && Asks(c, r.l.reqs[k], r.l.ars[k])
  {
    ArAsks(c, r.l.reqs[k]);
  }

  /** In every run, AR number `k` asks for request number `k`. */
  lemma ArOnTheBus(c: Config, ins: seq<In>, r: Run, k: nat)
    requires c.Ok() && Obeys(c, ins) && r == RunOf(c, ins) && k < |r.l.ars|
    ensures |r.l.ars| == |r.l.reqs| && Asks(c, r.l.reqs[k], r.l.ars[k])
  {
    EveryRunCorrect(c, ins);
    ArsAsk(c, r, k);
  }

  /** The line delivered for the words of a burst: a read that fits in one bus word has its only word
      where its byte address lies in the line, and zeros elsewhere; of any other the last words fill
      the line from the top down, and zeros the rest. */
  ghost predicate LineIs(c: Config, q: Req, d: Words, line: Words) {
    && |line| == c.words
    && if Pow2(q.size) <= Pow2(c.log2)
       then exists w: nat :: IsAt(c, q.addr, w) && |d| == 1
              && forall j :: 0 <= j < |line| ==> line[j] == if j == w then d[0] else 0
       else forall j :: 0 <= j < |line| ==>
              line[j] == if j + |d| >= c.words then d[j + |d| - c.words] else 0
  }

  /** The response to a request, from the beats of its burst: an error exactly when some beat is
      neither OKAY nor EXOKAY. */
  ghost predicate Delivered(c: Config, q: Req, beats: seq<RBeat>, r: Resp) {
    && r.id == q.id
    && (r.error <==> exists i :: 0 <= i < |beats| && beats[i].resp != Okay && beats[i].resp != ExOkay)
    && LineIs(c, q, Datas(beats), r.line)
  }

  lemma LineMeaning(c: Config, q: Req, d: Words)
    requires c.Ok() && |d| == Beats(c, q.size)
    ensures LineIs(c, q, d, LineOf(c, MetaOf(c, q), d))
  {
    BurstCoversTransfer(c, q.size);
    IndexIsAt(c, q.addr);
  }

  lemma ErrorMeaning(beats: seq<RBeat>)
    ensures SomeError(beats)
       <==> exists i :: 0 <= i < |beats| && beats[i].resp != Okay && beats[i].resp != ExOkay
  {
    if SomeError(beats) {
      var i :| 0 <= i < |beats| && IsError(beats[i]);
      assert beats[i].resp != Okay && beats[i].resp != ExOkay;
    }
    if i :| 0 <= i < |beats| && beats[i].resp != Okay && beats[i].resp != ExOkay {
      assert IsError(beats[i]);
    }
  }

  /** In every run, response number `k` is that of request and burst number `k`, and the burst has
      moved the requested bytes. */
  lemma ResponseDelivered(c: Config, ins: seq<In>, l: Log, k: nat)
    requires c.Ok() && Obeys(c, ins) && l == RunOf(c, ins).l && k < |l.resps|
    ensures |l.resps| <= |l.reqs| && |l.resps| <= |l.bursts|
    ensures Delivered(c, l.reqs[k], l.bursts[k], l.resps[k])
    ensures |l.bursts[k]| * Pow2(if l.reqs[k].size < c.log2 then l.reqs[k].size else c.log2)
         == Pow2(l.reqs[k].size)
  {
    EveryRunCorrect(c, ins);
    BurstCoversTransfer(c, l.reqs[k].size);
    LineMeaning(c, l.reqs[k], Datas(l.bursts[k]));
    ErrorMeaning(l.bursts[k]);
  }

  // ---------------------------------------------------------------------------------------------
  // The ungated AR channel
  // ---------------------------------------------------------------------------------------------

  /** AR handshakes that happened while the metadata FIFO was full. */
  function StrayArs(c: Config, ins: seq<In>): nat
    requires c.Ok()
  {
    if |ins| == 0 then 0
    else
      var stray := ArFire(ins[|ins| - 1]) && Full(c, RunOf(c, ins[..|ins| - 1]).s);
      StrayArs(c, ins[..|ins| - 1]) + if stray then 1 else 0
  }

  ghost predicate ArsAreRequests(c: Config, l: Log) {
    && |l.ars| == |l.reqs|
    && forall k :: 0 <= k < |l.reqs| ==> l.ars[k] == ArOf(c, l.reqs[k])
  }

  /** The bus sees every accepted request, plus one request for each handshake under a full FIFO,
      which the cache will offer again. So the ARs on the bus are the accepted requests exactly
      when there is none. */
  lemma {:induction false} ArAccounting(c: Config, ins: seq<In>)
    requires c.Ok()
    ensures |RunOf(c, ins).l.ars| == |RunOf(c, ins).l.reqs| + StrayArs(c, ins)
    ensures ArsAreRequests(c, RunOf(c, ins).l) <==> StrayArs(c, ins) == 0
  {
    if |ins| > 0 {
      ArAccounting(c, ins[..|ins| - 1]);
    }
  }

  /** A stray AR does happen: one request outstanding in a two-cell FIFO suffices. */
  lemma StrayArHappens(q: Req)
    ensures var c := Config(3, 8, 2);
      var i := In(true, q, true, false, RBeat(0, 0, Okay, false), false);
      |RunOf(c, [i, i]).l.ars| == 2 && |RunOf(c, [i, i]).l.reqs| == 1
  {
    var c := Config(3, 8, 2);
    var i := In(true, q, true, false, RBeat(0, 0, Okay, false), false);
    assert c.Ok();
    RunStep(c, [], i);
    RunStep(c, [i], i);
    assert [] + [i] == [i] && [i] + [i] == [i, i];
  }

  lemma RunStep(c: Config, ins: seq<In>, i: In)
    requires c.Ok()
    ensures var r := RunOf(c, ins);
      RunOf(c, ins + [i]) == Run(Step(c, r.s, i), Record(c, r.s, r.l, i))
  {
    assert (ins + [i])[..|ins|] == ins;
  }

  // ---------------------------------------------------------------------------------------------
  // A run that misplaces a line
  // ---------------------------------------------------------------------------------------------

  const SMALL := Config(3, 8, 2)

  /** A request for two bus words, its two beats, and the delivery. */
  function PartialRead(q: Req, x: nat, y: nat): seq<In> {
    [ In(true, q, true, false, RBeat(0, 0, Okay, false), false),
      In(false, q, true, true, RBeat(q.id, x, Okay, false), false),
      In(false, q, true, true, RBeat(q.id, y, Okay, true), false),
      In(false, q, true, false, RBeat(0, 0, Okay, false), true) ]
  }

  /** The run after each of these cycles. */
  function PartialRuns(q: Req, x: nat, y: nat): seq<Run> {
    var m, ar := MetaOf(SMALL, q), ArOf(SMALL, q);
    var a, b := RBeat(q.id, x, Okay, false), RBeat(q.id, y, Okay, true);
    var line := [0, 0, 0, 0, 0, 0, x, y];
    [ Run(Reset(SMALL), Log([], [], [], [], [])),
      Run(State([m], false, Zeros(8), false, 0), Log([q], [ar], [], [], [])),
      Run(State([m], false, [0, 0, 0, 0, 0, 0, 0, x], false, 0), Log([q], [ar], [], [a], [])),
      Run(State([], true, line, false, q.id), Log([q], [ar], [[a, b]], [], [])),
      Run(State([], false, Zeros(8), false, q.id), Log([q], [ar], [[a, b]], [], [Resp(q.id, line, false)])) ]
  }

  ghost predicate Follows(q: Req, x: nat, y: nat, k: nat)
    requires k < 4
  {
    var ins, runs := PartialRead(q, x, y), PartialRuns(q, x, y);
    Next(SMALL, runs[k], ins[k]) == runs[k + 1] && EnvOk(SMALL, runs[k].s, runs[k].l, ins[k])
  }

  lemma TwoBeats(q: Req)
    requires q.size == 4
    ensures ArOf(SMALL, q).len == 1 && !MetaOf(SMALL, q).isUc
  {
    LenBound(SMALL, 4);
    assert Pow2(1) == 2;
  }

  lemma PartialStart(q: Req, x: nat, y: nat)
    requires q.size == 4
    ensures Follows(q, x, y, 0) && Follows(q, x, y, 3)
  {
  }

  lemma PartialFirst(q: Req, x: nat, y: nat)
    requires q.size == 4
    ensures Follows(q, x, y, 1)
  {
    TwoBeats(q);
    assert Zeros(8)[1..] + [x] == [0, 0, 0, 0, 0, 0, 0, x];
  }

  lemma PartialLast(q: Req, x: nat, y: nat)
    requires q.size == 4
    ensures Follows(q, x, y, 2)
  {
    var a, b := RBeat(q.id, x, Okay, false), RBeat(q.id, y, Okay, true);
    TwoBeats(q);
    assert [a] + [b] == [a, b];
    assert [0, 0, 0, 0, 0, 0, 0, x][1..] + [y] == [0, 0, 0, 0, 0, 0, x, y];
  }

  lemma PartialCycle(q: Req, x: nat, y: nat, k: nat)
    requires q.size == 4 && k < 4
    ensures Follows(q, x, y, k)
  {
    if k == 1 {
      PartialFirst(q, x, y);
    } else if k == 2 {
      PartialLast(q, x, y);
    } else {
      PartialStart(q, x, y);
    }
  }

  lemma PartialPrefix(q: Req, x: nat, y: nat, k: nat)
    requires q.size == 4 && k <= 4
    ensures RunOf(SMALL, PartialRead(q, x, y)[..k]) == PartialRuns(q, x, y)[k]
  {
    var run := (xs: seq<In>) => RunOf(SMALL, xs);
    var next := (r: Run, i: In) => Next(SMALL, r, i);
    var ins, runs := PartialRead(q, x, y), PartialRuns(q, x, y);
    forall xs, i
      ensures FoldsAt(run, next, xs, i)
    {
      RunStep(SMALL, xs, i);
    }
    forall j | 0 <= j < |ins|
      ensures next(runs[j], ins[j]) == runs[j + 1]
    {
      PartialCycle(q, x, y, j);
    }
    FoldPrefix(run, next, ins, runs, k);
  }

  lemma PartialEnv(q: Req, x: nat, y: nat, k: nat)
    requires q.size == 4 && k < 4
    ensures var ins := PartialRead(q, x, y);
      EnvOk(SMALL, RunOf(SMALL, ins[..k]).s, RunOf(SMALL, ins[..k]).l, ins[k])
  {
    PartialPrefix(q, x, y, k);
    PartialCycle(q, x, y, k);
  }

  lemma PartialObeys(q: Req, x: nat, y: nat)
    requires q.size == 4
    ensures Obeys(SMALL, PartialRead(q, x, y))
  {
    forall k | 0 <= k < 4
      ensures var ins := PartialRead(q, x, y);
        EnvOk(SMALL, RunOf(SMALL, ins[..k]).s, RunOf(SMALL, ins[..k]).l, ins[k])
    {
      PartialEnv(q, x, y, k);
    }
  }

  lemma PartialDelivers(q: Req, x: nat, y: nat)
    requires q.size == 4
    ensures RunOf(SMALL, PartialRead(q, x, y)).l.resps == [Resp(q.id, [0, 0, 0, 0, 0, 0, x, y], false)]
  {
    PartialPrefix(q, x, y, 4);
    assert PartialRead(q, x, y)[..4] == PartialRead(q, x, y);
  }

  lemma PartialLine(x: nat, y: nat)
    ensures PlacedLine(8, 0, [x, y]) == [x, y, 0, 0, 0, 0, 0, 0]
  {
  }

  lemma PlacedAt(c: Config, q: Req, k: nat, d: Words)
    requires IsAt(c, q.addr, k)
    ensures IsPlaced(c, q, d, PlacedLine(c.words, k, d))
  {
  }

  lemma PartialPlace(q: Req, x: nat, y: nat)
    requires q.addr == 0
    ensures IsPlaced(SMALL, q, [x, y], [x, y, 0, 0, 0, 0, 0, 0])
  {
    StartIsAt(SMALL);
    PlacedAt(SMALL, q, 0, [x, y]);
    PartialLine(x, y);
  }

  /** A partial line that the slave delivers in order ends up in the top words of the line, although
      it was read from the bottom ones. */
  lemma MisplacedLineHappens(id: nat, x: nat, y: nat)
    ensures var q := Req(id, 0, 4);
      var ins := PartialRead(q, x, y);
      && Obeys(SMALL, ins)
      && RunOf(SMALL, ins).l.resps == [Resp(id, [0, 0, 0, 0, 0, 0, x, y], false)]
      && IsPlaced(SMALL, q, [x, y], [x, y, 0, 0, 0, 0, 0, 0])
  {
    var q := Req(id, 0, 4);
    PartialObeys(q, x, y);
    PartialDelivers(q, x, y);
    PartialPlace(q, x, y);
  }
}
