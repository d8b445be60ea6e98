/**
 The write adapter as a state machine, one step per clock edge, with its FIFOs as queues: the
 specification that the registers of module WriteAdapter are proved against, and the guarantees
 over every run under any back-pressure.
 */
module WriteMachine {
  import opened Arith
  import opened Bits
  import opened AxiBurst
  import opened Runs

  datatype Option<T> = None | Some(value: T)

  /** One bus word of a line with its byte strobes. */
  datatype Lane = Lane(data: nat, strb: nat)
  type Line = seq<Lane>
  const ZERO := Lane(0, 0)

  datatype Req = Req(id: nat, addr: nat, size: MemSize)
  datatype Aw = Aw(id: nat, addr: nat, len: nat, size: nat)
  datatype WBeat = WBeat(lane: Lane, last: bool)
  datatype B = B(id: nat, resp: RespCode)
  datatype Resp = Resp(id: nat, error: bool, isAtomic: bool)

  /** What the environment drives in one cycle. */
  datatype In = In(
    reqValid: bool, req: Req, dataValid: bool, data: Line,
    awReady: bool, wReady: bool, bValid: bool, b: B, respReady: bool)

  /** A write ready for the W channel. */
  datatype Entry = Entry(line: Line, beats: BeatCount)
  datatype Burst = Burst(line: Line, total: BeatCount, beat: nat)

  datatype State = State(
    req: Option<Req>, data: Option<Line>, dataQueue: seq<Entry>, respQueue: seq<nat>, w: Option<Burst>)

  const RESET := State(None, None, [], [], None)

  // ---------------------------------------------------------------------------------------------
  // Combinational outputs
  // ---------------------------------------------------------------------------------------------

  predicate CanPush(c: Config, s: State) {
    |s.dataQueue| + 1 < c.depth && |s.respQueue| + 1 < c.depth
  }

  predicate ReqReady(c: Config, s: State) {
    s.req.None? && CanPush(c, s)
  }

  predicate DataReady(c: Config, s: State) {
    s.data.None? && (CanPush(c, s) || s.req.Some?)
  }

  predicate AwValid(c: Config, s: State) {
    s.req.Some? && s.data.Some? && CanPush(c, s)
  }

  function AwOf(c: Config, r: Req): Aw {
    Aw(r.id, r.addr, AxiLen(c, r.size), AxiSize(c, r.size))
  }

  function LaneAt(line: Line, i: nat): Lane {
    if i < |line| then line[i] else ZERO
  }

  function WOut(b: Burst): WBeat {
    WBeat(LaneAt(b.line, 0), b.beat + 1 == b.total)
  }

  function RespOf(b: B): Resp {
    Resp(b.id, b.resp.SlvErr? || b.resp.DecErr?, b.resp.ExOkay?)
  }

  predicate AwFire(c: Config, s: State, i: In) {
    AwValid(c, s) && i.awReady
  }

  predicate WFire(s: State, i: In) {
    s.w.Some? && i.wReady
  }

  predicate RespFire(s: State, i: In) {
    s.respQueue != [] && i.bValid && i.respReady
  }

  // ---------------------------------------------------------------------------------------------
  // One clock edge
  // ---------------------------------------------------------------------------------------------

  /** A line shifted down by `k` bus words, zeros coming in at the top. */
  function ShiftDown(line: Line, k: nat): (r: Line)
    ensures |r| == |line|
    ensures forall i :: 0 <= i < |line| ==> r[i] == LaneAt(line, i + k)
  {
    seq(|line|, i requires 0 <= i < |line| => LaneAt(line, i + k))
  }

  /** The data register: an uncached write is aligned to its addressed word, if its request is
      latched or offered when the data come in. */
  function Capture(c: Config, req: Option<Req>, i: In): Line
    requires c.Ok()
  {
    if req.Some? then Aligned(c, req.value, i.data)
    else if i.reqValid then Aligned(c, i.req, i.data)
    else i.data
  }

  function Aligned(c: Config, r: Req, data: Line): Line
    requires c.Ok()
  {
    if IsUncached(c, r.size) then ShiftDown(data, WordIndex(c, r.addr)) else data
  }

  function NextBurst(w: Option<Burst>, queue: seq<Entry>, i: In): Option<Burst> {
    match w
    case None => if queue == [] then None else Some(Burst(queue[0].line, queue[0].beats, 0))
    case Some(b) =>
      if !i.wReady then w
      else if b.beat + 1 == b.total then None
      else Some(Burst(ShiftDown(b.line, 1), b.total, b.beat + 1))
  }

  function NextReq(c: Config, s: State, i: In): Option<Req> {
    if AwFire(c, s, i) then None else if i.reqValid && ReqReady(c, s) then Some(i.req) else s.req
  }

  function NextData(c: Config, s: State, i: In): Option<Line>
    requires c.Ok()
  {
    if AwFire(c, s, i) then None
    else if i.dataValid && DataReady(c, s) then Some(Capture(c, s.req, i))
    else s.data
  }

  /** The data FIFO after the W channel has loaded its head, if it was idle. */
  function Popped(s: State): seq<Entry> {
    if s.w.None? && s.dataQueue != [] then s.dataQueue[1..] else s.dataQueue
  }

  /** The write pushed into the data FIFO with the AW handshake. */
  function Issued(c: Config, s: State, i: In): seq<Entry> {
    if AwFire(c, s, i) then [Entry(s.data.value, Beats(c, s.req.value.size))] else []
  }

  function NextResp(c: Config, s: State, i: In): seq<nat> {
    (if RespFire(s, i) then s.respQueue[1..] else s.respQueue)
    + (if AwFire(c, s, i) then [s.req.value.id] else [])
  }

  /** The beat taken by the W channel. */
  function Sent(s: State, i: In): seq<WBeat> {
    if WFire(s, i) then [WOut(s.w.value)] else []
  }

  function Step(c: Config, s: State, i: In): State
    requires c.Ok()
  {
    State(
      NextReq(c, s, i), NextData(c, s, i),
      Popped(s) + Issued(c, s, i), NextResp(c, s, i),
      NextBurst(s.w, s.dataQueue, i))
  }

  // ---------------------------------------------------------------------------------------------
  // Runs, with everything that crossed the interfaces so far
  // ---------------------------------------------------------------------------------------------

  /** `early[k]`: the k-th data came in while its request was neither latched nor offered. */
  datatype Log = Log(
    reqs: seq<Req>, datas: seq<Line>, early: seq<bool>, aws: seq<Aw>, ws: seq<WBeat>, bs: seq<B>, resps: seq<Resp>)

  datatype Run = Run(s: State, l: Log)

  const START := Run(RESET, Log([], [], [], [], [], [], []))

  function Record(c: Config, s: State, l: Log, i: In): Log
    requires c.Ok()
  {
    var takesData := i.dataValid && DataReady(c, s);
    Log(
      l.reqs + (if i.reqValid && ReqReady(c, s) then [i.req] else []),
      l.datas + (if takesData then [i.data] else []),
      l.early + (if takesData then [s.req.None? && !i.reqValid] else []),
      l.aws + (if AwFire(c, s, i) then [AwOf(c, s.req.value)] else []),
      l.ws + Sent(s, i),
      l.bs + (if RespFire(s, i) then [i.b] else []),
      l.resps + (if RespFire(s, i) then [RespOf(i.b)] else []))
  }

  function RunOf(c: Config, ins: seq<In>): Run
    requires c.Ok()
  {
    if |ins| == 0 then START
    else
      var r := RunOf(c, ins[..|ins| - 1]);
      Run(Step(c, r.s, ins[|ins| - 1]), Record(c, r.s, r.l, ins[|ins| - 1]))
  }

  // ---------------------------------------------------------------------------------------------
  // What should appear on the W channel
  // ---------------------------------------------------------------------------------------------

  /** The first `n` words of a line as one burst, `last` on exactly the final beat. */
  function BurstOf(line: Line, n: nat): (r: seq<WBeat>)
    ensures |r| == n
  {
    seq(n, i requires 0 <= i < n => WBeat(LaneAt(line, i), i + 1 == n))
  }

  function Flat(es: seq<Entry>): seq<WBeat> {
    if |es| == 0 then [] else Flat(es[..|es| - 1]) + BurstOf(es[|es| - 1].line, es[|es| - 1].beats)
  }

  /** The write made of a request and its data. */
  function EntryOf(c: Config, r: Req, data: Line, early: bool): Entry
    requires c.Ok()
  {
    Entry(if early then data else Aligned(c, r, data), Beats(c, r.size))
  }

  /** The first `n` writes: the k-th accepted request with the k-th accepted data. */
  function Writes(c: Config, l: Log, n: nat): (r: seq<Entry>)
    requires c.Ok()
    requires n <= |l.reqs| && n <= |l.datas| && n <= |l.early|
    ensures |r| == n
    ensures forall k :: 0 <= k < n ==> r[k] == EntryOf(c, l.reqs[k], l.datas[k], l.early[k])
  {
    seq(n, k requires 0 <= k < n => EntryOf(c, l.reqs[k], l.datas[k], l.early[k]))
  }

  /** Beats of the active burst that are still to come. */
  function Remaining(w: Option<Burst>): seq<WBeat> {
    if w.Some? && w.value.beat <= w.value.total
    then BurstOf(w.value.line, w.value.total - w.value.beat) else []
  }

  function FinishedBursts(ws: seq<WBeat>): nat {
    if |ws| == 0 then 0 else FinishedBursts(ws[..|ws| - 1]) + if ws[|ws| - 1].last then 1 else 0
  }

  function Held<T>(o: Option<T>): nat {
    if o.Some? then 1 else 0
  }

  // ---------------------------------------------------------------------------------------------
  // The invariant of every run
  // ---------------------------------------------------------------------------------------------

  /** Pairing: the requests and data beyond the issued writes are exactly the staged ones. */
  ghost predicate Paired(c: Config, s: State, l: Log)
    requires c.Ok()
  {
    var n := |l.aws|;
    && |l.reqs| == n + Held(s.req)
    && |l.datas| == |l.early| == n + Held(s.data)
    && (s.req.Some? ==> l.reqs[n] == s.req.value)
    && (s.data.Some? ==>
      if s.req.Some? then s.data.value == EntryOf(c, s.req.value, l.datas[n], l.early[n]).line
      else l.early[n] && s.data.value == l.datas[n])
    && forall k :: 0 <= k < n ==> l.aws[k] == AwOf(c, l.reqs[k])
  }

  /** Whenever either staging half is occupied, both FIFOs have room; they never overflow. */
  ghost predicate Reserved(c: Config, s: State) {
    && (s.req.Some? || s.data.Some? ==> CanPush(c, s))
    && |s.dataQueue| < c.depth && |s.respQueue| < c.depth
  }

  ghost predicate WellFormed(s: State) {
    s.w.Some? ==> s.w.value.beat < s.w.value.total
  }

  /** The beats sent, followed by those still queued, are the issued writes in AW order. */
  ghost predicate Streams(c: Config, s: State, l: Log)
    requires c.Ok() && Paired(c, s, l)
  {
    && WellFormed(s)
    && l.ws + Remaining(s.w) + Flat(s.dataQueue) == Flat(Writes(c, l, |l.aws|))
  }

  /** No AW is lost on the way to its burst. */
  ghost predicate BurstsConserved(s: State, l: Log) {
    |l.aws| == FinishedBursts(l.ws) + Held(s.w) + |s.dataQueue|
  }

  /** No AW is lost on the way to its response. */
  ghost predicate ResponsesConserved(s: State, l: Log) {
    && |l.aws| == |l.bs| + |s.respQueue|
    && forall k :: 0 <= k < |s.respQueue| ==> s.respQueue[k] == l.aws[|l.bs| + k].id
  }

  ghost predicate Conserves(s: State, l: Log) {
    BurstsConserved(s, l) && ResponsesConserved(s, l)
  }

  ghost predicate Correct(c: Config, r: Run)
    requires c.Ok()
  {
    Paired(c, r.s, r.l) && Reserved(c, r.s) && Streams(c, r.s, r.l) && Conserves(r.s, r.l)
  }

  // ---------------------------------------------------------------------------------------------
  // Steps keep it
  // ---------------------------------------------------------------------------------------------

  lemma PairedStep(c: Config, s: State, l: Log, i: In)
    requires c.Ok() && Paired(c, s, l) && Reserved(c, s)
    ensures Paired(c, Step(c, s, i), Record(c, s, l, i))
  {
  }

  lemma ReservedStep(c: Config, s: State, i: In)
    requires c.Ok() && Reserved(c, s)
    ensures Reserved(c, Step(c, s, i))
  {
  }

  lemma FlatPush(es: seq<Entry>, e: Entry)
    ensures Flat(es + [e]) == Flat(es) + BurstOf(e.line, e.beats)
  {
    assert (es + [e])[..|es|] == es;
  }

  lemma {:induction false} FlatPop(es: seq<Entry>)
    requires es != []
    ensures Flat(es) == BurstOf(es[0].line, es[0].beats) + Flat(es[1..])
  {
    var m := |es| - 1;
    if m == 0 {
      assert es[..0] == [] && es[1..] == [];
    } else {
      FlatPop(es[..m]);
      assert es[..m][1..] == es[1..][..m - 1];
    }
  }

  /** A burst is its first beat and the burst of the shifted line. */
  lemma BurstHead(line: Line, m: nat)
    requires m > 0
    ensures BurstOf(line, m) == [WBeat(LaneAt(line, 0), m == 1)] + BurstOf(ShiftDown(line, 1), m - 1)
  {
    forall i | 0 < i < m
      ensures BurstOf(line, m)[i] == BurstOf(ShiftDown(line, 1), m - 1)[i - 1]
    {
      ShiftedLane(line, i - 1);
    }
  }

  lemma ShiftedLane(line: Line, i: nat)
    ensures LaneAt(ShiftDown(line, 1), i) == LaneAt(line, i + 1)
  {
  }

  /** Sending a beat takes the head off the remaining beats. */
  lemma BurstAdvance(b: Burst)
    requires b.beat < b.total
    ensures Remaining(Some(b)) == [WOut(b)]
      + if b.beat + 1 == b.total then []
        else Remaining(Some(Burst(ShiftDown(b.line, 1), b.total, b.beat + 1)))
  {
    BurstHead(b.line, b.total - b.beat);
  }

  lemma {:induction false} FlatAppend(es: seq<Entry>, fs: seq<Entry>)
    requires |fs| <= 1
    ensures Flat(es + fs) == Flat(es) + Flat(fs)
  {
    if fs == [] {
      assert es + fs == es;
    } else {
      assert fs == [fs[0]] && fs[..0] == [];
      FlatPush(es, fs[0]);
    }
  }

  /** The W channel moves beats from the queue to the bus without changing their sequence. */
  lemma ChannelKeepsOrder(s: State, i: In)
    requires s.w.Some? ==> s.w.value.beat < s.w.value.total
    ensures Sent(s, i) + Remaining(NextBurst(s.w, s.dataQueue, i)) + Flat(Popped(s))
         == Remaining(s.w) + Flat(s.dataQueue)
  {
    if s.w.Some? {
      BurstAdvance(s.w.value);
    } else if s.dataQueue != [] {
      FlatPop(s.dataQueue);
    }
  }

  lemma WritesStep(c: Config, s: State, l: Log, i: In)
    requires c.Ok() && Paired(c, s, l) && Reserved(c, s)
    ensures var l' := Record(c, s, l, i);
      && Paired(c, Step(c, s, i), l')
      && Writes(c, l', |l'.aws|) == Writes(c, l, |l.aws|) + Issued(c, s, i)
  {
    PairedStep(c, s, l, i);
  }

  /** Regrouping of the beats sent, active and queued around the newly issued ones. */
  lemma Regroup<T>(ws: seq<T>, sent: seq<T>, rest: seq<T>, queued: seq<T>, rest': seq<T>, queued': seq<T>,
                   more: seq<T>)
    requires sent + rest' + queued' == rest + queued
    ensures ws + sent + rest' + (queued' + more) == ws + rest + queued + more
  {
    assert ws + sent + rest' + (queued' + more) == ws + (sent + rest' + queued') + more;
    assert ws + (rest + queued) + more == ws + rest + queued + more;
  }

  lemma OrderStep(c: Config, s: State, ws: seq<WBeat>, all: seq<Entry>, i: In)
    requires WellFormed(s) && ws + Remaining(s.w) + Flat(s.dataQueue) == Flat(all)
    ensures ws + Sent(s, i) + Remaining(NextBurst(s.w, s.dataQueue, i)) + Flat(Popped(s) + Issued(c, s, i))
         == Flat(all + Issued(c, s, i))
  {
    var issued := Issued(c, s, i);
    ChannelKeepsOrder(s, i);
    Regroup(ws, Sent(s, i), Remaining(s.w), Flat(s.dataQueue), Remaining(NextBurst(s.w, s.dataQueue, i)),
            Flat(Popped(s)), Flat(issued));
    FlatAppend(all, issued);
    FlatAppend(Popped(s), issued);
  }

  lemma WellFormedStep(c: Config, s: State, i: In)
    requires c.Ok() && WellFormed(s)
    ensures WellFormed(Step(c, s, i))
  {
  }

  lemma StreamsStep(c: Config, s: State, l: Log, i: In)
    requires c.Ok() && Paired(c, s, l) && Reserved(c, s) && Streams(c, s, l)
    ensures Paired(c, Step(c, s, i), Record(c, s, l, i))
    ensures Streams(c, Step(c, s, i), Record(c, s, l, i))
  {
    WritesStep(c, s, l, i);
    WellFormedStep(c, s, i);
    OrderStep(c, s, l.ws, Writes(c, l, |l.aws|), i);
  }

  lemma FinishedPush(ws: seq<WBeat>, w: WBeat)
    ensures FinishedBursts(ws + [w]) == FinishedBursts(ws) + if w.last then 1 else 0
  {
    assert (ws + [w])[..|ws|] == ws;
  }

  lemma ConservesStep(c: Config, s: State, l: Log, i: In)
    requires c.Ok() && Paired(c, s, l) && Conserves(s, l)
    ensures Conserves(Step(c, s, i), Record(c, s, l, i))
  {
    var s', l' := Step(c, s, i), Record(c, s, l, i);
    assert BurstsConserved(s', l') by {
      if WFire(s, i) {
        FinishedPush(l.ws, WOut(s.w.value));
      } else {
        assert l.ws + [] == l.ws;
      }
    }
    ResponsesStep(c, s, l, i);
  }

  lemma ResponsesStep(c: Config, s: State, l: Log, i: In)
    requires c.Ok() && Paired(c, s, l) && ResponsesConserved(s, l)
    ensures ResponsesConserved(Step(c, s, i), Record(c, s, l, i))
  {
    var s', l' := Step(c, s, i), Record(c, s, l, i);
    forall k | 0 <= k < |s'.respQueue|
      ensures s'.respQueue[k] == l'.aws[|l'.bs| + k].id
    {
      if RespFire(s, i) && k + 1 < |s.respQueue| {
        assert s'.respQueue[k] == s.respQueue[k + 1];
      }
    }
  }

  /** Every run of the adapter, whatever the environment drives, keeps the write stream correct:
      requests and data pair up in order, the W channel carries their bursts in AW order, nothing
      is lost or duplicated, and the FIFOs neither overflow nor lose their reservation. */
  lemma {:induction false} EveryRunCorrect(c: Config, ins: seq<In>)
    requires c.Ok()
    ensures Correct(c, RunOf(c, ins))
  {
    if |ins| == 0 {
      assert Writes(c, RunOf(c, ins).l, 0) == [];
    } else {
      var r := RunOf(c, ins[..|ins| - 1]);
      var i := ins[|ins| - 1];
      EveryRunCorrect(c, ins[..|ins| - 1]);
      StreamsStep(c, r.s, r.l, i);
      ReservedStep(c, r.s, i);
      ConservesStep(c, r.s, r.l, i);
    }
  }

  /** Once the adapter is drained, the W channel has carried exactly the accepted writes. */
  lemma DrainedRunComplete(c: Config, ins: seq<In>)
    requires c.Ok()
    ensures var r := RunOf(c, ins);
      r.s.req.None? && r.s.data.None? && r.s.dataQueue == [] && r.s.w.None? ==>
        && |r.l.reqs| == |r.l.datas| == |r.l.early| == |r.l.aws| == FinishedBursts(r.l.ws)
        && r.l.ws == Flat(Writes(c, r.l, |r.l.reqs|))
  {
    EveryRunCorrect(c, ins);
  }

  // ---------------------------------------------------------------------------------------------
  // VALID holds until the handshake
  // ---------------------------------------------------------------------------------------------

  /** Section A3.2.1 of the AXI specification, for the AW and W channels. AW is valid as soon as both
      halves are staged, since either half reserved its FIFO space when it was accepted. */
  lemma ValidHolds(c: Config, ins: seq<In>, i: In)
    requires c.Ok()
    ensures var s := RunOf(c, ins).s;
      var s' := Step(c, s, i);
      && (AwValid(c, s) <==> s.req.Some? && s.data.Some?)
      && (AwValid(c, s) && !i.awReady ==> AwValid(c, s') && s'.req == s.req && s'.data == s.data)
      && (s.w.Some? && !i.wReady ==> s'.w == s.w)
  {
    EveryRunCorrect(c, ins);
  }

  // ---------------------------------------------------------------------------------------------
  // Progress
  // ---------------------------------------------------------------------------------------------

  function QueueWork(q: seq<Entry>): nat {
    if |q| == 0 then 0 else QueueWork(q[..|q| - 1]) + q[|q| - 1].beats + 1
  }

  function Take<T>(q: seq<T>, n: nat): seq<T> {
    if n <= |q| then q[..n] else q
  }

  /** Number of writes that are staged in full. */
  function Staged(s: State): nat {
    if s.req.Some? && s.data.Some? then 1 else 0
  }

  /** Number of complete writes inside the adapter. */
  function Inside(s: State): nat {
    Held(s.w) + |s.dataQueue| + Staged(s)
  }

  function BurstWork(w: Option<Burst>): nat {
    if w.Some? && w.value.beat < w.value.total then w.value.total - w.value.beat else 0
  }

  /** Cycles until the first `m` of these writes have left on the W channel, if the slave stays
      ready: the active burst comes first, then the queue, then the staged write. */
  function Work(c: Config, s: State, m: nat): nat {
    if m == 0 then 0
    else
      BurstWork(s.w) + QueueWork(Take(s.dataQueue, m - Held(s.w)))
      + (if Staged(s) == 1 && m > Held(s.w) + |s.dataQueue| then Beats(c, s.req.value.size) + 2 else 0)
  }

  /** The slave takes whatever is offered; new requests and data may come in. */
  predicate SlaveReady(i: In) {
    i.awReady && i.wReady
  }

  lemma {:induction false} QueueWorkPop(q: seq<Entry>)
    requires q != []
    ensures QueueWork(q) == q[0].beats + 1 + QueueWork(q[1..])
  {
    var m := |q| - 1;
    if m > 0 {
      QueueWorkPop(q[..m]);
      assert q[..m][1..] == q[1..][..m - 1];
    } else {
      assert q[..0] == [] && q[1..] == [];
    }
  }

  lemma QueueWorkTake(q: seq<Entry>, m: nat)
    requires q != [] && m > 0
    ensures QueueWork(Take(q, m)) == q[0].beats + 1 + QueueWork(Take(q[1..], m - 1))
  {
    assert Take(q, m) != [] && Take(q, m)[0] == q[0] && Take(q, m)[1..] == Take(q[1..], m - 1);
    QueueWorkPop(Take(q, m));
  }

  lemma QueueWorkPush(q: seq<Entry>, e: Entry)
    ensures QueueWork(q + [e]) == QueueWork(q) + e.beats + 1
  {
    assert (q + [e])[..|q|] == q;
  }

  /** The first `n` entries of the queue once the issued write is behind it. */
  lemma TakeIssued(c: Config, s: State, i: In, n: nat)
    requires Reserved(c, s) && SlaveReady(i) && n <= |Popped(s)| + Staged(s)
    ensures QueueWork(Take(Popped(s) + Issued(c, s, i), n))
         == QueueWork(Take(Popped(s), n))
          + if n > |Popped(s)| then Beats(c, s.req.value.size) + 1 else 0
  {
    var q := Popped(s);
    if n > |q| {
      assert AwFire(c, s, i) && Take(q + Issued(c, s, i), n) == q + Issued(c, s, i);
      QueueWorkPush(q, Issued(c, s, i)[0]);
    } else {
      assert Take(q + Issued(c, s, i), n) == q[..n];
    }
  }

  /** The last beat of a burst leaves. */
  predicate Finishes(s: State, i: In) {
    WFire(s, i) && WOut(s.w.value).last
  }

  function Minus(m: nat, b: bool): nat {
    if b && m > 0 then m - 1 else m
  }

  /** A staged write is issued at once, so that all writes inside are then active or queued. */
  lemma InsideStep(c: Config, s: State, i: In)
    requires c.Ok() && Reserved(c, s) && SlaveReady(i)
    ensures var s' := Step(c, s, i);
      Held(s'.w) + |s'.dataQueue| == Minus(Inside(s), Finishes(s, i))
  {
  }

  /** The W machine is sending. */
  lemma SendingStep(c: Config, s: State, i: In, m: nat)
    requires c.Ok() && Reserved(c, s) && WellFormed(s) && SlaveReady(i) && s.w.Some?
    requires 0 < m <= Inside(s)
    ensures Work(c, Step(c, s, i), Minus(m, Finishes(s, i))) < Work(c, s, m)
  {
    var s' := Step(c, s, i);
    InsideStep(c, s, i);
    TakeIssued(c, s, i, m - 1);
    assert s'.dataQueue == Popped(s) + Issued(c, s, i);
    assert BurstWork(s'.w) == BurstWork(s.w) - 1;
    assert Finishes(s, i) <==> s'.w.None?;
  }

  /** The W machine loads the head of the queue. */
  lemma LoadingStep(c: Config, s: State, i: In, m: nat)
    requires c.Ok() && Reserved(c, s) && SlaveReady(i) && s.w.None? && s.dataQueue != []
    requires 0 < m <= Inside(s)
    ensures Work(c, Step(c, s, i), m) < Work(c, s, m)
  {
    var s' := Step(c, s, i);
    var q := s.dataQueue;
    InsideStep(c, s, i);
    TakeIssued(c, s, i, m - 1);
    assert s'.dataQueue == Popped(s) + Issued(c, s, i);
    QueueWorkTake(q, m);
    assert BurstWork(s'.w) == q[0].beats;
  }

  /** Only the staged write is left. */
  lemma IssuingStep(c: Config, s: State, i: In)
    requires c.Ok() && Reserved(c, s) && SlaveReady(i) && s.w.None? && s.dataQueue == [] && Staged(s) == 1
    ensures Work(c, Step(c, s, i), 1) < Work(c, s, 1)
  {
    InsideStep(c, s, i);
    TakeIssued(c, s, i, 1);
    assert Take<Entry>([], 1) == [];
  }

  /** Every cycle works off one unit of the first `m` writes, whatever comes in behind them. */
  lemma WorkStep(c: Config, s: State, i: In, m: nat)
    requires c.Ok() && Reserved(c, s) && WellFormed(s) && SlaveReady(i)
    requires 0 < m <= Inside(s)
    ensures Work(c, Step(c, s, i), Minus(m, Finishes(s, i))) < Work(c, s, m)
  {
    if s.w.Some? {
      SendingStep(c, s, i, m);
    } else if s.dataQueue != [] {
      LoadingStep(c, s, i, m);
    } else {
      IssuingStep(c, s, i);
    }
  }

  lemma RunStep(c: Config, ins: seq<In>, i: In)
    requires c.Ok()
    ensures var r := RunOf(c, ins);
      RunOf(c, ins + [i]) == Run(Step(c, r.s, i), Record(c, r.s, r.l, i))
  {
    assert (ins + [i])[..|ins|] == ins;
  }

  /** What progress relies on in every state of a run. */
  ghost predicate Steady(c: Config, r: Run) {
    Reserved(c, r.s) && WellFormed(r.s) && BurstsConserved(r.s, r.l)
  }

  lemma RunSteady(c: Config, ins: seq<In>)
    requires c.Ok()
    ensures Steady(c, RunOf(c, ins))
  {
    EveryRunCorrect(c, ins);
  }

  function Next(c: Config, r: Run, i: In): Run
    requires c.Ok()
  {
    Run(Step(c, r.s, i), Record(c, r.s, r.l, i))
  }

  function Finished(r: Run): nat {
    FinishedBursts(r.l.ws)
  }

  /** Writes complete so far: issued, or staged in full. */
  function Complete(r: Run): nat {
    |r.l.aws| + Staged(r.s)
  }

  /** Work left of the first `n` writes of a run, `done` of which are finished. */
  function Left(c: Config, s: State, done: nat, n: nat): nat {
    if n <= done then 0 else Work(c, s, n - done)
  }

  lemma FinishedStep(c: Config, r: Run, i: In)
    requires c.Ok()
    ensures Finished(Next(c, r, i)) == Finished(r) + if Finishes(r.s, i) then 1 else 0
  {
    if WFire(r.s, i) {
      FinishedPush(r.l.ws, WOut(r.s.w.value));
    } else {
      assert r.l.ws + [] == r.l.ws;
    }
  }

  /** All complete writes are finished or inside. */
  lemma CompleteInside(c: Config, r: Run)
    requires Steady(c, r)
    ensures Complete(r) == Finished(r) + Inside(r.s)
  {
  }

  lemma CompleteStep(c: Config, r: Run, i: In)
    requires c.Ok() && Steady(c, r) && SlaveReady(i)
    ensures Complete(Next(c, r, i)) >= Complete(r)
  {
  }

  lemma LeftFalls(c: Config, s: State, s': State, done: nat, n: nat, finishes: bool)
    requires done < n ==> Work(c, s', Minus(n - done, finishes)) < Work(c, s, n - done)
    ensures var after := Left(c, s', done + if finishes then 1 else 0, n);
      after < Left(c, s, done, n) || after == 0
  {
  }

  lemma WorkStepRun(c: Config, r: Run, i: In, n: nat)
    requires c.Ok() && Steady(c, r) && SlaveReady(i) && Finished(r) < n <= Complete(r)
    ensures Work(c, Step(c, r.s, i), Minus(n - Finished(r), Finishes(r.s, i))) < Work(c, r.s, n - Finished(r))
  {
    CompleteInside(c, r);
    WorkStep(c, r.s, i, n - Finished(r));
  }

  /** Work left of the first `n` writes after the inputs `ins`. */
  function LeftAt(c: Config, ins: seq<In>, n: nat): nat
    requires c.Ok()
  {
    Left(c, RunOf(c, ins).s, Finished(RunOf(c, ins)), n)
  }

  function CompleteAt(c: Config, ins: seq<In>): nat
    requires c.Ok()
  {
    Complete(RunOf(c, ins))
  }

  lemma LeftStep(c: Config, r: Run, i: In, n: nat)
    requires c.Ok() && Steady(c, r) && SlaveReady(i) && n <= Complete(r)
    ensures var done := Finished(r) + if Finishes(r.s, i) then 1 else 0;
      var after := Left(c, Step(c, r.s, i), done, n);
      after < Left(c, r.s, Finished(r), n) || after == 0
  {
    if Finished(r) < n {
      WorkStepRun(c, r, i, n);
    }
    LeftFalls(c, r.s, Step(c, r.s, i), Finished(r), n, Finishes(r.s, i));
  }

  lemma LeftAtStep(c: Config, ins: seq<In>, i: In, n: nat)
    requires c.Ok() && SlaveReady(i) && n <= CompleteAt(c, ins)
    ensures CompleteAt(c, ins + [i]) >= CompleteAt(c, ins)
    ensures LeftAt(c, ins + [i], n) < LeftAt(c, ins, n) || LeftAt(c, ins + [i], n) == 0
  {
    var r := RunOf(c, ins);
    RunSteady(c, ins);
    RunStep(c, ins, i);
    CompleteStep(c, r, i);
    FinishedStep(c, r, i);
    LeftStep(c, r, i, n);
  }

  lemma LeftRun(c: Config, ins: seq<In>, more: seq<In>, n: nat)
    requires c.Ok() && n <= CompleteAt(c, ins) && forall k :: 0 <= k < |more| ==> SlaveReady(more[k])
    ensures n <= CompleteAt(c, ins + more)
    ensures LeftAt(c, ins + more, n) + |more| <= LeftAt(c, ins, n) || LeftAt(c, ins + more, n) == 0
  {
    var f := (xs: seq<In>) => LeftAt(c, xs, n);
    var inv := (xs: seq<In>) => n <= CompleteAt(c, xs);
    forall ys, y
      ensures Falls(f, inv, SlaveReady, ys, y)
    {
      if inv(ys) && SlaveReady(y) {
        LeftAtStep(c, ys, y, n);
      }
    }
    CountDown(f, inv, SlaveReady, ins, more);
  }

  lemma LeftPositive(c: Config, s: State, m: nat)
    requires WellFormed(s) && 0 < m <= Inside(s)
    ensures Work(c, s, m) > 0
  {
    if s.w.None? && s.dataQueue != [] {
      QueueWorkPop(Take(s.dataQueue, m));
    }
  }

  /** Once the work is done, the writes are finished. */
  lemma AllFinished(c: Config, r: Run, r': Run, k: nat)
    requires Steady(c, r) && Steady(c, r') && k >= Work(c, r.s, Inside(r.s)) && Complete(r) <= Complete(r')
    requires var after := Left(c, r'.s, Finished(r'), Complete(r));
      after + k <= Left(c, r.s, Finished(r), Complete(r)) || after == 0
    ensures Finished(r') >= Complete(r)
  {
    CompleteInside(c, r);
    CompleteInside(c, r');
    assert Left(c, r.s, Finished(r), Complete(r)) == Work(c, r.s, Inside(r.s));
    if Finished(r') < Complete(r) {
      LeftPositive(c, r'.s, Complete(r) - Finished(r'));
    }
  }

  /** From any reachable state, while the slave stays ready, every write whose request and data are
      in finishes its burst within the number of cycles given by `Work`, whatever traffic keeps
      coming in: neither the reservation nor the burst machine can deadlock or starve a write. */
  lemma WritesDrain(c: Config, ins: seq<In>, more: seq<In>)
    requires c.Ok() && forall k :: 0 <= k < |more| ==> SlaveReady(more[k])
    requires |more| >= Work(c, RunOf(c, ins).s, Inside(RunOf(c, ins).s))
    ensures Finished(RunOf(c, ins + more)) >= Complete(RunOf(c, ins))
  {
    RunSteady(c, ins);
    RunSteady(c, ins + more);
    LeftRun(c, ins, more, CompleteAt(c, ins));
    AllFinished(c, RunOf(c, ins), RunOf(c, ins + more), |more|);
  }

  // ---------------------------------------------------------------------------------------------
  // When the beats are the addressed words
  // ---------------------------------------------------------------------------------------------

  /** The beats are the bus words of the line from the one that holds byte address `r.addr` on, with
      zeros beyond the line, and `last` on exactly the final one. */
  ghost predicate CarriesAddressed(c: Config, r: Req, data: Line, beats: seq<WBeat>) {
    exists w: nat :: IsAt(c, r.addr, w)
      && forall i :: 0 <= i < |beats| ==>
           beats[i] == WBeat(if w + i < |data| then data[w + i] else Lane(0, 0), i + 1 == |beats|)
  }

  /** The adapter sends the addressed words, whatever the data, exactly when the address falls in the
      first word of the line, or the write is uncached and its data were not early. */
  lemma AddressedExactly(c: Config, r: Req, early: bool)
    requires c.Ok()
    ensures (forall data: Line :: |data| == c.words ==>
              CarriesAddressed(c, r, data, BurstOf(EntryOf(c, r, data, early).line, Beats(c, r.size))))
       <==> IsAt(c, r.addr, 0) || (IsUncached(c, r.size) && !early)
  {
    var k := WordIndex(c, r.addr);
    IndexIsAt(c, r.addr);
    if IsAt(c, r.addr, 0) {
      AtIsIndex(c, r.addr, 0);
    }
    BurstCoversTransfer(c, r.size);
    if k == 0 || (IsUncached(c, r.size) && !early) {
      forall data: Line | |data| == c.words
        ensures CarriesAddressed(c, r, data, BurstOf(EntryOf(c, r, data, early).line, Beats(c, r.size)))
      {
        AddressedBeats(c, r, data, early);
      }
    } else {
      var data: Line := seq(c.words, i => if i == 0 then Lane(1, 1) else Lane(0, 0));
      var beats := BurstOf(EntryOf(c, r, data, early).line, Beats(c, r.size));
      assert beats[0] == WBeat(Lane(1, 1), 1 == |beats|);
      forall w: nat | IsAt(c, r.addr, w)
        ensures w == k
      {
        AtIsIndex(c, r.addr, w);
      }
      assert !CarriesAddressed(c, r, data, beats);
    }
  }

  lemma AddressedBeats(c: Config, r: Req, data: Line, early: bool)
    requires c.Ok() && (WordIndex(c, r.addr) == 0 || (IsUncached(c, r.size) && !early))
    ensures CarriesAddressed(c, r, data, BurstOf(EntryOf(c, r, data, early).line, Beats(c, r.size)))
  {
    var k := WordIndex(c, r.addr);
    var beats := BurstOf(EntryOf(c, r, data, early).line, Beats(c, r.size));
    IndexIsAt(c, r.addr);
    BurstCoversTransfer(c, r.size);
    forall i | 0 <= i < |beats|
      ensures beats[i] == WBeat(if k + i < |data| then data[k + i] else Lane(0, 0), i + 1 == |beats|)
    {
    }
  }

  // ---------------------------------------------------------------------------------------------
  // The channels, field by field
  // ---------------------------------------------------------------------------------------------

  /** What each cycle takes from its interfaces: a request if none is staged, data if none are staged,
      both only with room in the FIFOs or, for data, with their request staged; an AW when both halves
      are staged; a beat of the active burst; a B beat if a response is outstanding. */
  lemma Handshakes(c: Config, s: State, l: Log, i: In)
    requires c.Ok() && Reserved(c, s)
    ensures var l' := Record(c, s, l, i);
      var room := |s.dataQueue| < c.depth - 1 && |s.respQueue| < c.depth - 1;
      && l'.reqs == l.reqs + (if i.reqValid && s.req.None? && room then [i.req] else [])
      && l'.datas == l.datas + (if i.dataValid && s.data.None? && (room || s.req.Some?) then [i.data] else [])
      && |l'.aws| == |l.aws| + (if i.awReady && s.req.Some? && s.data.Some? then 1 else 0)
      && |l'.ws| == |l.ws| + (if i.wReady && s.w.Some? then 1 else 0)
      && l'.bs == l.bs + (if i.bValid && i.respReady && s.respQueue != [] then [i.b] else [])
  {
  }

  /** Beats of the first `k` writes. */
  function BeatsBefore(c: Config, reqs: seq<Req>, k: nat): nat
    requires k <= |reqs|
  {
    if k == 0 then 0 else BeatsBefore(c, reqs, k - 1) + Beats(c, reqs[k - 1].size)
  }

  lemma {:induction false} FlatLength(c: Config, l: Log, n: nat)
    requires c.Ok() && n <= |l.reqs| && n <= |l.datas| && n <= |l.early|
    ensures |Flat(Writes(c, l, n))| == BeatsBefore(c, l.reqs, n)
  {
    if n > 0 {
      WritesMore(c, l, n);
      FlatLength(c, l, n - 1);
      FlatPush(Writes(c, l, n - 1), EntryOf(c, l.reqs[n - 1], l.datas[n - 1], l.early[n - 1]));
    }
  }

  lemma WritesMore(c: Config, l: Log, n: nat)
    requires c.Ok() && 0 < n <= |l.reqs| && n <= |l.datas| && n <= |l.early|
    ensures Writes(c, l, n)
         == Writes(c, l, n - 1) + [EntryOf(c, l.reqs[n - 1], l.datas[n - 1], l.early[n - 1])]
  {
    SameBut(Writes(c, l, n), Writes(c, l, n - 1));
  }

  lemma SameBut<T>(all: seq<T>, before: seq<T>)
    requires |all| == |before| + 1 && forall k :: 0 <= k < |before| ==> all[k] == before[k]
    ensures all == before + [all[|before|]]
  {
  }

  /** Beat `i` of entry `k` in the stream. */
  lemma {:induction false} EntryAt(es: seq<Entry>, k: nat, i: nat)
    requires k < |es| && i < es[k].beats
    ensures |Flat(es[..k])| + i < |Flat(es)|
    ensures Flat(es)[|Flat(es[..k])| + i] == BurstOf(es[k].line, es[k].beats)[i]
  {
    var m := |es| - 1;
    if k < m {
      EntryAt(es[..m], k, i);
      assert es[..m][..k] == es[..k];
    }
  }

  /** Beat `i` of write `k` in the stream. */
  lemma FlatAt(c: Config, l: Log, n: nat, k: nat, i: nat)
    requires c.Ok() && n <= |l.reqs| && n <= |l.datas| && n <= |l.early|
    requires k < n && i < Beats(c, l.reqs[k].size)
    ensures BeatsBefore(c, l.reqs, k) + i < |Flat(Writes(c, l, n))|
    ensures Flat(Writes(c, l, n))[BeatsBefore(c, l.reqs, k) + i]
         == BurstOf(EntryOf(c, l.reqs[k], l.datas[k], l.early[k]).line, Beats(c, l.reqs[k].size))[i]
  {
    FlatLength(c, l, k);
    assert Writes(c, l, n)[..k] == Writes(c, l, k);
    EntryAt(Writes(c, l, n), k, i);
  }

  /** What beat `i` of a write carries: a write that fits in one bus word and whose data came in time
      carries the word that holds its byte address; any other carries word `i` of the line, and zeros
      beyond it. `last` marks the beat that completes the requested bytes. */
  ghost predicate BeatIs(c: Config, r: Req, data: Line, early: bool, i: nat, beat: WBeat) {
    && (beat.last <==> (i + 1) * Pow2(if r.size < c.log2 then r.size else c.log2) == Pow2(r.size))
    && (if Pow2(r.size) <= Pow2(c.log2) && !early
        then exists w: nat :: IsAt(c, r.addr, w) && beat.lane == if w < |data| then data[w] else Lane(0, 0)
        else beat.lane == if i < |data| then data[i] else Lane(0, 0))
  }

  lemma LastBeat(c: Config, size: MemSize, i: nat)
    requires c.Ok() && i < Beats(c, size)
    ensures i + 1 == Beats(c, size) <==> (i + 1) * Pow2(if size < c.log2 then size else c.log2) == Pow2(size)
  {
    BurstCoversTransfer(c, size);
    var b := Pow2(if size < c.log2 then size else c.log2);
    if i + 1 < Beats(c, size) {
      MulMonotone(i + 2, Beats(c, size), b);
      assert (i + 2) * b == (i + 1) * b + b;
    }
  }

  lemma EntryBeat(c: Config, r: Req, data: Line, early: bool, i: nat)
    requires c.Ok() && i < Beats(c, r.size)
    ensures BeatIs(c, r, data, early, i, BurstOf(EntryOf(c, r, data, early).line, Beats(c, r.size))[i])
  {
    IndexIsAt(c, r.addr);
    BurstCoversTransfer(c, r.size);
    LastBeat(c, r.size, i);
  }

  /** Where beat `i` of the `k`-th write is on the W channel: after the beats of the writes before. */
  function Place(c: Config, l: Log, k: nat, i: nat): nat
    requires k <= |l.reqs|
  {
    BeatsBefore(c, l.reqs, k) + i
  }

  lemma StreamAt(c: Config, l: Log, rest: seq<WBeat>, queued: seq<WBeat>, k: nat, i: nat)
    requires c.Ok() && |l.aws| <= |l.reqs| && |l.aws| <= |l.datas| && |l.aws| <= |l.early| && k < |l.aws|
    requires l.ws + rest + queued == Flat(Writes(c, l, |l.aws|))
    requires i < Beats(c, l.reqs[k].size) && Place(c, l, k, i) < |l.ws|
    ensures l.ws[Place(c, l, k, i)]
         == BurstOf(EntryOf(c, l.reqs[k], l.datas[k], l.early[k]).line, Beats(c, l.reqs[k].size))[i]
  {
    FlatAt(c, l, |l.aws|, k, i);
    PrefixAt(l.ws, rest, queued, Flat(Writes(c, l, |l.aws|)), Place(c, l, k, i));
  }

  /** In every run, each beat on the W channel is the one that its place says. */
  lemma BeatOnTheBus(c: Config, ins: seq<In>, r: Run, k: nat, i: nat)
    requires c.Ok() && r == RunOf(c, ins) && k < |r.l.aws|
    ensures |r.l.aws| <= |r.l.reqs| && |r.l.aws| <= |r.l.datas| && |r.l.aws| <= |r.l.early|
    ensures i < Beats(c, r.l.reqs[k].size) && Place(c, r.l, k, i) < |r.l.ws| ==>
      BeatIs(c, r.l.reqs[k], r.l.datas[k], r.l.early[k], i, r.l.ws[Place(c, r.l, k, i)])
  {
    EveryRunCorrect(c, ins);
    BeatCorrect(c, r, k, i);
  }

  lemma BeatCorrect(c: Config, r: Run, k: nat, i: nat)
    requires c.Ok() && Correct(c, r) && k < |r.l.aws|
    ensures i < Beats(c, r.l.reqs[k].size) && Place(c, r.l, k, i) < |r.l.ws| ==>
      BeatIs(c, r.l.reqs[k], r.l.datas[k], r.l.early[k], i, r.l.ws[Place(c, r.l, k, i)])
  {
    if i < Beats(c, r.l.reqs[k].size) && Place(c, r.l, k, i) < |r.l.ws| {
      StreamAt(c, r.l, Remaining(r.s.w), Flat(r.s.dataQueue), k, i);
      EntryBeat(c, r.l.reqs[k], r.l.datas[k], r.l.early[k], i);
    }
  }

  lemma PrefixAt<T>(a: seq<T>, b: seq<T>, c: seq<T>, all: seq<T>, i: nat)
    requires a + b + c == all && i < |a|
    ensures all[i] == a[i]
  {
  }

  /** An AW asks for what the request does: its ID, its address, and a length and size that move its
      bytes in beats of the bus width, or in one if they fit. */
  ghost predicate Asks(c: Config, q: Req, aw: Aw) {
    && aw.id == q.id && aw.addr == q.addr
    && aw.size == (if q.size < c.log2 then q.size else c.log2)
    && (aw.len + 1) * Pow2(aw.size) == Pow2(q.size)
  }

  lemma AwAsks(c: Config, q: Req)
    requires c.Ok()
    ensures Asks(c, q, AwOf(c, q))
  {
    BurstCoversTransfer(c, q.size);
  }

  lemma AwsAsk(c: Config, r: Run, k: nat)
    requires c.Ok() && Paired(c, r.s, r.l) && k < |r.l.aws|
    ensures |r.l.aws| <= |r.l.reqs| && Asks(c, r.l.reqs[k], r.l.aws[k])
  {
    AwAsks(c, r.l.reqs[k]);
  }

  /** In every run, AW number `k` asks for request number `k`. */
  lemma AwOnTheBus(c: Config, ins: seq<In>, r: Run, k: nat)
    requires c.Ok() && r == RunOf(c, ins) && k < |r.l.aws|
    ensures |r.l.aws| <= |r.l.reqs| && Asks(c, r.l.reqs[k], r.l.aws[k])
  {
    EveryRunCorrect(c, ins);
    AwsAsk(c, r, k);
  }

  /** The response to the cache, from the B beat: an error for SLVERR and DECERR alone. */
  ghost predicate Answers(b: B, r: Resp) {
    && r.id == b.id
    && (r.error <==> b.resp != Okay && b.resp != ExOkay)
    && (r.isAtomic <==> b.resp == ExOkay)
  }

  /** In every run, response number `k` is made from B beat number `k`. */
  lemma {:induction false} ResponsesAnswer(c: Config, ins: seq<In>)
    requires c.Ok()
    ensures var l := RunOf(c, ins).l;
      |l.resps| == |l.bs| && forall k :: 0 <= k < |l.resps| ==> Answers(l.bs[k], l.resps[k])
  {
    if |ins| > 0 {
      ResponsesAnswer(c, ins[..|ins| - 1]);
    }
  }

  // ---------------------------------------------------------------------------------------------
  // Runs that send other words
  // ---------------------------------------------------------------------------------------------

  /** Cycles in which the cache offers a request, offers data, or nothing; the slave is ready. */
  function OfferReq(r: Req): In {
    In(true, r, false, [], true, true, false, B(0, Okay), false)
  }

  function OfferData(data: Line): In {
    In(false, Req(0, 0, 0), true, data, true, true, false, B(0, Okay), false)
  }

  const QUIET := In(false, Req(0, 0, 0), false, [], true, true, false, B(0, Okay), false)

  /** Two cycles from reset, then three quiet ones. */
  function FiveCycles(c: Config, x: In, y: In): Run
    requires c.Ok()
  {
    var r := Next(c, Next(c, START, x), y);
    Next(c, Next(c, Next(c, r, QUIET), QUIET), QUIET)
  }

  lemma FiveCyclesRun(c: Config, x: In, y: In)
    requires c.Ok()
    ensures RunOf(c, [x, y, QUIET, QUIET, QUIET]) == FiveCycles(c, x, y)
  {
    var run := (xs: seq<In>) => RunOf(c, xs);
    var next := (r: Run, i: In) => Next(c, r, i);
    forall xs, i
      ensures FoldsAt(run, next, xs, i)
    {
      RunStep(c, xs, i);
    }
    FoldFive(run, next, x, y, QUIET);
  }

  /** With both halves staged in an otherwise empty adapter, the third cycle sends the first word. */
  lemma FirstBeat(c: Config, r: Run, q: Req, line: Line)
    requires c.Ok() && r.s == State(Some(q), Some(line), [], [], None)
    ensures var r' := Next(c, Next(c, Next(c, r, QUIET), QUIET), QUIET);
      r'.l == r.l.(aws := r.l.aws + [AwOf(c, q)], ws := r.l.ws + [WBeat(LaneAt(line, 0), Beats(c, q.size) == 1)])
  {
    var e := Entry(line, Beats(c, q.size));
    var a := Next(c, r, QUIET);
    assert a.s == State(None, None, [e], [q.id], None);
    var b := Next(c, a, QUIET);
    assert b.s == State(None, None, [], [q.id], Some(Burst(line, e.beats, 0)));
  }

  /** The log after a single write, whose first beat carried `lane`. */
  ghost predicate Sends(c: Config, l: Log, q: Req, data: Line, early: bool, lane: Lane) {
    && l.reqs == [q] && l.datas == [data] && l.early == [early] && l.aws == [AwOf(c, q)]
    && l.ws == [WBeat(lane, Beats(c, q.size) == 1)]
  }

  lemma EarlyCycles(c: Config, q: Req, data: Line)
    requires c.Ok()
    ensures Sends(c, FiveCycles(c, OfferData(data), OfferReq(q)).l, q, data, true, LaneAt(data, 0))
  {
    var a := Next(c, START, OfferData(data));
    assert a == Run(State(None, Some(data), [], [], None), Log([], [data], [true], [], [], [], []));
    var b := Next(c, a, OfferReq(q));
    assert b == Run(State(Some(q), Some(data), [], [], None), Log([q], [data], [true], [], [], [], []));
    FirstBeat(c, b, q, data);
  }

  lemma TimelyCycles(c: Config, q: Req, data: Line)
    requires c.Ok() && !IsUncached(c, q.size)
    ensures Sends(c, FiveCycles(c, OfferReq(q), OfferData(data)).l, q, data, false, LaneAt(data, 0))
  {
    var a := Next(c, START, OfferReq(q));
    assert a == Run(State(Some(q), None, [], [], None), Log([q], [], [], [], [], [], []));
    var b := Next(c, a, OfferData(data));
    assert b == Run(State(Some(q), Some(data), [], [], None), Log([q], [data], [false], [], [], [], []));
    FirstBeat(c, b, q, data);
  }

  /** Data do come in early: offered one cycle before their request, they are accepted, and word 0
      of the line is sent whatever word the request addresses. */
  lemma EarlyDataHappens(c: Config, q: Req, data: Line)
    requires c.Ok()
    ensures var r := RunOf(c, [OfferData(data), OfferReq(q), QUIET, QUIET, QUIET]);
      Sends(c, r.l, q, data, true, LaneAt(data, 0))
  {
    FiveCyclesRun(c, OfferData(data), OfferReq(q));
    EarlyCycles(c, q, data);
  }

  /** A burst of several beats starts at word 0 of the line, whatever word it addresses, even with
      its data in time. */
  lemma PartialLineHappens(c: Config, q: Req, data: Line)
    requires c.Ok() && !IsUncached(c, q.size)
    ensures var r := RunOf(c, [OfferReq(q), OfferData(data), QUIET, QUIET, QUIET]);
      Sends(c, r.l, q, data, false, LaneAt(data, 0))
  {
    FiveCyclesRun(c, OfferReq(q), OfferData(data));
    TimelyCycles(c, q, data);
  }
}
