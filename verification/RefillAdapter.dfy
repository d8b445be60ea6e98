/**
 The instruction-cache refill adapter: a four-state machine that turns a miss into one AR request
 and the answering burst into one line.
 */
module RefillAdapter {
  import opened AxiBurst

  /** Bus words in a line of 512 bits, on a bus of 8 to 512 bits. */
  type LineWords = n: nat | 1 <= n <= 64 witness 8

  datatype Ar = Ar(addr: nat, len: nat, size: nat)

  /** The AR request for a line: LEN is the number of beats minus one, in eight bits, and SIZE is
      fixed to eight bytes. */
  function ArOf(n: LineWords, addr: nat): Ar {
    Ar(addr, (n - 1) % 256, 3)
  }

  datatype Phase = Idle | SendAr | Receiving | Deliver

  /** What the environment drives in one cycle. */
  datatype In = In(reqValid: bool, paddr: nat, arReady: bool, rValid: bool, data: nat, last: bool)

  datatype State = State(phase: Phase, addr: nat, line: Words)

  predicate ArValid(s: State, i: In) {
    s.phase.SendAr? || (s.phase.Idle? && i.reqValid)
  }

  function ArOut(n: LineWords, s: State, i: In): Ar {
    ArOf(n, if s.phase.Idle? then i.paddr else s.addr)
  }

  predicate Miss(s: State, i: In) {
    s.phase.Idle? && i.reqValid
  }

  predicate RFire(s: State, i: In) {
    s.phase.Receiving? && i.rValid
  }

  function NextPhase(s: State, i: In): Phase {
    match s.phase
    case Idle => if i.reqValid then if i.arReady then Receiving else SendAr else Idle
    case SendAr => if i.arReady then Receiving else SendAr
    case Receiving => if i.rValid && i.last then Deliver else Receiving
    case Deliver => Idle
  }

  /** One clock edge, for lines of `n` bus words. */
  function Step(n: LineWords, s: State, i: In): State
    requires |s.line| == n
  {
    State(NextPhase(s, i),
          if Miss(s, i) then i.paddr else s.addr,
          if Miss(s, i) then Zeros(n) else if RFire(s, i) then s.line[1..] + [i.data] else s.line)
  }

  /** The registers. */
  class Refill {
    const n: LineWords
    var phase: Phase
    var addr: nat
    var line: Words

    ghost predicate Valid()
      reads this
    {
      |line| == n
    }

    ghost function View(): State
      reads this
    {
      State(phase, addr, line)
    }

    /** Reset. */
    constructor (n: LineWords)
      ensures Valid() && this.n == n && View() == State(Idle, 0, Zeros(n))
    {
      this.n := n;
      phase, addr, line := Idle, 0, Zeros(n);
    }

    /** What the adapter drives in a cycle. */
    method Outputs(i: In) returns (arValid: bool, ar: Ar, rReady: bool, respValid: bool, respLine: Words)
      requires Valid()
      ensures arValid == ArValid(View(), i) && ar == ArOut(n, View(), i)
      ensures rReady && i.rValid <==> RFire(View(), i)
      ensures respValid == View().phase.Deliver? && respLine == View().line
    {
      arValid := phase.SendAr? || (phase.Idle? && i.reqValid);
      ar := Ar(if phase.Idle? then i.paddr else addr, (n - 1) % 256, 3);
      rReady, respValid, respLine := phase.Receiving?, phase.Deliver?, line;
    }

    method Clock(i: In)
      requires Valid()
      modifies this
      ensures Valid() && View() == Step(n, old(View()), i)
    {
      match phase {
        case Idle =>
          if i.reqValid {
            addr, line := i.paddr, Zeros(n);
            phase := if i.arReady then Receiving else SendAr;
          }
        case SendAr =>
          if i.arReady {
            phase := Receiving;
          }
        case Receiving =>
          if i.rValid {
            line := line[1..] + [i.data];
            if i.last {
              phase := Deliver;
            }
          }
        case Deliver =>
          phase := Idle;
      }
    }
  }

  // ---------------------------------------------------------------------------------------------
  // Runs
  // ---------------------------------------------------------------------------------------------

  /** Addresses of the accepted misses, AR handshakes, completed bursts, beats of the burst being
      received, and delivered lines. */
  datatype Log = Log(
    misses: seq<nat>, ars: seq<Ar>, bursts: seq<Words>, current: Words, lines: seq<Words>)

  datatype Run = Run(s: State, l: Log)

  function Record(n: LineWords, s: State, l: Log, i: In): Log {
    var cur := l.current + if RFire(s, i) then [i.data] else [];
    var done := RFire(s, i) && i.last;
    Log(
      l.misses + (if Miss(s, i) then [i.paddr] else []),
      l.ars + (if ArValid(s, i) && i.arReady then [ArOut(n, s, i)] else []),
      l.bursts + (if done then [cur] else []),
      if done then [] else cur,
      l.lines + (if s.phase.Deliver? then [s.line] else []))
  }

  function RunOf(n: LineWords, ins: seq<In>): (r: Run)
    ensures |r.s.line| == n
  {
    if |ins| == 0 then Run(State(Idle, 0, Zeros(n)), Log([], [], [], [], []))
    else
      var r := RunOf(n, ins[..|ins| - 1]);
      Run(Step(n, r.s, ins[|ins| - 1]), Record(n, r.s, r.l, ins[|ins| - 1]))
  }

  /** The slave ends every burst after the number of beats that its AR asked for. */
  ghost predicate EnvOk(s: State, l: Log, i: In) {
    RFire(s, i) && |l.bursts| < |l.ars| ==> (i.last <==> |l.current| == l.ars[|l.bursts|].len)
  }

  ghost predicate Obeys(n: LineWords, ins: seq<In>) {
    forall k :: 0 <= k < |ins| ==> EnvOk(RunOf(n, ins[..k]).s, RunOf(n, ins[..k]).l, ins[k])
  }

  function Requests(n: LineWords, misses: seq<nat>): (r: seq<Ar>)
    ensures |r| == |misses|
  {
    seq(|misses|, k requires 0 <= k < |misses| => ArOf(n, misses[k]))
  }

  /** The AR channel carries the requests of the misses in order, one handshake each; the one still
      owed in `SendAr` is for the latched address. */
  ghost predicate OneArPerMiss(n: LineWords, s: State, l: Log) {
    Requests(n, l.misses) == l.ars + if s.phase.SendAr? then [ArOf(n, s.addr)] else []
  }

  /** One delivery per completed burst, whose line is the beats in order, as many as were asked for. */
  ghost predicate OneLinePerBurst(n: LineWords, s: State, l: Log) {
    && (forall k :: 0 <= k < |l.bursts| ==> |l.bursts[k]| == n)
    && l.bursts == l.lines + (if s.phase.Deliver? then [s.line] else [])
    && |l.ars| == |l.bursts| + (if s.phase.Receiving? then 1 else 0)
    && (if s.phase.Receiving? then |l.current| < n && s.line == (Zeros(n) + l.current)[|l.current|..]
        else l.current == [])
    && (s.phase.SendAr? ==> s.line == Zeros(n))
  }

  lemma ArStep(n: LineWords, s: State, l: Log, i: In)
    requires |s.line| == n && OneArPerMiss(n, s, l)
    ensures OneArPerMiss(n, Step(n, s, i), Record(n, s, l, i))
  {
    RequestsMore(n, l.misses, i.paddr);
    assert l.misses + [] == l.misses && l.ars + [] == l.ars;
  }

  lemma RequestsMore(n: LineWords, misses: seq<nat>, addr: nat)
    ensures Requests(n, misses + [addr]) == Requests(n, misses) + [ArOf(n, addr)]
  {
  }

  /** Every AR asks for as many beats as the line has words. */
  lemma ArLength(n: LineWords, s: State, l: Log, k: nat)
    requires OneArPerMiss(n, s, l) && k < |l.ars|
    ensures l.ars[k].len == n - 1
  {
    assert l.ars[k] == Requests(n, l.misses)[k];
  }

  lemma LineStep(n: LineWords, s: State, l: Log, i: In)
    requires |s.line| == n && OneArPerMiss(n, s, l) && OneLinePerBurst(n, s, l) && EnvOk(s, l, i)
    ensures OneLinePerBurst(n, Step(n, s, i), Record(n, s, l, i))
  {
    if RFire(s, i) {
      ArLength(n, s, l, |l.bursts|);
      var cur := l.current + [i.data];
      assert (Zeros(n) + l.current)[|l.current|..][1..] + [i.data] == (Zeros(n) + cur)[|cur|..];
      if i.last {
        assert (Zeros(n) + cur)[n..] == cur;
      }
    } else {
      assert l.current + [] == l.current;
    }
  }

  /** Every accepted miss causes exactly one AR handshake, in order, and every burst exactly one
      delivery, whose line is the beats received, least significant first. */
  lemma {:induction false} EveryRunCorrect(n: LineWords, ins: seq<In>)
    requires Obeys(n, ins)
    ensures var r := RunOf(n, ins); OneArPerMiss(n, r.s, r.l) && OneLinePerBurst(n, r.s, r.l)
  {
    if |ins| > 0 {
      var m := |ins| - 1;
      var before := ins[..m];
      forall k | 0 <= k < m
        ensures EnvOk(RunOf(n, before[..k]).s, RunOf(n, before[..k]).l, before[k])
      {
        assert before[..k] == ins[..k] && before[k] == ins[k];
      }
      EveryRunCorrect(n, before);
      var r := RunOf(n, before);
      ArStep(n, r.s, r.l, ins[m]);
      LineStep(n, r.s, r.l, ins[m]);
    }
  }

  /** Back in `Idle`, the lines delivered are one for every miss. */
  lemma IdleMeansAnswered(n: LineWords, ins: seq<In>)
    requires Obeys(n, ins) && RunOf(n, ins).s.phase.Idle?
    ensures var l := RunOf(n, ins).l;
      l.ars == Requests(n, l.misses) && l.lines == l.bursts && |l.lines| == |l.misses|
  {
    EveryRunCorrect(n, ins);
  }

  lemma RunStep(n: LineWords, ins: seq<In>, i: In)
    ensures var r := RunOf(n, ins);
      RunOf(n, ins + [i]) == Run(Step(n, r.s, i), Record(n, r.s, r.l, i))
  {
    assert (ins + [i])[..|ins|] == ins;
  }

  /** An AR request that is not taken stays up, unchanged, for as long as the slave does not take it,
      whatever the cache drives meanwhile, and no further miss is accepted. */
  lemma {:induction false} ArHolds(n: LineWords, ins: seq<In>, i: In, more: seq<In>, j: In)
    requires ArValid(RunOf(n, ins).s, i) && !i.arReady
    requires forall k :: 0 <= k < |more| ==> !more[k].arReady
    ensures var r, r', r'' := RunOf(n, ins), RunOf(n, ins + [i]), RunOf(n, ins + [i] + more);
      && r''.s.phase.SendAr? && ArOut(n, r''.s, j) == ArOut(n, r.s, i)
      && r''.l.ars == r.l.ars && r''.l.misses == r'.l.misses
  {
    if |more| == 0 {
      RunStep(n, ins, i);
      assert ins + [i] + more == ins + [i];
    } else {
      var m := |more| - 1;
      ArHolds(n, ins, i, more[..m], j);
      RunStep(n, ins + [i] + more[..m], more[m]);
      assert ins + [i] + more == ins + [i] + more[..m] + [more[m]];
    }
  }

  /** What each cycle takes from its interfaces: a miss in `Idle`; an AR as soon as a miss is offered and
      until it is taken; a beat in `Receiving`; and the line leaves in `Deliver`. */
  lemma Handshakes(n: LineWords, s: State, l: Log, i: In)
    ensures var l' := Record(n, s, l, i);
      var offered := s.phase.SendAr? || (s.phase.Idle? && i.reqValid);
      var beat := s.phase.Receiving? && i.rValid;
      && l'.misses == l.misses + (if s.phase.Idle? && i.reqValid then [i.paddr] else [])
      && |l'.ars| == |l.ars| + (if offered && i.arReady then 1 else 0)
      && l'.bursts == l.bursts + (if beat && i.last then [l.current + [i.data]] else [])
      && l'.current == (if beat then if i.last then [] else l.current + [i.data] else l.current)
      && l'.lines == l.lines + (if s.phase.Deliver? then [s.line] else [])
  {
  }

  /** An AR asks for a line at the address, in beats of eight bytes, one for each bus word. */
  predicate Asks(n: LineWords, addr: nat, ar: Ar) {
    ar.addr == addr && ar.len + 1 == n && ar.size == 3
  }

  lemma ArsAsk(n: LineWords, r: Run, k: nat)
    requires OneArPerMiss(n, r.s, r.l) && k < |r.l.ars|
    ensures |r.l.ars| <= |r.l.misses| && Asks(n, r.l.misses[k], r.l.ars[k])
  {
    assert r.l.ars[k] == Requests(n, r.l.misses)[k];
  }

  /** In every run, AR number `k` asks for the line of miss number `k`. */
  lemma ArOnTheBus(n: LineWords, ins: seq<In>, r: Run, k: nat)
    requires Obeys(n, ins) && r == RunOf(n, ins) && k < |r.l.ars|
    ensures |r.l.ars| <= |r.l.misses| && Asks(n, r.l.misses[k], r.l.ars[k])
  {
    EveryRunCorrect(n, ins);
    ArsAsk(n, r, k);
  }
}
