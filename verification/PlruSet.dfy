/**
 One set of the cache directory under pseudo-LRU replacement, as a value: the specification that
 the array code of module CacheDirectory is proved against, and the guarantees of the policy over
 every run of operations.
 */
module PlruSet {

  /** One way: an invalidated way keeps its old tag. */
  datatype Entry = Entry(valid: bool, tag: nat, recent: bool)

  type Ways = seq<Entry>

  datatype Op =
    | Access(tag: nat)      // lookup that updates the replacement bits on a hit
    | Replace(tag: nat)     // allocate a way for a line
    | InvalLine(tag: nat)   // invalidate by address
    | InvalWay(way: nat)    // invalidate by way

  datatype Outcome = Filled(way: nat) | Evicted(way: nat, victim: nat) | Stuck

  function Empty(ways: nat): Ways {
    seq(ways, _ => Entry(false, 0, false))
  }

  /** First way from `from` on that satisfies `p`, or the number of ways. */
  function First(s: Ways, p: Entry -> bool, from: nat): (w: nat)
    requires from <= |s|
    ensures from <= w <= |s|
    ensures w < |s| ==> p(s[w])
    ensures forall v :: from <= v < w ==> !p(s[v])
    decreases |s| - from
  {
    if from == |s| || p(s[from]) then from else First(s, p, from + 1)
  }

  function HitWay(s: Ways, tag: nat): nat {
    First(s, (e: Entry) => e.valid && e.tag == tag, 0)
  }

  function FreeWay(s: Ways): nat {
    First(s, (e: Entry) => !e.valid, 0)
  }

  function StaleWay(s: Ways): nat {
    First(s, (e: Entry) => !e.recent, 0)
  }

  /** First way with the tag, valid or not. */
  function TagWay(s: Ways, tag: nat): nat {
    First(s, (e: Entry) => e.tag == tag, 0)
  }

  predicate AllRecent(s: Ways) {
    forall w :: 0 <= w < |s| ==> s[w].recent
  }

  /** Mark way `w` as recently used; when that would mark all ways, the others are unmarked. */
  function Touch(s: Ways, w: nat): (r: Ways)
    requires w < |s|
    ensures |r| == |s|
  {
    var t := s[w := s[w].(recent := true)];
    if AllRecent(t) then seq(|s|, i requires 0 <= i < |s| => s[i].(recent := i == w)) else t
  }

  function Outcomes(s: Ways): (r: Outcome)
    ensures !r.Stuck? ==> r.way < |s|
  {
    if FreeWay(s) < |s| then Filled(FreeWay(s))
    else if StaleWay(s) < |s| then Evicted(StaleWay(s), s[StaleWay(s)].tag)
    else Stuck
  }

  function Put(s: Ways, w: nat, tag: nat): (r: Ways)
    requires w < |s|
    ensures |r| == |s|
  {
    Touch(s[w := Entry(true, tag, s[w].recent)], w)
  }

  function Step(s: Ways, op: Op): (r: Ways)
    ensures |r| == |s|
  {
    match op
    case Access(tag) => if HitWay(s, tag) < |s| then Touch(s, HitWay(s, tag)) else s
    case Replace(tag) => if Outcomes(s).Stuck? then s else Put(s, Outcomes(s).way, tag)
    case InvalLine(tag) =>
      var w := TagWay(s, tag);
      if w < |s| then s[w := s[w].(valid := false)] else s
    case InvalWay(w) => if w < |s| then s[w := s[w].(valid := false)] else s
  }

  function Run(s: Ways, ops: seq<Op>): (r: Ways)
    ensures |r| == |s|
  {
    if |ops| == 0 then s else Step(Run(s, ops[..|ops| - 1]), ops[|ops| - 1])
  }

  lemma RunExtend(s: Ways, ops: seq<Op>, op: Op)
    ensures Run(s, ops + [op]) == Step(Run(s, ops), op)
  {
    assert (ops + [op])[..|ops|] == ops;
  }

  /** The lines held by the set. */
  function Lines(s: Ways): set<nat> {
    set w | 0 <= w < |s| && s[w].valid :: s[w].tag
  }

  // ---------------------------------------------------------------------------------------------
  // Invariants of reachable sets
  // ---------------------------------------------------------------------------------------------

  /** No way below a valid way holds its tag, not even as a leftover of an invalidated line. */
  ghost predicate NoShadow(s: Ways) {
    forall v, w :: 0 <= v < w < |s| && s[w].valid ==> s[v].tag != s[w].tag
  }

  ghost predicate HasStale(s: Ways) {
    exists w :: 0 <= w < |s| && !s[w].recent
  }

  /** Every replacement in the run is for a line that the set does not hold. */
  ghost predicate ReplacesOnMiss(s: Ways, ops: seq<Op>) {
    forall i :: 0 <= i < |ops| && ops[i].Replace? ==> ops[i].tag !in Lines(Run(s, ops[..i]))
  }

  lemma HitIsMembership(s: Ways, tag: nat)
    ensures HitWay(s, tag) < |s| <==> tag in Lines(s)
  {
    if tag in Lines(s) {
      var w :| 0 <= w < |s| && s[w].valid && s[w].tag == tag;
      assert HitWay(s, tag) <= w;
    }
  }

  lemma TouchKeeps(s: Ways, w: nat)
    requires w < |s|
    ensures forall v :: 0 <= v < |s| ==>
      Touch(s, w)[v].valid == s[v].valid && Touch(s, w)[v].tag == s[v].tag
    ensures Touch(s, w)[w].recent
    ensures |s| >= 2 ==> HasStale(Touch(s, w))
  {
    var t := s[w := s[w].(recent := true)];
    if AllRecent(t) && |s| >= 2 {
      assert !Touch(s, w)[if w == 0 then 1 else 0].recent;
    }
  }

  lemma PutKeeps(s: Ways, w: nat, tag: nat)
    requires w < |s|
    ensures var r := Put(s, w, tag);
      && r[w].valid && r[w].tag == tag && r[w].recent
      && (forall v :: 0 <= v < |s| && v != w ==> r[v].valid == s[v].valid && r[v].tag == s[v].tag)
      && (|s| >= 2 ==> HasStale(r))
  {
    TouchKeeps(s[w := Entry(true, tag, s[w].recent)], w);
  }

  lemma StepKeepsStale(s: Ways, op: Op)
    requires |s| >= 2 && HasStale(s)
    ensures HasStale(Step(s, op))
  {
    match op
    case Access(tag) => if HitWay(s, tag) < |s| { TouchKeeps(s, HitWay(s, tag)); }
    case Replace(tag) => if !Outcomes(s).Stuck? { PutKeeps(s, Outcomes(s).way, tag); }
    case InvalLine(tag) => var w :| 0 <= w < |s| && !s[w].recent; assert !Step(s, op)[w].recent;
    case InvalWay(_) => var w :| 0 <= w < |s| && !s[w].recent; assert !Step(s, op)[w].recent;
  }

  /** With a bit clear, replacement finds a way: the "all plru bits are set" assertion is dead. */
  lemma StaleMeansNotStuck(s: Ways)
    requires HasStale(s)
    ensures !Outcomes(s).Stuck?
  {
    var w :| 0 <= w < |s| && !s[w].recent;
    assert StaleWay(s) <= w;
  }

  /** Replacement keeps the no-shadow property exactly when the line misses, or when the victim
      picked happens to be the line itself. */
  lemma ReplaceKeepsNoShadow(s: Ways, tag: nat)
    requires NoShadow(s) && !Outcomes(s).Stuck?
    ensures NoShadow(Step(s, Replace(tag)))
       <==> tag !in Lines(s) || (Outcomes(s).Evicted? && Outcomes(s).victim == tag)
  {
    var w := Outcomes(s).way;
    var r := Put(s, w, tag);
    PutKeeps(s, w, tag);
    if tag in Lines(s) {
      var h :| 0 <= h < |s| && s[h].valid && s[h].tag == tag;
      if h != w {
        assert r[h].valid && r[h].tag == r[w].tag && r[w].valid;
        assert !NoShadow(r);
        if Outcomes(s).Evicted? {
          assert s[w].valid;
        }
      } else {
        assert forall v :: 0 <= v < |s| ==> r[v].valid == s[v].valid && r[v].tag == s[v].tag;
      }
    } else {
      forall u, v | 0 <= u < v < |s| && r[v].valid
        ensures r[u].tag != r[v].tag
      {
        if u == w {
          assert s[v].tag in Lines(s);
        } else if v == w {
          assert Outcomes(s).Evicted? || u < FreeWay(s);
          assert s[u].valid;
          assert s[u].tag in Lines(s);
        }
      }
    }
  }

  lemma StepKeepsNoShadow(s: Ways, op: Op)
    requires NoShadow(s) && (op.Replace? ==> op.tag !in Lines(s))
    ensures NoShadow(Step(s, op))
  {
    if op.Access? && HitWay(s, op.tag) < |s| {
      TouchKeeps(s, HitWay(s, op.tag));
    } else if op.Replace? && !Outcomes(s).Stuck? {
      ReplaceKeepsNoShadow(s, op.tag);
    }
  }

  lemma MissPrefix(s: Ways, ops: seq<Op>)
    requires |ops| > 0 && ReplacesOnMiss(s, ops)
    ensures ReplacesOnMiss(s, ops[..|ops| - 1])
  {
    var before := ops[..|ops| - 1];
    forall i | 0 <= i < |before| && before[i].Replace?
      ensures before[i].tag !in Lines(Run(s, before[..i]))
    {
      assert before[..i] == ops[..i] && before[i] == ops[i];
    }
  }

  lemma {:induction false} RunKeepsStale(s: Ways, ops: seq<Op>)
    requires |s| >= 2 && HasStale(s)
    ensures HasStale(Run(s, ops))
  {
    if |ops| > 0 {
      RunKeepsStale(s, ops[..|ops| - 1]);
      StepKeepsStale(Run(s, ops[..|ops| - 1]), ops[|ops| - 1]);
    }
  }

  lemma {:induction false} RunKeepsNoShadow(s: Ways, ops: seq<Op>)
    requires NoShadow(s) && ReplacesOnMiss(s, ops)
    ensures NoShadow(Run(s, ops))
  {
    if |ops| > 0 {
      MissPrefix(s, ops);
      RunKeepsNoShadow(s, ops[..|ops| - 1]);
      StepKeepsNoShadow(Run(s, ops[..|ops| - 1]), ops[|ops| - 1]);
    }
  }

  /** Over every run from reset: a bit is always clear, whatever the operations; and the no-shadow
      property holds as long as replacements are for missing lines. */
  lemma ReachableInvariant(ways: nat, ops: seq<Op>)
    requires ways >= 2
    ensures HasStale(Run(Empty(ways), ops))
    ensures ReplacesOnMiss(Empty(ways), ops) ==> NoShadow(Run(Empty(ways), ops))
  {
    var e := Empty(ways);
    assert !e[0].recent;
    RunKeepsStale(e, ops);
    if ReplacesOnMiss(e, ops) {
      RunKeepsNoShadow(e, ops);
    }
  }

  /** A single-way set is stuck at the second replacement. */
  lemma OneWayGetsStuck(tag: nat)
    ensures Outcomes(Run(Empty(1), [Replace(tag)])).Stuck?
    ensures !Outcomes(Run(Empty(1), [])).Stuck?
  {
    var e := Empty(1);
    assert Run(e, []) == e;
    assert [Replace(tag)][..0] == [];
    var r := Run(e, [Replace(tag)]);
    assert r == Step(e, Replace(tag)) == Put(e, 0, tag);
    assert r == [Entry(true, tag, true)];
  }

  // ---------------------------------------------------------------------------------------------
  // Refinement of a set of lines
  // ---------------------------------------------------------------------------------------------

  /** Replacement on a miss adds the requested line, and removes a line if and only if it reports a
      victim, which happens exactly when every way is occupied. */
  lemma ReplaceRefines(s: Ways, tag: nat)
    requires NoShadow(s) && HasStale(s) && tag !in Lines(s)
    ensures match Outcomes(s)
      case Stuck => false
      case Filled(w) => !s[w].valid && Lines(Step(s, Replace(tag))) == Lines(s) + {tag}
      case Evicted(w, victim) =>
        && (forall v :: 0 <= v < |s| ==> s[v].valid)
        && victim in Lines(s)
        && Lines(Step(s, Replace(tag))) == Lines(s) - {victim} + {tag}
  {
    StaleMeansNotStuck(s);
    var w := Outcomes(s).way;
    var r := Put(s, w, tag);
    PutKeeps(s, w, tag);
    assert tag in Lines(r);
    var gone := if Outcomes(s).Evicted? then {s[w].tag} else {};
    forall t
      ensures t in Lines(r) <==> t in Lines(s) - gone + {tag}
    {
      if t in Lines(s) && t !in gone {
        var v :| 0 <= v < |s| && s[v].valid && s[v].tag == t;
        assert v != w && r[v].valid && r[v].tag == t;
      }
      if t in Lines(r) && t != tag {
        var v :| 0 <= v < |s| && r[v].valid && r[v].tag == t;
        assert v != w && s[v].valid && s[v].tag == t;
        assert Outcomes(s).Evicted? ==> s[v].tag != s[w].tag;
      }
    }
    assert Lines(r) == Lines(s) - gone + {tag};
  }

  /** The only way that may hold the line is the first one with its tag, valid or not. */
  ghost predicate Unshadowed(s: Ways, tag: nat) {
    forall w :: 0 <= w < |s| && s[w].valid && s[w].tag == tag ==> w == TagWay(s, tag)
  }

  /** Invalidation by address never touches another line. It removes the line itself exactly when
      no earlier way shadows it, since it stops at the first way with the tag without looking at the
      valid bit. */
  lemma InvalLineExact(s: Ways, tag: nat)
    ensures Lines(Step(s, InvalLine(tag))) - {tag} == Lines(s) - {tag}
    ensures HitWay(Step(s, InvalLine(tag)), tag) == |s| <==> Unshadowed(s, tag)
  {
    var r := Step(s, InvalLine(tag));
    forall t | t != tag
      ensures t in Lines(r) <==> t in Lines(s)
    {
      if t in Lines(r) {
        var v :| 0 <= v < |s| && r[v].valid && r[v].tag == t;
        assert s[v].valid && s[v].tag == t;
      }
      if t in Lines(s) {
        var v :| 0 <= v < |s| && s[v].valid && s[v].tag == t;
        assert r[v].valid && r[v].tag == t;
      }
    }
    HitIsMembership(r, tag);
    if !Unshadowed(s, tag) {
      var w :| 0 <= w < |s| && s[w].valid && s[w].tag == tag && w != TagWay(s, tag);
      assert r[w].valid && r[w].tag == tag;
    }
  }

  /** Without shadows, invalidation by address removes exactly that line. */
  lemma InvalLineRefines(s: Ways, tag: nat)
    requires NoShadow(s)
    ensures Lines(Step(s, InvalLine(tag))) == Lines(s) - {tag}
    ensures HitWay(Step(s, InvalLine(tag)), tag) == |s|
  {
    InvalLineExact(s, tag);
    HitIsMembership(Step(s, InvalLine(tag)), tag);
  }

  /** Invalidation by way clears the valid bit of that way, and changes nothing else. */
  lemma InvalWayClears(s: Ways, w: nat)
    requires w < |s|
    ensures var r := Step(s, InvalWay(w));
      && !r[w].valid && r[w].tag == s[w].tag && r[w].recent == s[w].recent
      && forall v :: 0 <= v < |s| && v != w ==> r[v] == s[v]
  {
  }

  /** Marking a way: it is recent afterwards; the others keep their bits, unless that left no bit
      clear, in which case they are all cleared. Lines do not change. */
  lemma TouchMeaning(s: Ways, w: nat, v: nat)
    requires w < |s| && v < |s|
    ensures var r := Touch(s, w);
      && r[v].valid == s[v].valid && r[v].tag == s[v].tag
      && (r[v].recent <==> v == w || (s[v].recent && exists u :: 0 <= u < |s| && u != w && !s[u].recent))
  {
    var t := s[w := s[w].(recent := true)];
    if AllRecent(t) {
      assert forall u :: 0 <= u < |s| && u != w ==> t[u].recent && s[u].recent;
    } else {
      var u :| 0 <= u < |s| && !t[u].recent;
      assert u != w && !s[u].recent;
    }
  }

  /** In every state reached by replacements on misses, an invalidated line no longer hits. */
  lemma InvalidatedLineMisses(ways: nat, ops: seq<Op>, tag: nat)
    requires ways >= 2 && ReplacesOnMiss(Empty(ways), ops)
    ensures HitWay(Step(Run(Empty(ways), ops), InvalLine(tag)), tag) == ways
  {
    ReachableInvariant(ways, ops);
    InvalLineRefines(Run(Empty(ways), ops), tag);
  }

  /** A run from reset after which invalidation misses the line: a replacement on a hit leaves the
      line twice, and invalidating the lower copy makes it a shadow of the other. */
  lemma InvalLineCanMiss(tag: nat)
    ensures var ops := [Replace(tag), Replace(tag), InvalWay(0)];
      var s := Run(Empty(2), ops);
      tag in Lines(s) && tag in Lines(Step(s, InvalLine(tag)))
  {
    var e := Empty(2);
    RunExtend(e, [], Replace(tag));
    RunExtend(e, [Replace(tag)], Replace(tag));
    RunExtend(e, [Replace(tag), Replace(tag)], InvalWay(0));
    assert [Replace(tag)] + [Replace(tag)] == [Replace(tag), Replace(tag)];
    assert [Replace(tag), Replace(tag)] + [InvalWay(0)] == [Replace(tag), Replace(tag), InvalWay(0)];
    var a := Step(e, Replace(tag));
    assert a == Put(e, 0, tag) == [Entry(true, tag, true), Entry(false, 0, false)];
    var b := Step(a, Replace(tag));
    assert a[0].valid && !a[1].valid && FreeWay(a) == 1;
    assert b == Put(a, 1, tag) == [Entry(true, tag, false), Entry(true, tag, true)];
    var s := Step(b, InvalWay(0));
    assert s == [Entry(false, tag, false), Entry(true, tag, true)];
    assert s[1].valid && s[1].tag == tag;
    assert s[0].tag == tag && TagWay(s, tag) == 0;
    var r := Step(s, InvalLine(tag));
    assert r[1].valid && r[1].tag == tag;
  }

  // ---------------------------------------------------------------------------------------------
  // Recency
  // ---------------------------------------------------------------------------------------------

  lemma {:induction false} InvalsKeepBits(s: Ways, invals: seq<Op>)
    requires forall i :: 0 <= i < |invals| ==> invals[i].InvalLine? || invals[i].InvalWay?
    ensures forall w :: 0 <= w < |s| ==> Run(s, invals)[w].recent == s[w].recent
  {
    if |invals| > 0 {
      InvalsKeepBits(s, invals[..|invals| - 1]);
    }
  }

  /** The way most recently hit or filled is not the set's next victim, whatever is invalidated
      in between. */
  lemma MostRecentIsSafe(s: Ways, op: Op, w: nat, invals: seq<Op>)
    requires |s| >= 2 && w < |s|
    requires (op.Access? && HitWay(s, op.tag) == w)
          || (op.Replace? && !Outcomes(s).Stuck? && Outcomes(s).way == w)
    requires forall i :: 0 <= i < |invals| ==> invals[i].InvalLine? || invals[i].InvalWay?
    ensures var next := Outcomes(Run(Step(s, op), invals)); next.Evicted? ==> next.way != w
  {
    if op.Access? {
      TouchKeeps(s, w);
    } else {
      PutKeeps(s, w, op.tag);
    }
    InvalsKeepBits(Step(s, op), invals);
  }

  /** Number of ways below `n` that are not recently used. */
  function Stale(s: Ways, n: nat): (k: nat)
    requires n <= |s|
    ensures k <= n
  {
    if n == 0 then 0 else Stale(s, n - 1) + if s[n - 1].recent then 0 else 1
  }

  /** How many evictions way `x` can still see before it is the victim itself, plus one. */
  function Budget(s: Ways, x: nat): (b: nat)
    requires x < |s|
    ensures b >= 1 || |s| == 1
  {
    if s[x].recent then Stale(s, |s|) + |s| - 1 else Stale(s, x) + 1
  }

  lemma {:induction false} StaleMark(s: Ways, w: nat, n: nat)
    requires w < |s| && n <= |s|
    ensures Stale(s[w := s[w].(recent := true)], n)
         == Stale(s, n) - if w < n && !s[w].recent then 1 else 0
  {
    if n > 0 {
      StaleMark(s, w, n - 1);
    }
  }

  lemma {:induction false} StaleSame(s: Ways, t: Ways, n: nat)
    requires |s| == |t| && n <= |s|
    requires forall w :: 0 <= w < n ==> s[w].recent == t[w].recent
    ensures Stale(s, n) == Stale(t, n)
  {
    if n > 0 {
      StaleSame(s, t, n - 1);
    }
  }

  lemma {:induction false} StaleAllButOne(s: Ways, w: nat, n: nat)
    requires w < |s| && n <= |s|
    requires forall v :: 0 <= v < |s| ==> s[v].recent == (v == w)
    ensures Stale(s, n) == n - if w < n then 1 else 0
  {
    if n > 0 {
      StaleAllButOne(s, w, n - 1);
    }
  }

  lemma {:induction false} StalePositive(s: Ways, w: nat, n: nat)
    requires w < n <= |s| && !s[w].recent
    ensures Stale(s, n) >= 1
  {
    if w < n - 1 {
      StalePositive(s, w, n - 1);
    }
  }

  /** Using another way never raises the budget of `x`, and lowers it if that way was stale and
      would have been taken before `x`. */
  lemma TouchBudget(s: Ways, w: nat, x: nat)
    requires w < |s| && x < |s| && w != x
    ensures Budget(Touch(s, w), x) <= Budget(s, x)
    ensures !s[w].recent && (s[x].recent || w < x) ==> Budget(Touch(s, w), x) < Budget(s, x)
  {
    var t := s[w := s[w].(recent := true)];
    StaleMark(s, w, |s|);
    StaleMark(s, w, x);
    if AllRecent(t) {
      assert t[x].recent && !Touch(s, w)[x].recent;
      StaleAllButOne(Touch(s, w), w, x);
      if !s[w].recent {
        StalePositive(s, w, |s|);
      }
    } else if !s[x].recent && w < x && !s[w].recent {
      StalePositive(s, w, x);
    }
  }

  lemma SameBitsBudget(s: Ways, t: Ways, x: nat)
    requires |s| == |t| && x < |s|
    requires forall w :: 0 <= w < |s| ==> s[w].recent == t[w].recent
    ensures Budget(s, x) == Budget(t, x)
  {
    StaleSame(s, t, |s|);
    StaleSame(s, t, x);
  }

  /** The operation does not use, fill, evict or invalidate way `x`. */
  ghost predicate Spares(s: Ways, op: Op, x: nat) {
    match op
    case Access(tag) => HitWay(s, tag) != x
    case Replace(tag) => Outcomes(s).Stuck? || Outcomes(s).way != x
    case InvalLine(tag) => TagWay(s, tag) != x
    case InvalWay(w) => w != x
  }

  ghost predicate RunSpares(s: Ways, ops: seq<Op>, x: nat) {
    forall i :: 0 <= i < |ops| ==> Spares(Run(s, ops[..i]), ops[i], x)
  }

  function Evicts(s: Ways, op: Op): nat {
    if op.Replace? && Outcomes(s).Evicted? then 1 else 0
  }

  /** Number of evictions in a run. */
  function Evictions(s: Ways, ops: seq<Op>): nat {
    if |ops| == 0 then 0
    else Evictions(s, ops[..|ops| - 1]) + Evicts(Run(s, ops[..|ops| - 1]), ops[|ops| - 1])
  }

  lemma StepBudget(s: Ways, op: Op, x: nat)
    requires x < |s| && Spares(s, op, x)
    ensures Budget(Step(s, op), x) + Evicts(s, op) <= Budget(s, x)
  {
    match op
    case Access(tag) => if HitWay(s, tag) < |s| { TouchBudget(s, HitWay(s, tag), x); }
    case Replace(tag) =>
      if !Outcomes(s).Stuck? {
        var w := Outcomes(s).way;
        var t := s[w := Entry(true, tag, s[w].recent)];
        SameBitsBudget(s, t, x);
        TouchBudget(t, w, x);
      }
    case InvalLine(_) => SameBitsBudget(s, Step(s, op), x);
    case InvalWay(_) => SameBitsBudget(s, Step(s, op), x);
  }

  lemma {:induction false} RunBudget(s: Ways, ops: seq<Op>, x: nat)
    requires x < |s| && RunSpares(s, ops, x)
    ensures Budget(Run(s, ops), x) + Evictions(s, ops) <= Budget(s, x)
  {
    if |ops| > 0 {
      var m := |ops| - 1;
      var before := ops[..m];
      forall i | 0 <= i < m
        ensures Spares(Run(s, before[..i]), before[i], x)
      {
        assert before[..i] == ops[..i] && before[i] == ops[i];
      }
      RunBudget(s, before, x);
      StepBudget(Run(s, before), ops[m], x);
    }
  }

  /** Bounded eviction: a line that is neither used nor invalidated outlives at most 2W-3 evictions
      in its set, so it is the victim no later than the (2W-2)-th, however accesses to other lines,
      fills and invalidations are interleaved. */
  lemma BoundedEviction(s: Ways, ops: seq<Op>, x: nat)
    requires |s| >= 2 && x < |s| && RunSpares(s, ops, x)
    ensures Evictions(s, ops) <= 2 * |s| - 3
  {
    RunBudget(s, ops, x);
    if s[x].recent {
      StaleMark(s, x, |s|);
      NotAllStale(s, x, |s|);
    }
  }

  lemma {:induction false} NotAllStale(s: Ways, x: nat, n: nat)
    requires x < n <= |s| && s[x].recent
    ensures Stale(s, n) <= n - 1
  {
    if x < n - 1 {
      NotAllStale(s, x, n - 1);
    }
  }

  // ---------------------------------------------------------------------------------------------
  // The bound is tight
  // ---------------------------------------------------------------------------------------------

  /** A full set in which exactly the ways below `k` and way `y` are recently used, and all tags
      are below `bound`. */
  ghost predicate Pattern(s: Ways, k: nat, y: nat, bound: nat) {
    forall w :: 0 <= w < |s| ==>
      s[w].valid && s[w].tag < bound && (s[w].recent <==> w < k || w == y)
  }

  lemma PatternStep(s: Ways, k: nat, y: nat, tag: nat)
    requires Pattern(s, k, y, tag) && k < |s| && k != y && y < |s|
    ensures tag !in Lines(s)
    ensures Outcomes(s).Evicted? && Outcomes(s).way == k
    ensures k + 1 < |s| && !(k + 2 == |s| && y == k + 1) ==>
      Pattern(Step(s, Replace(tag)), k + 1, y, tag + 1)
    ensures k + 2 == |s| && y == k + 1 ==> Pattern(Step(s, Replace(tag)), 0, k, tag + 1)
  {
    assert FreeWay(s) == |s|;
    assert !s[k].recent && StaleWay(s) == k;
    var t := s[k := Entry(true, tag, s[k].recent)];
    var u := t[k := t[k].(recent := true)];
    if k + 2 == |s| && y == k + 1 {
      assert AllRecent(u);
    } else if k + 1 < |s| {
      var w := if y == k + 1 then k + 2 else k + 1;
      assert !u[w].recent;
    }
  }

  /** The run leaves way `x` alone, replaces on misses only, and evicts `e` times. */
  ghost predicate Spared(s: Ways, ops: seq<Op>, x: nat, e: nat) {
    RunSpares(s, ops, x) && ReplacesOnMiss(s, ops) && Evictions(s, ops) == e
  }

  lemma Extend(s: Ways, ops: seq<Op>, tag: nat, x: nat, e: nat)
    requires Spared(s, ops, x, e) && tag !in Lines(Run(s, ops))
    requires Outcomes(Run(s, ops)).Evicted? && Outcomes(Run(s, ops)).way != x
    ensures Run(s, ops + [Replace(tag)]) == Step(Run(s, ops), Replace(tag))
    ensures Spared(s, ops + [Replace(tag)], x, e + 1)
  {
    var more := ops + [Replace(tag)];
    assert more[..|ops|] == ops;
    forall i | 0 <= i < |more|
      ensures Spares(Run(s, more[..i]), more[i], x)
      ensures more[i].Replace? ==> more[i].tag !in Lines(Run(s, more[..i]))
    {
      if i < |ops| {
        assert more[..i] == ops[..i];
      }
    }
  }

  /** `n` consecutive evictions, of the ways from `k` on. */
  lemma {:induction false} Sweep(s: Ways, ops: seq<Op>, x: nat, e: nat, k: nat, y: nat, tag: nat, n: nat)
    returns (more: seq<Op>)
    requires Spared(s, ops, x, e) && Pattern(Run(s, ops), k, y, tag)
    requires k + n <= x && k + n <= y < |s| && k + n + 2 <= |s|
    ensures Spared(s, more, x, e + n) && Pattern(Run(s, more), k + n, y, tag + n)
    decreases n
  {
    if n == 0 {
      more := ops;
    } else {
      PatternStep(Run(s, ops), k, y, tag);
      Extend(s, ops, tag, x, e);
      more := Sweep(s, ops + [Replace(tag)], x, e + 1, k + 1, y, tag + 1, n - 1);
    }
  }

  /** The eviction that marks the last unmarked way unmarks all others. */
  lemma SweepReset(s: Ways, ops: seq<Op>, x: nat, e: nat, tag: nat) returns (more: seq<Op>)
    requires Spared(s, ops, x, e) && |s| == x + 1 >= 2 && Pattern(Run(s, ops), x - 1, x, tag)
    ensures Spared(s, more, x, e + 1) && Pattern(Run(s, more), 0, x - 1, tag + 1)
  {
    PatternStep(Run(s, ops), x - 1, x, tag);
    Extend(s, ops, tag, x, e);
    more := ops + [Replace(tag)];
  }

  /** After `n` fills of an empty set: line `i` in way `i`. */
  ghost predicate FilledTo(s: Ways, n: nat) {
    && n <= |s|
    && (forall w :: 0 <= w < n ==> s[w].valid && s[w].tag == w)
    && (forall w :: n <= w < |s| ==> !s[w].valid)
    && (forall w :: 0 <= w < |s| ==> (s[w].recent <==> if n < |s| then w < n else w == |s| - 1))
  }

  lemma FillStep(s: Ways, n: nat)
    requires FilledTo(s, n) && n < |s| && |s| >= 2
    ensures n !in Lines(s) && FilledTo(Step(s, Replace(n)), n + 1)
  {
    assert !s[n].valid && FreeWay(s) == n;
    var t := s[n := Entry(true, n, s[n].recent)];
    var u := t[n := t[n].(recent := true)];
    assert Step(s, Replace(n)) == Put(s, n, n) == Touch(t, n);
    if n + 1 == |s| {
      assert AllRecent(u);
    } else {
      assert !u[n + 1].recent;
    }
  }

  lemma MissExtend(s: Ways, ops: seq<Op>, tag: nat)
    requires ReplacesOnMiss(s, ops) && tag !in Lines(Run(s, ops))
    ensures ReplacesOnMiss(s, ops + [Replace(tag)])
  {
    var more := ops + [Replace(tag)];
    forall i | 0 <= i < |more| && more[i].Replace?
      ensures more[i].tag !in Lines(Run(s, more[..i]))
    {
      assert more[..i] == if i < |ops| then ops[..i] else ops;
    }
  }

  /** The set after the fills of lines 0..n-1 from reset. */
  lemma {:induction false} FillUp(ways: nat, n: nat) returns (ops: seq<Op>)
    requires ways >= 2 && n <= ways
    ensures ReplacesOnMiss(Empty(ways), ops) && FilledTo(Run(Empty(ways), ops), n)
  {
    if n == 0 {
      ops := [];
    } else {
      var before := FillUp(ways, n - 1);
      FillStep(Run(Empty(ways), before), n - 1);
      RunExtend(Empty(ways), before, Replace(n - 1));
      MissExtend(Empty(ways), before, n - 1);
      ops := before + [Replace(n - 1)];
    }
  }

  /** For every number of ways some line does outlive 2W-3 evictions by missing lines, in a set that
      was filled from reset. */
  lemma EvictionBoundTight(ways: nat) returns (fills: seq<Op>, ops: seq<Op>)
    requires ways >= 2
    ensures ReplacesOnMiss(Empty(ways), fills)
    ensures Spared(Run(Empty(ways), fills), ops, ways - 1, 2 * ways - 3)
  {
    var x := ways - 1;
    fills := FillUp(ways, ways);
    var s := Run(Empty(ways), fills);
    assert Pattern(Run(s, []), 0, x, ways);
    var a := Sweep(s, [], x, 0, 0, x, ways, x - 1);
    var b := SweepReset(s, a, x, x - 1, ways + x - 1);
    ops := Sweep(s, b, x, x, 0, x - 1, ways + x, x - 1);
  }
}
