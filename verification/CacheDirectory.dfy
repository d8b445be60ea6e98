/**
 Address arithmetic of the cache directory: an address splits into a tag, a set and an offset.
 Machine words are 64 bits wide.
 */
module LineAddress {
  import opened Arith

  const WORD: nat := 0x1_0000_0000_0000_0000

  function AddrTag(addr: nat, sets: nat, bytes: nat): nat
    requires sets > 0 && bytes > 0
  {
    MulPositive(sets, bytes);
    addr / (sets * bytes)
  }

  function AddrSet(addr: nat, sets: nat, bytes: nat): (set': nat)
    requires sets > 0 && bytes > 0
    ensures set' < sets
  {
    addr / bytes % sets
  }

  function GetAddr(tag: nat, set': nat, sets: nat, bytes: nat): nat {
    (tag * sets + set') * bytes % WORD
  }

  lemma SplitAddress(addr: nat, sets: nat, bytes: nat)
    requires sets > 0 && bytes > 0
    ensures addr / bytes == AddrTag(addr, sets, bytes) * sets + AddrSet(addr, sets, bytes)
    ensures AddrTag(addr, sets, bytes) == addr / bytes / sets
  {
    DivideTwice(addr, bytes, sets);
  }

  /** Rebuilding the address from its tag and set gives the start of its line. */
  lemma AddressRoundTrip(addr: nat, sets: nat, bytes: nat)
    requires sets > 0 && bytes > 0 && addr < WORD
    ensures GetAddr(AddrTag(addr, sets, bytes), AddrSet(addr, sets, bytes), sets, bytes)
         == addr - addr % bytes
  {
    SplitAddress(addr, sets, bytes);
    assert addr / bytes * bytes == addr - addr % bytes;
  }

  /** A tag and a set survive the trip through an address exactly when the address fits a word. */
  lemma TagSetRoundTrip(tag: nat, set': nat, sets: nat, bytes: nat)
    requires sets > 0 && bytes > 0 && set' < sets
    ensures var a := GetAddr(tag, set', sets, bytes);
      (AddrTag(a, sets, bytes) == tag && AddrSet(a, sets, bytes) == set')
      <==> (tag * sets + set') * bytes < WORD
  {
    var line := tag * sets + set';
    var a := GetAddr(tag, set', sets, bytes);
    SplitAddress(a, sets, bytes);
    if line * bytes < WORD {
      QuotientUnique(a, bytes, line, 0);
      QuotientUnique(line, sets, tag, set');
    } else {
      assert a < line * bytes;
      assert a / bytes * bytes <= a;
      if a / bytes >= line {
        MulMonotone(line, a / bytes, bytes);
      }
    }
  }
}

/**
 The cache directory over flat arrays indexed by way and set. Every method is proved to change one
 set as module PlruSet prescribes and to leave the other sets alone.
 */
module CacheDirectory {
  import opened Arith
  import opened PlruSet
  import opened LineAddress

  const UINT_MAX: nat := 0xFFFF_FFFF

  lemma IndexInRange(way: nat, ways: nat, s: nat, sets: nat)
    requires way < ways && s < sets
    ensures way * sets + s < ways * sets
  {
    MulMonotone(way + 1, ways, sets);
  }

  lemma IndexInjective(way: nat, s: nat, way': nat, s': nat, sets: nat)
    requires s < sets && s' < sets && way * sets + s == way' * sets + s'
    ensures way == way' && s == s'
  {
    QuotientUnique(way * sets + s, sets, way, s);
    QuotientUnique(way * sets + s, sets, way', s');
  }

  lemma NextRow(way: nat, sets: nat)
    ensures (way + 1) * sets == way * sets + sets
  {
  }

  function Index(way: nat, ways: nat, s: nat, sets: nat): (k: nat)
    requires way < ways && s < sets
    ensures k < ways * sets
  {
    IndexInRange(way, ways, s, sets);
    way * sets + s
  }

  /** The contents of the three flat arrays, cell by cell. */
  type Cells = seq<Entry>

  /** The ways of set `s`. */
  ghost function WaysOf(c: Cells, ways: nat, s: nat, sets: nat): (v: Ways)
    requires |c| == ways * sets && s < sets
    ensures |v| == ways
    ensures forall w :: 0 <= w < ways ==> v[w] == c[Index(w, ways, s, sets)]
  {
    seq(ways, w requires 0 <= w < ways => c[Index(w, ways, s, sets)])
  }

  /** Writing one cell changes one way of one set. */
  lemma WriteCell(c: Cells, ways: nat, sets: nat, way: nat, s: nat, e: Entry)
    requires |c| == ways * sets && way < ways && s < sets
    ensures var c' := c[Index(way, ways, s, sets) := e];
      && WaysOf(c', ways, s, sets) == WaysOf(c, ways, s, sets)[way := e]
      && forall t :: 0 <= t < sets && t != s ==> WaysOf(c', ways, t, sets) == WaysOf(c, ways, t, sets)
  {
    var k := Index(way, ways, s, sets);
    forall t, w | 0 <= t < sets && 0 <= w < ways && Index(w, ways, t, sets) == k
      ensures t == s && w == way
    {
      IndexInjective(w, t, way, s, sets);
    }
  }

  /** Every set is in the state that its operations since reset lead to. */
  ghost predicate Follows(views: seq<Ways>, ways: nat, trace: seq<seq<Op>>) {
    && |views| == |trace|
    && forall s :: 0 <= s < |views| ==> views[s] == Run(Empty(ways), trace[s])
  }

  function Log(trace: seq<seq<Op>>, s: nat, op: Op): seq<seq<Op>>
    requires s < |trace|
  {
    trace[s := trace[s] + [op]]
  }

  lemma FollowsStep(views: seq<Ways>, ways: nat, trace: seq<seq<Op>>, s: nat, op: Op)
    requires Follows(views, ways, trace) && s < |views|
    ensures Follows(views[s := Step(views[s], op)], ways, Log(trace, s, op))
  {
    RunExtend(Empty(ways), trace[s], op);
  }

  class Directory {
    const ways: nat
    const sets: nat
    const bytes: nat
    const tags: array<nat>
    const valid: array<bool>
    const plru: array<bool>
    ghost var trace: seq<seq<Op>>   // the operations applied to each set since reset

    ghost predicate Shape() {
      && ways > 0 && sets > 0 && bytes > 0
      && tags.Length == valid.Length == plru.Length == ways * sets
      && valid != plru
    }

    function At(way: nat, s: nat): (k: nat)
      requires way < ways && s < sets
      ensures k == Index(way, ways, s, sets) < ways * sets
    {
      Index(way, ways, s, sets)
    }

    ghost function Contents(): (c: Cells)
      requires Shape()
      reads tags, valid, plru
      ensures |c| == ways * sets
      ensures forall k :: 0 <= k < ways * sets ==> c[k] == Entry(valid[k], tags[k], plru[k])
    {
      seq(ways * sets, k requires 0 <= k < ways * sets reads tags, valid, plru
        => Entry(valid[k], tags[k], plru[k]))
    }

    /** The abstract value of the directory: the ways of each set. */
    ghost function Views(): (v: seq<Ways>)
      requires Shape()
      reads tags, valid, plru
      ensures |v| == sets
      ensures forall s :: 0 <= s < sets ==> |v[s]| == ways
      ensures forall s :: 0 <= s < sets ==> v[s] == WaysOf(Contents(), ways, s, sets)
    {
      seq(sets, s requires 0 <= s < sets reads tags, valid, plru => WaysOf(Contents(), ways, s, sets))
    }

    ghost predicate Valid()
      reads this, tags, valid, plru
    {
      Shape() && Follows(Views(), ways, trace)
    }

    constructor (nways: nat, nsets: nat, nbytes: nat)
      requires nways > 0 && nsets > 0 && nbytes > 0
      ensures Shape() && ways == nways && sets == nsets && bytes == nbytes
      ensures fresh(tags) && fresh(valid) && fresh(plru)
    {
      ways, sets, bytes := nways, nsets, nbytes;
      tags := new nat[nways * nsets];
      valid := new bool[nways * nsets];
      plru := new bool[nways * nsets];
      trace := [];
    }

    lemma CellsRead(way: nat, s: nat)
      requires Shape() && way < ways && s < sets
      ensures var k := At(way, s); Views()[s][way] == Entry(valid[k], tags[k], plru[k])
    {
    }

    method SetValid(way: nat, s: nat, b: bool)
      requires Shape() && way < ways && s < sets
      modifies valid
      ensures var v := old(Views()); Views() == v[s := v[s][way := v[s][way].(valid := b)]]
    {
      ghost var c := Contents();
      var k := At(way, s);
      valid[k] := b;
      WriteCell(c, ways, sets, way, s, c[k].(valid := b));
      assert Contents() == c[k := c[k].(valid := b)];
    }

    method SetTag(way: nat, s: nat, tag: nat)
      requires Shape() && way < ways && s < sets
      modifies tags
      ensures var v := old(Views()); Views() == v[s := v[s][way := v[s][way].(tag := tag)]]
    {
      ghost var c := Contents();
      var k := At(way, s);
      tags[k] := tag;
      WriteCell(c, ways, sets, way, s, c[k].(tag := tag));
      assert Contents() == c[k := c[k].(tag := tag)];
    }

    method SetPlru(way: nat, s: nat, b: bool)
      requires Shape() && way < ways && s < sets
      modifies plru
      ensures var v := old(Views()); Views() == v[s := v[s][way := v[s][way].(recent := b)]]
    {
      ghost var c := Contents();
      var k := At(way, s);
      plru[k] := b;
      WriteCell(c, ways, sets, way, s, c[k].(recent := b));
      assert Contents() == c[k := c[k].(recent := b)];
    }

    method ResetBase()
      requires Shape()
      modifies tags, valid
      ensures forall k :: 0 <= k < ways * sets ==> !valid[k] && tags[k] == 0
    {
      ghost var n := 0;
      for way := 0 to ways
        invariant n == way * sets
        invariant forall k :: 0 <= k < n && k < ways * sets ==> !valid[k] && tags[k] == 0
      {
        for s := 0 to sets
          invariant n == way * sets + s
          invariant forall k :: 0 <= k < n && k < ways * sets ==> !valid[k] && tags[k] == 0
        {
          var k := At(way, s);
          valid[k] := false;
          tags[k] := 0;
          n := n + 1;
        }
        NextRow(way, sets);
      }
    }

    method ResetPlru()
      requires Shape()
      modifies plru
      ensures forall k :: 0 <= k < ways * sets ==> !plru[k]
    {
      ghost var n := 0;
      for way := 0 to ways
        invariant n == way * sets
        invariant forall k :: 0 <= k < n && k < ways * sets ==> !plru[k]
      {
        for s := 0 to sets
          invariant n == way * sets + s
          invariant forall k :: 0 <= k < n && k < ways * sets ==> !plru[k]
        {
          plru[At(way, s)] := false;
          n := n + 1;
        }
        NextRow(way, sets);
      }
    }

    method Reset()
      requires Shape()
      modifies this, tags, valid, plru
      ensures Valid() && trace == seq(sets, _ => [])
    {
      ResetBase();
      ResetPlru();
      trace := seq(sets, _ => []);
      forall s | 0 <= s < sets
        ensures Views()[s] == Empty(ways)
      {
        assert forall w :: 0 <= w < ways ==> Views()[s][w] == Empty(ways)[w];
      }
    }

    method Hit(addr: nat) returns (hit: bool, way: nat, s: nat)
      requires Valid()
      ensures var set' := AddrSet(addr, sets, bytes);
        var tag := AddrTag(addr, sets, bytes);
        && (hit <==> tag in Lines(Views()[set']))
        && (hit ==> way == HitWay(Views()[set'], tag) < ways && s == set')
        && (!hit ==> way == s == UINT_MAX)
    {
      var set', tag := AddrSet(addr, sets, bytes), AddrTag(addr, sets, bytes);
      ghost var v := Views()[set'];
      HitIsMembership(v, tag);
      for w := 0 to ways
        invariant forall u :: 0 <= u < w ==> !(v[u].valid && v[u].tag == tag)
      {
        CellsRead(w, set');
        if valid[At(w, set')] && tag == tags[At(w, set')] {
          assert HitWay(v, tag) == w;
          return true, w, set';
        }
      }
      return false, UINT_MAX, UINT_MAX;
    }

    /** Clears the valid bit of a way, which is what `op` does to the set. */
    method Drop(way: nat, s: nat, ghost op: Op)
      requires Valid() && way < ways && s < sets
      requires Step(Views()[s], op) == Views()[s][way := Views()[s][way].(valid := false)]
      modifies valid, `trace
      ensures Valid() && trace == Log(old(trace), s, op)
      ensures Views() == old(Views())[s := Step(old(Views())[s], op)]
    {
      FollowsStep(Views(), ways, trace, s, op);
      SetValid(way, s, false);
      trace := Log(trace, s, op);
    }

    method InvalidateWay(way: nat, s: nat) returns (wasValid: bool)
      requires Valid() && way < ways && s < sets
      modifies valid, `trace
      ensures Valid() && trace == Log(old(trace), s, InvalWay(way))
      ensures Views() == old(Views())[s := Step(old(Views())[s], InvalWay(way))]
      ensures wasValid == old(Views())[s][way].valid && !Views()[s][way].valid
      ensures forall v :: 0 <= v < ways && v != way ==> Views()[s][v] == old(Views())[s][v]
    {
      CellsRead(way, s);
      wasValid := valid[At(way, s)];
      Drop(way, s, InvalWay(way));
    }

    /** First way of the set with the tag, whether valid or not. */
    method FindTag(s: nat, tag: nat) returns (way: nat)
      requires Shape() && s < sets
      ensures way == TagWay(Views()[s], tag)
    {
      ghost var v := Views()[s];
      way := 0;
      while way < ways && tags[At(way, s)] != tag
        invariant way <= ways && forall u :: 0 <= u < way ==> v[u].tag != tag
      {
        CellsRead(way, s);
        way := way + 1;
      }
      if way < ways {
        CellsRead(way, s);
      }
    }

    method InvalidateLine(addr: nat) returns (found: bool)
      requires Valid()
      modifies valid, `trace
      ensures var s := AddrSet(addr, sets, bytes);
        var op := InvalLine(AddrTag(addr, sets, bytes));
        && Valid() && trace == Log(old(trace), s, op)
        && Views() == old(Views())[s := Step(old(Views())[s], op)]
        && (found <==> TagWay(old(Views())[s], op.tag) < ways)
    {
      var s, tag := AddrSet(addr, sets, bytes), AddrTag(addr, sets, bytes);
      var way := FindTag(s, tag);
      found := way < ways;
      if found {
        Drop(way, s, InvalLine(tag));
      } else {
        FollowsStep(Views(), ways, trace, s, InvalLine(tag));
        trace := Log(trace, s, InvalLine(tag));
      }
    }

    method AllMarked(s: nat) returns (all: bool)
      requires Shape() && s < sets
      ensures all <==> AllRecent(Views()[s])
    {
      ghost var v := Views()[s];
      all := true;
      for w := 0 to ways
        invariant all <==> forall u :: 0 <= u < w ==> v[u].recent
      {
        CellsRead(w, s);
        all := all && plru[At(w, s)];
      }
    }

    /** Marks a way as recently used, unmarking the others when all would be marked. */
    method ReplUpdate(way: nat, s: nat)
      requires Shape() && way < ways && s < sets
      modifies plru
      ensures Views() == old(Views())[s := Touch(old(Views())[s], way)]
    {
      SetPlru(way, s, true);
      var reset := AllMarked(s);
      if reset {
        Unmark(way, s);
        assert Views()[s] == Touch(old(Views())[s], way);
      }
    }

    /** Clears the replacement bits of set `s` except that of `way`. */
    method Unmark(way: nat, s: nat)
      requires Shape() && way < ways && s < sets
      modifies plru
      ensures var v := old(Views())[s];
        Views() == old(Views())[s := seq(ways, w requires 0 <= w < ways =>
          if w == way then v[w] else v[w].(recent := false))]
    {
      ghost var all := Views();
      ghost var v := all[s];
      for w := 0 to ways
        invariant Views() == all[s := Views()[s]]
        invariant forall u :: 0 <= u < ways ==>
          Views()[s][u] == if u < w && u != way then v[u].(recent := false) else v[u]
      {
        if w != way {
          SetPlru(w, s, false);
        }
      }
      assert Views()[s] == seq(ways, w requires 0 <= w < ways =>
          if w == way then v[w] else v[w].(recent := false));
    }

    method Access(addr: nat, update: bool) returns (hit: bool, way: nat, s: nat)
      requires Valid()
      modifies plru, `trace
      ensures var set' := AddrSet(addr, sets, bytes);
        var op := PlruSet.Access(AddrTag(addr, sets, bytes));
        var v := old(Views());
        && Valid()
        && (hit <==> op.tag in Lines(v[set']))
        && (hit ==> way == HitWay(v[set'], op.tag) && s == set')
        && (!hit ==> way == s == UINT_MAX)
        && (update ==> Views() == v[set' := Step(v[set'], op)] && trace == Log(old(trace), set', op))
        && (!update ==> Views() == v && trace == old(trace))
    {
      var set', tag := AddrSet(addr, sets, bytes), AddrTag(addr, sets, bytes);
      hit, way, s := Hit(addr);
      HitIsMembership(Views()[set'], tag);
      if update {
        FollowsStep(Views(), ways, trace, set', PlruSet.Access(tag));
        if hit {
          ReplUpdate(way, s);
        }
        trace := Log(trace, set', PlruSet.Access(tag));
      }
    }

    /** Fills way `w` of set `s` with the line. */
    method Place(w: nat, s: nat, tag: nat)
      requires Shape() && w < ways && s < sets
      modifies tags, valid, plru
      ensures Views() == old(Views())[s := Put(old(Views())[s], w, tag)]
    {
      ghost var v: seq<Ways> := Views();
      SetValid(w, s, true);
      SetTag(w, s, tag);
      assert Views()[s] == v[s][w := Entry(true, tag, v[s][w].recent)];
      ReplUpdate(w, s);
    }

    /** The scan for an empty way. */
    method FindFree(s: nat) returns (way: nat)
      requires Shape() && s < sets
      ensures way == FreeWay(Views()[s])
    {
      ghost var v := Views()[s];
      way := 0;
      while way < ways && valid[At(way, s)]
        invariant way <= ways && forall u :: 0 <= u < way ==> v[u].valid
      {
        CellsRead(way, s);
        way := way + 1;
      }
      if way < ways {
        CellsRead(way, s);
      }
    }

    /** The scan for a way that is not recently used. */
    method FindStale(s: nat) returns (way: nat)
      requires Shape() && s < sets
      ensures way == StaleWay(Views()[s])
    {
      ghost var v := Views()[s];
      way := 0;
      while way < ways && plru[At(way, s)]
        invariant way <= ways && forall u :: 0 <= u < way ==> v[u].recent
      {
        CellsRead(way, s);
        way := way + 1;
      }
      if way < ways {
        CellsRead(way, s);
      }
    }

    /** The way that replacement takes. `Stuck` stands for the "all plru bits are set" assertion,
        which no directory of two or more ways reaches. */
    method Choose(s: nat) returns (outcome: Outcome)
      requires Valid() && s < sets
      ensures outcome == Outcomes(Views()[s])
      ensures ways >= 2 ==> !outcome.Stuck?
    {
      ghost var v := Views()[s];
      var way := FindFree(s);
      if way < ways {
        return Filled(way);
      }
      way := FindStale(s);
      if way < ways {
        CellsRead(way, s);
        return Evicted(way, tags[At(way, s)]);
      }
      if ways >= 2 {
        ReachableInvariant(ways, trace[s]);
        StaleMeansNotStuck(v);
      }
      return Stuck;
    }

    /** Replacement; a directory of one way that is stuck stays as it is. */
    method Replace(addr: nat) returns (evicted: bool, victimTag: nat, victimWay: nat, victimSet: nat, stuck: bool)
      requires Valid()
      modifies tags, valid, plru, `trace
      ensures victimSet == AddrSet(addr, sets, bytes)
      ensures ways >= 2 ==> !stuck
      ensures var op := PlruSet.Replace(AddrTag(addr, sets, bytes));
        var v := old(Views());
        && Valid() && trace == Log(old(trace), victimSet, op)
        && Views() == v[victimSet := Step(v[victimSet], op)]
        && Outcomes(v[victimSet])
           == (if stuck then Stuck else if evicted then Evicted(victimWay, victimTag) else Filled(victimWay))
        && (!evicted ==> victimTag == 0)
    {
      victimSet := AddrSet(addr, sets, bytes);
      var tag := AddrTag(addr, sets, bytes);
      var outcome := Choose(victimSet);
      evicted, stuck := outcome.Evicted?, outcome.Stuck?;
      victimTag, victimWay := if evicted then outcome.victim else 0, if stuck then 0 else outcome.way;
      FollowsStep(Views(), ways, trace, victimSet, PlruSet.Replace(tag));
      if !stuck {
        Place(victimWay, victimSet, tag);
      }
      trace := Log(trace, victimSet, PlruSet.Replace(tag));
    }
  }
}
