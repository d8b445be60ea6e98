/**
 Transaction IDs: the allocator of the test sequence, and the life of an ID from its allocation to
 the response that releases it.
 */
module IdPool {
  import opened Arith

  ghost predicate Distinct(ids: seq<nat>) {
    forall i, j :: 0 <= i < j < |ids| ==> ids[i] != ids[j]
  }

  /** The list without its first occurrence of `id`. */
  function Remove(ids: seq<nat>, id: nat): seq<nat> {
    if |ids| == 0 then [] else if ids[0] == id then ids[1..] else [ids[0]] + Remove(ids[1..], id)
  }

  lemma {:induction false} RemoveDistinct(ids: seq<nat>, id: nat)
    requires Distinct(ids)
    ensures Distinct(Remove(ids, id))
    ensures forall x :: x in Remove(ids, id) <==> x in ids && x != id
  {
    if |ids| > 0 {
      var rest := ids[1..];
      RemoveDistinct(rest, id);
      assert ids == [ids[0]] + rest;
      assert forall x :: x in ids <==> x == ids[0] || x in rest;
      assert ids[0] !in rest;
      if ids[0] != id {
        assert ids[0] !in Remove(rest, id);
      }
    }
  }

  /** `k` steps after `start` on a cycle of `max` IDs. */
  function Around(start: nat, k: nat, max: nat): (r: nat)
    requires start < max && k <= max
    ensures k < max ==> r < max
  {
    if start + k < max then start + k else start + k - max
  }

  lemma {:induction false} RemoveOne(ids: seq<nat>, id: nat)
    requires id in ids
    ensures |Remove(ids, id)| == |ids| - 1
    ensures forall x :: x in ids && x != id ==> x in Remove(ids, id)
  {
    if ids[0] != id {
      RemoveOne(ids[1..], id);
    }
  }

  /** A list that holds every number below `max` has at least `max` elements. */
  lemma {:induction false} Pigeonhole(ids: seq<nat>, max: nat)
    requires forall x: nat :: x < max ==> x in ids
    ensures |ids| >= max
    decreases max
  {
    if max > 0 {
      RemoveOne(ids, max - 1);
      Pigeonhole(Remove(ids, max - 1), max - 1);
    }
  }

  /** A list that holds the whole cycle is as long as the cycle. */
  lemma FullCycle(ids: seq<nat>, start: nat, max: nat)
    requires start < max
    requires forall k :: 0 <= k < max ==> Around(start, k, max) in ids
    ensures |ids| >= max
  {
    forall x: nat | x < max
      ensures x in ids
    {
      var k := if start <= x then x - start else x + max - start;
      assert Around(start, k, max) == x;
    }
    Pigeonhole(ids, max);
  }

  /** `id` is `k` steps after `start`, and the IDs before it are taken. */
  ghost predicate FirstFree(ids: seq<nat>, start: nat, k: nat, id: nat, max: nat)
    requires start < max && k < max
  {
    id == Around(start, k, max) && forall j :: 0 <= j < k ==> Around(start, j, max) in ids
  }

  lemma AroundMeaning(rnd: nat, k: nat, max: nat)
    requires max > 0 && k < max
    ensures Around(rnd % max, k, max) == (rnd + k) % max
  {
    var q, r := rnd / max, rnd % max;
    Division(rnd, max);
    if r + k < max {
      QuotientUnique(rnd + k, max, q, r + k);
    } else {
      assert (q + 1) * max == q * max + max;
      QuotientUnique(rnd + k, max, q + 1, r + k - max);
    }
  }

  /** The probe from a random ID on: the ID is the `k`-th one from there, around the end, and each
      before it is taken. */
  lemma FirstFreeMeaning(ids: seq<nat>, rnd: nat, k: nat, id: nat, max: nat, j: nat)
    requires max > 0 && k < max && FirstFree(ids, rnd % max, k, id, max)
    ensures id == (rnd + k) % max && (j < k ==> (rnd + j) % max in ids)
  {
    AroundMeaning(rnd, k, max);
    if j < k {
      AroundMeaning(rnd, j, max);
    }
  }

  class Pool {
    const max: nat
    var ids: seq<nat>
    var unused: nat       // "acknowledging an ID that is not currently used" messages

    ghost predicate Valid()
      reads this
    {
      Distinct(ids) && forall id :: id in ids ==> id < max
    }

    constructor (max: nat)
      ensures Valid() && this.max == max && ids == [] && unused == 0
    {
      this.max := max;
      ids, unused := [], 0;
    }

    predicate Available()
      reads this
    {
      |ids| < max
    }

    /** Probes from a random ID on; with an ID available the probe ends, at the first free one. */
    method Allocate(rnd: nat) returns (id: nat)
      requires Valid() && Available()
      modifies `ids
      ensures Valid() && id < max && id !in old(ids) && ids == old(ids) + [id]
      ensures exists k :: 0 <= k < max && FirstFree(old(ids), rnd % max, k, id, max)
    {
      var start := rnd % max;
      id := start;
      ghost var k := 0;
      while id in ids
        invariant k <= max && id == Around(start, if k < max then k else 0, max)
        invariant forall j :: 0 <= j < k ==> Around(start, j, max) in ids
        invariant k == max ==> |ids| >= max
        invariant ids == old(ids)
        decreases max - k
      {
        k := k + 1;
        id := if id + 1 == max then 0 else id + 1;
        if k == max {
          FullCycle(ids, start, max);
        }
      }
      assert FirstFree(ids, start, k, id, max);
      ids := ids + [id];
    }

    /** Releases an ID; one that is not held is reported. */
    method Deallocate(id: nat)
      requires Valid()
      modifies this
      ensures Valid() && ids == Remove(old(ids), id)
      ensures unused == old(unused) + if id in old(ids) then 0 else 1
    {
      RemoveDistinct(ids, id);
      RemoveAbsent(ids, id);
      if id in ids {
        ids := Remove(ids, id);
        return;
      }
      unused := unused + 1;
    }
  }

  lemma {:induction false} RemoveAbsent(ids: seq<nat>, id: nat)
    ensures id !in ids ==> Remove(ids, id) == ids
  {
    if |ids| > 0 && id !in ids {
      RemoveAbsent(ids[1..], id);
    }
  }

  // ---------------------------------------------------------------------------------------------
  // The life of an ID over whole runs, with any number of requests in flight
  // ---------------------------------------------------------------------------------------------

  /** `held`: the sequence's list; `waiting`: allocated but not yet seen by the scoreboard;
      `inflight`: keys of the scoreboard's table; `lost`: dropped by the scoreboard, never released. */
  datatype State = State(
    held: seq<nat>, waiting: set<nat>, inflight: set<nat>, lost: set<nat>,
    duplicateError: bool, unusedError: bool)

  /** A request enters the table, or is released at once because it needs no response, or is dropped
      because the FIFO of atomic requests is full. */
  datatype Fate = Tracked | Released | Dropped

  datatype Step =
    | Allocated(id: nat)
    | Requested(id: nat, fate: Fate)
    | Responded(id: nat, accepted: bool)     // not accepted: unknown ID or wrong error flag

  const START := State([], {}, {}, {}, false, false)

  /** An allocation returns a free ID, a request carries an allocated one, a response is accepted
      only for a request in flight. */
  ghost predicate Legal(max: nat, s: State, step: Step) {
    match step
    case Allocated(id) => id < max && id !in s.held
    case Requested(id, _) => id in s.waiting
    case Responded(id, accepted) => accepted ==> id in s.inflight
  }

  function Release(s: State, id: nat): State {
    s.(held := Remove(s.held, id), unusedError := s.unusedError || id !in s.held)
  }

  function Next(s: State, step: Step): State {
    match step
    case Allocated(id) => s.(held := s.held + [id], waiting := s.waiting + {id})
    case Requested(id, fate) =>
      var t := s.(waiting := s.waiting - {id});
      if id in s.inflight then t.(duplicateError := true)
      else if fate.Tracked? then t.(inflight := s.inflight + {id})
      else if fate.Released? then Release(t, id)
      else t.(lost := s.lost + {id})
    case Responded(id, accepted) =>
      if accepted then Release(s, id).(inflight := s.inflight - {id}) else s
  }

  function After(steps: seq<Step>): State {
    if |steps| == 0 then START else Next(After(steps[..|steps| - 1]), steps[|steps| - 1])
  }

  ghost predicate Run(max: nat, steps: seq<Step>) {
    forall k :: 0 <= k < |steps| ==> Legal(max, After(steps[..k]), steps[k])
  }

  /** Held IDs are distinct and in range, and each is waiting, in flight or lost, and only one of
      these. */
  ghost predicate Consistent(max: nat, s: State) {
    && Distinct(s.held)
    && (forall id :: id in s.held ==> id < max)
    && s.waiting !! s.inflight && s.waiting !! s.lost && s.inflight !! s.lost
    && (forall id :: id in s.held <==> id in s.waiting || id in s.inflight || id in s.lost)
    && !s.duplicateError && !s.unusedError
  }

  lemma NextConsistent(max: nat, s: State, step: Step)
    requires Consistent(max, s) && Legal(max, s, step)
    ensures Consistent(max, Next(s, step))
  {
    RemoveDistinct(s.held, step.id);
  }

  /** Over every run, neither the duplicate-ID nor the unused-ID error is reported, and every key
      of the scoreboard's table is a held ID. */
  lemma {:induction false} EveryRunConsistent(max: nat, steps: seq<Step>)
    requires Run(max, steps)
    ensures Consistent(max, After(steps))
  {
    if |steps| > 0 {
      var m := |steps| - 1;
      var before := steps[..m];
      forall k | 0 <= k < m
        ensures Legal(max, After(before[..k]), before[k])
      {
        assert before[..k] == steps[..k] && before[k] == steps[k];
      }
      EveryRunConsistent(max, before);
      NextConsistent(max, After(before), steps[m]);
    }
  }

  /** A run goes on by any legal step. */
  lemma RunExtend(max: nat, steps: seq<Step>, step: Step)
    requires Run(max, steps) && Legal(max, After(steps), step)
    ensures Run(max, steps + [step]) && After(steps + [step]) == Next(After(steps), step)
  {
    var more := steps + [step];
    assert more[..|steps|] == steps;
    forall k | 0 <= k < |more|
      ensures Legal(max, After(more[..k]), more[k])
    {
      if k < |steps| {
        assert more[..k] == steps[..k];
      }
    }
  }
}
