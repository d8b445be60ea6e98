/** Runs of a machine over a sequence of inputs, whatever the machine: folding, and counting down. */
module Runs {

  /** `run` folds `next` over its inputs. */
  ghost predicate FoldsAt<S, I>(run: seq<I> -> S, next: (S, I) -> S, xs: seq<I>, i: I) {
    run(xs + [i]) == next(run(xs), i)
  }

  lemma FoldFive<S, I(!new)>(run: seq<I> -> S, next: (S, I) -> S, x: I, y: I, z: I)
    requires forall xs, i :: FoldsAt(run, next, xs, i)
    ensures run([x, y, z, z, z]) == next(next(next(next(next(run([]), x), y), z), z), z)
  {
    assert FoldsAt(run, next, [], x) && FoldsAt(run, next, [x], y) && FoldsAt(run, next, [x, y], z);
    assert FoldsAt(run, next, [x, y, z], z) && FoldsAt(run, next, [x, y, z, z], z);
    assert [] + [x] == [x] && [x] + [y] == [x, y] && [x, y] + [z] == [x, y, z];
    assert [x, y, z] + [z] == [x, y, z, z] && [x, y, z, z] + [z] == [x, y, z, z, z];
  }

  /** A run goes through `states` if each step does. */
  lemma {:induction false} FoldPrefix<S, I(!new)>(
    run: seq<I> -> S, next: (S, I) -> S, ins: seq<I>, states: seq<S>, k: nat)
    requires k <= |ins| && |states| == |ins| + 1 && run([]) == states[0]
    requires forall xs, i :: FoldsAt(run, next, xs, i)
    requires forall j :: 0 <= j < |ins| ==> next(states[j], ins[j]) == states[j + 1]
    ensures run(ins[..k]) == states[k]
  {
    if k > 0 {
      FoldPrefix(run, next, ins, states, k - 1);
      assert FoldsAt(run, next, ins[..k - 1], ins[k - 1]);
      assert ins[..k] == ins[..k - 1] + [ins[k - 1]];
    }
  }

  /** One more element keeps the invariant and lowers the count, unless it is zero then. */
  ghost predicate Falls<T>(f: seq<T> -> nat, inv: seq<T> -> bool, ok: T -> bool, ys: seq<T>, y: T) {
    inv(ys) && ok(y) ==> inv(ys + [y]) && (f(ys + [y]) < f(ys) || f(ys + [y]) == 0)
  }

  /** A count that goes down with every further element reaches zero. */
  lemma {:induction false} CountDown<T(!new)>(
    f: seq<T> -> nat, inv: seq<T> -> bool, ok: T -> bool, xs: seq<T>, more: seq<T>)
    requires inv(xs) && forall k :: 0 <= k < |more| ==> ok(more[k])
    requires forall ys: seq<T>, y: T :: Falls(f, inv, ok, ys, y)
    ensures inv(xs + more) && (f(xs + more) + |more| <= f(xs) || f(xs + more) == 0)
  {
    if |more| == 0 {
      assert xs + more == xs;
    } else {
      var m := |more| - 1;
      CountDown(f, inv, ok, xs, more[..m]);
      assert Falls(f, inv, ok, xs + more[..m], more[m]);
      assert xs + more == (xs + more[..m]) + [more[m]];
    }
  }

  /** One more input keeps the invariant. */
  ghost predicate Keeps<S, I>(next: (S, I) -> S, inv: S -> bool, ok: I -> bool, s: S, i: I) {
    inv(s) && ok(i) ==> inv(next(s, i))
  }

  lemma {:induction false} Invariant<S(!new), I(!new)>(
    run: seq<I> -> S, next: (S, I) -> S, inv: S -> bool, ok: I -> bool, xs: seq<I>, more: seq<I>)
    requires inv(run(xs)) && forall k :: 0 <= k < |more| ==> ok(more[k])
    requires forall ys, i :: FoldsAt(run, next, ys, i)
    requires forall s, i :: Keeps(next, inv, ok, s, i)
    ensures inv(run(xs + more))
  {
    if |more| == 0 {
      assert xs + more == xs;
    } else {
      var m := |more| - 1;
      var mid := xs + more[..m];
      Invariant(run, next, inv, ok, xs, more[..m]);
      assert FoldsAt(run, next, mid, more[m]) && Keeps(next, inv, ok, run(mid), more[m]);
      assert xs + more == mid + [more[m]];
    }
  }
}
