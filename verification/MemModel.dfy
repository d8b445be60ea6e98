/**
 The word memory behind the memory response model. It holds only the words touched so far; a word
 is filled with a random value the first time it is read or written.
 */
module MemModel {
  import opened Words

  type Store = map<nat, Word>

  /** Word `w` exists afterwards, with the random value `rnd` if it did not before. */
  function Materialise(m: Store, w: nat, rnd: Word): (r: Store)
    ensures w in r
  {
    if w in m then m else m[w := rnd]
  }

  function Written(m: Store, w: nat, data: Word, mask: Word, rnd: Word): Store {
    m[w := Merge(Materialise(m, w, rnd)[w], data, mask)]
  }

  class Memory {
    var words: Store

    constructor ()
      ensures words == map[]
    {
      words := map[];
    }

    method ReadMemory(w: nat, rnd: Word) returns (value: Word)
      modifies this
      ensures words == Materialise(old(words), w, rnd) && value == words[w]
    {
      if w in words {
        return words[w];
      }
      words := words[w := rnd];
      value := rnd;
    }

    method WriteMemory(w: nat, data: Word, mask: Word, rnd: Word)
      modifies this
      ensures words == Written(old(words), w, data, mask, rnd)
    {
      if w in words {
        words := words[w := Merge(words[w], data, mask)];
        return;
      }
      words := words[w := Merge(rnd, data, mask)];
    }
  }

  // ---------------------------------------------------------------------------------------------
  // The random initialisation cannot be told from an initial memory
  // ---------------------------------------------------------------------------------------------

  /** An access with the random value drawn for it, used or not. */
  datatype Op = Read(w: nat, rnd: Word) | Write(w: nat, data: Word, mask: Word, rnd: Word)

  function Lazy(ops: seq<Op>): Store {
    if |ops| == 0 then map[]
    else
      var m := Lazy(ops[..|ops| - 1]);
      match ops[|ops| - 1]
      case Read(w, rnd) => Materialise(m, w, rnd)
      case Write(w, data, mask, rnd) => Written(m, w, data, mask, rnd)
  }

  /** The values returned by the reads. */
  function LazyReads(ops: seq<Op>): seq<Word> {
    if |ops| == 0 then []
    else
      LazyReads(ops[..|ops| - 1])
      + match ops[|ops| - 1]
        case Read(w, rnd) => [Materialise(Lazy(ops[..|ops| - 1]), w, rnd)[w]]
        case Write(_, _, _, _) => []
  }

  /** Word `w` of a memory that was `init` from the start. */
  function Eager(init: nat -> Word, ops: seq<Op>, w: nat): Word {
    if |ops| == 0 then init(w)
    else
      var was := Eager(init, ops[..|ops| - 1], w);
      match ops[|ops| - 1]
      case Read(_, _) => was
      case Write(v, data, mask, _) => if v == w then Merge(was, data, mask) else was
  }

  function EagerReads(init: nat -> Word, ops: seq<Op>): seq<Word> {
    if |ops| == 0 then []
    else
      EagerReads(init, ops[..|ops| - 1])
      + match ops[|ops| - 1]
        case Read(w, _) => [Eager(init, ops[..|ops| - 1], w)]
        case Write(_, _, _, _) => []
  }

  /** The random value drawn when `w` was first touched. */
  function FirstDrawn(ops: seq<Op>, w: nat): Word {
    if |ops| == 0 then ZERO
    else if w !in Lazy(ops[..|ops| - 1]) && ops[|ops| - 1].w == w then ops[|ops| - 1].rnd
    else FirstDrawn(ops[..|ops| - 1], w)
  }

  /** `init` holds the value drawn for every word touched. */
  ghost predicate Explains(init: nat -> Word, ops: seq<Op>) {
    forall w :: w in Lazy(ops) ==> init(w) == FirstDrawn(ops, w)
  }

  lemma ExplainsPrefix(init: nat -> Word, ops: seq<Op>)
    requires |ops| > 0 && Explains(init, ops)
    ensures Explains(init, ops[..|ops| - 1])
  {
    var before := ops[..|ops| - 1];
    forall w | w in Lazy(before)
      ensures init(w) == FirstDrawn(before, w)
    {
      assert w in Lazy(ops);
    }
  }

  lemma {:induction false} LazyMatchesEager(init: nat -> Word, ops: seq<Op>)
    requires Explains(init, ops)
    ensures forall w :: w in Lazy(ops) ==> Lazy(ops)[w] == Eager(init, ops, w)
    ensures forall w :: w !in Lazy(ops) ==> Eager(init, ops, w) == init(w)
    ensures LazyReads(ops) == EagerReads(init, ops)
  {
    if |ops| > 0 {
      var m := |ops| - 1;
      ExplainsPrefix(init, ops);
      LazyMatchesEager(init, ops[..m]);
      var w := ops[m].w;
      assert w in Lazy(ops);
      assert w !in Lazy(ops[..m]) ==> init(w) == ops[m].rnd;
    }
  }

  /** For every sequence of masked writes and reads there is one initial memory under which an
      ordinary memory returns the same values. */
  lemma LazyIsInvisible(ops: seq<Op>) returns (init: nat -> Word)
    ensures LazyReads(ops) == EagerReads(init, ops)
  {
    init := (w: nat) => FirstDrawn(ops, w);
    LazyMatchesEager(init, ops);
  }
}
