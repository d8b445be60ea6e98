/**
 The circular FIFO that the adapters keep in registers: `depth` cells and two pointers, empty when
 the pointers are equal and full when advancing the write pointer would make them equal, so that
 one cell always stays free. A pointer of `log2(depth)` bits wraps at `depth`.
 */
module FifoQueue {

  function Next(p: nat, depth: nat): nat
    requires p < depth
  {
    if p + 1 == depth then 0 else p + 1
  }

  /** The values from the read pointer up to the write pointer. */
  function Window<T>(cells: seq<T>, rd: nat, wr: nat): seq<T>
    requires rd < |cells| && wr < |cells|
  {
    if rd <= wr then cells[rd..wr] else cells[rd..] + cells[..wr]
  }

  /** All cells but the one at `rd`, from the one after it on. */
  function Leftover<T>(cells: seq<T>, rd: nat): (r: seq<T>)
    requires rd < |cells|
    ensures |r| == |cells| - 1
  {
    cells[rd + 1..] + cells[..rd]
  }

  lemma WindowPush<T>(cells: seq<T>, rd: nat, wr: nat, x: T)
    requires rd < |cells| && wr < |cells| && Next(wr, |cells|) != rd
    ensures Window(cells[wr := x], rd, Next(wr, |cells|)) == Window(cells, rd, wr) + [x]
  {
  }

  lemma WindowPop<T>(cells: seq<T>, rd: nat, wr: nat)
    requires rd < |cells| && wr < |cells| && rd != wr
    ensures Window(cells, rd, wr) != [] && Window(cells, rd, wr)[0] == cells[rd]
    ensures Window(cells, Next(rd, |cells|), wr) == Window(cells, rd, wr)[1..]
  {
  }

  lemma WindowUnderflow<T>(cells: seq<T>, rd: nat)
    requires rd < |cells| && |cells| >= 2
    ensures Window(cells, Next(rd, |cells|), rd) == Leftover(cells, rd)
  {
  }

  class Fifo<T(0)> {
    const cells: array<T>
    var wr: nat
    var rd: nat

    ghost predicate Valid()
      reads this
    {
      cells.Length >= 2 && wr < cells.Length && rd < cells.Length
    }

    constructor (depth: nat)
      requires depth >= 2
      ensures Valid() && fresh(cells) && cells.Length == depth && Contents() == []
    {
      cells := new T[depth];
      wr, rd := 0, 0;
    }

    /** The queued values, oldest first. */
    ghost function Contents(): (q: seq<T>)
      requires Valid()
      reads this, cells
      ensures |q| < cells.Length
    {
      Window(cells[..], rd, wr)
    }

    predicate IsEmpty()
      requires Valid()
      reads this, cells
      ensures IsEmpty() <==> Contents() == []
    {
      wr == rd
    }

    predicate IsFull()
      requires Valid()
      reads this, cells
      ensures IsFull() <==> |Contents()| == cells.Length - 1
    {
      Next(wr, cells.Length) == rd
    }

    method Head() returns (x: T)
      requires Valid() && Contents() != []
      ensures x == Contents()[0]
    {
      x := cells[rd];
    }

    /** One clock edge: the pointers move independently, so a push and a pop may coincide. A pop of
        an empty FIFO brings back all cells but the one popped, or loses what is pushed. */
    method Clock(push: bool, x: T, pop: bool)
      requires Valid()
      requires push ==> |Contents()| < cells.Length - 1
      modifies this, cells
      ensures Valid()
      ensures pop ==> old(Contents()) != [] || push || Contents() == old(Leftover(cells[..], rd))
      ensures pop && push && old(Contents()) == [] ==> Contents() == []
      ensures (pop ==> old(Contents()) != []) ==>
        Contents() == (if pop then old(Contents())[1..] else old(Contents())) + (if push then [x] else [])
    {
      if push {
        WindowPush(cells[..], rd, wr, x);
        cells[wr] := x;
        wr := Next(wr, cells.Length);
        assert cells[..] == old(cells[..])[old(wr) := x];
      }
      if pop {
        if wr == rd {
          WindowUnderflow(cells[..], rd);
        } else {
          WindowPop(cells[..], rd, wr);
        }
        rd := Next(rd, cells.Length);
      }
    }
  }
}
