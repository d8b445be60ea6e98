/** The registers of the read adapter, refining module ReadMachine at every clock edge. */
module ReadAdapter {
  import opened AxiBurst
  import opened FifoQueue
  import opened ReadMachine

  class Adapter {
    const c: Config
    const meta: Fifo<Meta>
    var deliver: bool
    var line: Words
    var error: bool
    var id: nat

    ghost predicate Valid()
      reads this, meta
    {
      c.Ok() && meta.Valid() && meta.cells.Length == c.depth && |line| == c.words
    }

    /** The state of the machine held by the registers. */
    ghost function State(): State
      requires Valid()
      reads this, meta, meta.cells
    {
      ReadMachine.State(meta.Contents(), deliver, line, error, id)
    }

    /** Reset. */
    constructor (c: Config)
      requires c.Ok()
      ensures Valid() && this.c == c && State() == Reset(c)
      ensures fresh(meta) && fresh(meta.cells)
    {
      this.c := c;
      meta := new Fifo(c.depth);
      deliver, line, error, id := false, Zeros(c.words), false, 0;
    }

    predicate ReqReady(arReady: bool)
      requires Valid()
      reads this, meta, meta.cells
      ensures ReqReady(arReady) <==> arReady && !Full(c, State())
    {
      arReady && !meta.IsFull()
    }

    /** What the adapter drives in a cycle; the AR channel does not depend on its state. */
    method Outputs(i: In) returns (arValid: bool, ar: Ar, rReady: bool, respValid: bool, resp: Resp)
      requires Valid()
      ensures arValid && i.arReady <==> ArFire(i)
      ensures ar == ArOf(c, i.req)
      ensures rReady && i.rValid <==> RFire(State(), i)
      ensures respValid && i.respReady <==> RespFire(State(), i)
      ensures resp == Resp(State().id, State().line, State().error)
    {
      arValid, ar := i.reqValid, Ar(i.req.id, i.req.addr, AxiLen(c, i.req.size), AxiSize(c, i.req.size));
      rReady, respValid, resp := !deliver, deliver, Resp(id, line, error);
    }

    /** The assembly registers at a clock edge, under the metadata `cur`. */
    method ClockLine(i: In, cur: Meta)
      requires Valid()
      modifies `deliver, `line, `error, `id
      ensures Valid() && State() == Assemble(c, old(State()), i, cur)
    {
      if !deliver {
        if i.rValid {
          if cur.isUc {
            line := OneWord(c.words, cur.wordIdx, i.r.data);
          } else {
            line := line[1..] + [i.r.data];
          }
          if IsError(i.r) {
            error := true;
          }
          if i.r.last {
            id, deliver := i.r.id, true;
          }
        }
      } else if i.respReady {
        deliver, line, error := false, Zeros(c.words), false;
      }
    }

    /** A beat arrives although no request is outstanding. */
    ghost predicate Stray(i: In)
      requires Valid()
      reads this, meta, meta.cells
    {
      RFire(State(), i) && State().queue == []
    }

    /** One clock edge: the registers make the step of the machine. A stray beat is taken under the
        stale cell at the read pointer; if it is the last of its burst, the metadata FIFO either
        loses the request accepted in the same cycle, or fills up with stale cells. */
    method Clock(i: In)
      requires Valid()
      modifies this, meta, meta.cells
      ensures Valid()
      ensures !old(Stray(i)) ==> State() == Step(c, old(State()), i)
      ensures old(Stray(i)) ==>
        && State().(queue := []) == Assemble(c, old(State()), i, old(meta.cells[meta.rd]))
        && (!i.r.last ==> State().queue == NextQueue(c, old(State()), i))
        && (i.r.last && ReqFire(c, old(State()), i) ==> State().queue == [])
        && (i.r.last && !ReqFire(c, old(State()), i) ==>
              State().queue == old(Leftover(meta.cells[..], meta.rd)) && Full(c, State()))
    {
      var push := i.reqValid && ReqReady(i.arReady);
      var pop := !deliver && i.rValid && i.r.last;
      var cur := meta.cells[meta.rd];
      HeadCell();
      ClockLine(i, cur);
      meta.Clock(push, MetaOf(c, i.req), pop);
    }

    /** The cell at the read pointer is the head of the FIFO, if it has one. */
    lemma HeadCell()
      requires Valid()
      ensures meta.Contents() != [] ==> meta.cells[meta.rd] == meta.Contents()[0]
    {
    }
  }
}
