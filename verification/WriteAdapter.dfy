/** The registers of the write adapter, refining module WriteMachine at every clock edge. */
module WriteAdapter {
  import opened AxiBurst
  import opened FifoQueue
  import opened WriteMachine

  /** Handshakes of a cycle, with the write and the ID pushed when AW fires. */
  datatype Signals = Signals(
    reqReady: bool, dataReady: bool, fire: bool, dataPop: bool, respPop: bool, entry: Entry, id: nat)

  /** The signals are those of the machine in state `s`. */
  ghost predicate Drives(c: Config, s: State, i: In, g: Signals) {
    && g.reqReady == WriteMachine.ReqReady(c, s)
    && g.dataReady == WriteMachine.DataReady(c, s)
    && g.fire == AwFire(c, s, i)
    && (g.fire ==> [g.entry] == Issued(c, s, i) && g.id == s.req.value.id)
    && g.dataPop == (s.w.None? && s.dataQueue != [])
    && g.respPop == RespFire(s, i)
  }

  class Adapter {
    const c: Config

    // staging area
    var req: Req
    var reqLatched: bool
    var txLine: Line
    var dataLatched: bool
    var wordIdx: nat
    var isUc: bool

    const dataFifo: Fifo<Entry>
    const respFifo: Fifo<nat>

    // W channel
    var wSend: bool
    var wLine: Line
    var wTotal: BeatCount
    var beat: nat

    ghost function ReqReg(): Option<Req>
      reads `req, `reqLatched
    {
      if reqLatched then Some(req) else None
    }

    ghost function DataReg(): Option<Line>
      reads `txLine, `dataLatched
    {
      if dataLatched then Some(txLine) else None
    }

    ghost function BurstReg(): Option<Burst>
      reads `wSend, `wLine, `wTotal, `beat
    {
      if wSend then Some(Burst(wLine, wTotal, beat)) else None
    }

    /** The decoded request registers agree with the latched request. */
    ghost predicate Decoded()
      requires c.Ok()
      reads `req, `reqLatched, `wordIdx, `isUc
    {
      reqLatched ==> wordIdx == WordIndex(c, req.addr) && isUc == IsUncached(c, req.size)
    }

    ghost predicate Registers()
      reads this, dataFifo, respFifo
    {
      && c.Ok() && Decoded()
      && dataFifo.Valid() && dataFifo.cells.Length == c.depth
      && respFifo.Valid() && respFifo.cells.Length == c.depth
      && dataFifo as object != respFifo && dataFifo.cells as object != respFifo.cells
    }

    /** The state of the machine held by the registers. */
    ghost function State(): State
      requires Registers()
      reads this, dataFifo, dataFifo.cells, respFifo, respFifo.cells
    {
      WriteMachine.State(ReqReg(), DataReg(), dataFifo.Contents(), respFifo.Contents(), BurstReg())
    }

    ghost predicate Valid()
      reads this, dataFifo, dataFifo.cells, respFifo, respFifo.cells
    {
      Registers() && (wSend ==> beat < wTotal)
    }

    /** Reset. */
    constructor (c: Config)
      requires c.Ok()
      ensures Valid() && this.c == c && State() == RESET
      ensures fresh(dataFifo) && fresh(dataFifo.cells) && fresh(respFifo) && fresh(respFifo.cells)
    {
      this.c := c;
      req, reqLatched, txLine, dataLatched, wordIdx, isUc := Req(0, 0, 0), false, [], false, 0, false;
      dataFifo := new Fifo(c.depth);
      respFifo := new Fifo(c.depth);
      wSend, wLine, wTotal, beat := false, [], 1, 0;
    }

    predicate CanPush()
      requires Registers()
      reads this, dataFifo, dataFifo.cells, respFifo, respFifo.cells
      ensures CanPush() == WriteMachine.CanPush(c, State())
    {
      !dataFifo.IsFull() && !respFifo.IsFull()
    }

    predicate ReqReady()
      requires Registers()
      reads this, dataFifo, dataFifo.cells, respFifo, respFifo.cells
      ensures ReqReady() == WriteMachine.ReqReady(c, State())
    {
      !reqLatched && CanPush()
    }

    predicate DataReady()
      requires Registers()
      reads this, dataFifo, dataFifo.cells, respFifo, respFifo.cells
      ensures DataReady() == WriteMachine.DataReady(c, State())
    {
      !dataLatched && (CanPush() || reqLatched)
    }

    /** The data half of the staging area at a clock edge. */
    method ClockData(i: In, ready: bool, fire: bool)
      requires c.Ok() && Decoded()
      modifies `txLine, `dataLatched
      ensures DataReg() == if fire then None
                           else if i.dataValid && ready then Some(Capture(c, ReqReg(), i))
                           else old(DataReg())
    {
      if i.dataValid && ready {
        var idx, uc := 0, false;
        if reqLatched {
          idx, uc := wordIdx, isUc;
        } else if i.reqValid {
          idx, uc := WordIndex(c, i.req.addr), IsUncached(c, i.req.size);
        }
        txLine := if uc then ShiftDown(i.data, idx) else i.data;
        dataLatched := true;
      }
      if fire {
        dataLatched := false;
      }
    }

    /** The request half of the staging area at a clock edge. */
    method ClockReq(i: In, ready: bool, fire: bool)
      requires c.Ok() && Decoded()
      modifies `req, `reqLatched, `wordIdx, `isUc
      ensures Decoded()
      ensures ReqReg() == if fire then None
                          else if i.reqValid && ready then Some(i.req)
                          else old(ReqReg())
    {
      if i.reqValid && ready {
        req, reqLatched := i.req, true;
        wordIdx, isUc := WordIndex(c, i.req.addr), IsUncached(c, i.req.size);
      }
      if fire {
        reqLatched := false;
      }
    }

    /** The W machine at a clock edge. Its counters have eight bits. */
    method ClockW(i: In)
      requires dataFifo.Valid()
      requires wSend ==> beat < wTotal
      modifies `wSend, `wLine, `wTotal, `beat
      ensures BurstReg() == NextBurst(old(BurstReg()), dataFifo.Contents(), i)
      ensures wSend ==> beat < wTotal
    {
      if !wSend {
        if !dataFifo.IsEmpty() {
          var head := dataFifo.Head();
          wLine, wTotal, beat, wSend := head.line, head.beats, 0, true;
        }
      } else if i.wReady {
        wLine := ShiftDown(wLine, 1);
        wSend := beat != wTotal - 1;
        beat := (beat + 1) % 256;
      }
    }

    /** Both FIFOs at a clock edge, `s` being the state before it. */
    method ClockFifos(i: In, g: Signals, ghost s: State)
      requires Registers() && Drives(c, s, i, g)
      requires dataFifo.Contents() == s.dataQueue && respFifo.Contents() == s.respQueue
      modifies dataFifo, dataFifo.cells, respFifo, respFifo.cells
      ensures Registers()
      ensures dataFifo.Contents() == Popped(s) + Issued(c, s, i)
      ensures respFifo.Contents() == NextResp(c, s, i)
    {
      dataFifo.Clock(g.fire, g.entry, g.dataPop);
      respFifo.Clock(g.fire, g.id, g.respPop);
    }

    method ClockRegisters(i: In, g: Signals, ghost s: State)
      requires Valid() && s == State() && Drives(c, s, i, g)
      modifies `req, `reqLatched, `txLine, `dataLatched, `wordIdx, `isUc, `wSend, `wLine, `wTotal, `beat
      ensures Valid()
      ensures ReqReg() == NextReq(c, s, i) && DataReg() == NextData(c, s, i)
      ensures BurstReg() == NextBurst(s.w, s.dataQueue, i)
    {
      ClockW(i);
      ClockData(i, g.dataReady, g.fire);
      ClockReq(i, g.reqReady, g.fire);
    }

    /** The combinational signals of a cycle. */
    method Decode(i: In) returns (g: Signals)
      requires Registers()
      ensures Drives(c, State(), i, g)
    {
      g := Signals(
        ReqReady(), DataReady(),
        reqLatched && dataLatched && CanPush() && i.awReady,
        !wSend && !dataFifo.IsEmpty(),
        !respFifo.IsEmpty() && i.bValid && i.respReady,
        Entry(txLine, Beats(c, req.size)), req.id);
    }

    /** What the adapter drives in a cycle: the payload of a channel matters while it is valid. */
    method Outputs(i: In) returns (aw: Option<Aw>, w: Option<WBeat>, bReady: bool, resp: Option<Resp>)
      requires Valid()
      ensures aw == if AwValid(c, State()) then Some(AwOf(c, State().req.value)) else None
      ensures w == if State().w.Some? then Some(WriteMachine.WOut(State().w.value)) else None
      ensures bReady == (i.respReady && State().respQueue != [])
      ensures resp == if i.bValid && State().respQueue != [] then Some(RespOf(i.b)) else None
    {
      aw, w, resp := None, None, None;
      if reqLatched && dataLatched && CanPush() {
        aw := Some(Aw(req.id, req.addr, AxiLen(c, req.size), AxiSize(c, req.size)));
      }
      if wSend {
        w := Some(WBeat(LaneAt(wLine, 0), beat == wTotal - 1));
      }
      bReady := i.respReady && !respFifo.IsEmpty();
      if i.bValid && !respFifo.IsEmpty() {
        resp := Some(Resp(i.b.id, i.b.resp.SlvErr? || i.b.resp.DecErr?, i.b.resp.ExOkay?));
      }
    }

    /** One clock edge: the registers make the step of the machine. */
    method Clock(i: In)
      requires Valid()
      modifies this, dataFifo, dataFifo.cells, respFifo, respFifo.cells
      ensures Valid() && State() == Step(c, old(State()), i)
    {
      ghost var s := State();
      var g := Decode(i);
      ClockRegisters(i, g, s);
      ClockFifos(i, g, s);
    }
  }
}
