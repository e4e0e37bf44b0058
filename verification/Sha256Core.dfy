/** sha256.v: the controller, and the wiring of the two pipelines and the constant ROM. */
module Sha256Core {
  import opened Words
  import opened RoundConstants
  import ChunkProcess
  import ChunkCompress

  datatype State = IDLE | LOAD | PROC | FINISH

  /** All registers of the core. */
  datatype Regs = Regs(state: State, counter: nat, irq: bool,
                       sched: ChunkProcess.Window, comp: ChunkCompress.Pipeline) {
    predicate Valid() { counter < 0x100 && sched.Valid() }
  }

  function ResetRegs(): (r: Regs)
    ensures r.Valid()
  {
    Regs(IDLE, 0, false, ChunkProcess.ResetWindow(), ChunkCompress.ResetPipeline())
  }

  /** The input pins during one clock cycle. */
  datatype Input = Input(rstN: bool, valid: bool, dat: Word)

  // ---- Combinational nets ----

  /** The reset is asynchronous: while it is low, the registers already show their reset values. */
  function Visible(r: Regs, rstN: bool): Regs { if rstN then r else ResetRegs() }

  function StateNext(r: Regs, i: Input): State {
    if !i.rstN then IDLE
    else match r.state
      case IDLE => if i.valid then LOAD else IDLE
      case LOAD => if r.counter == 0x10 then PROC else LOAD
      case PROC => if r.counter == 0x40 then FINISH else PROC
      case FINISH => IDLE
  }

  /** hash_busy_o */
  function Busy(r: Regs, i: Input): bool {
    var v := Visible(r, i.rstN);
    StateNext(v, i) == PROC || v.state == PROC || v.state == FINISH
  }

  /** w_out_vaild */
  function WordValid(r: Regs, i: Input): bool { i.valid || StateNext(r, i) == PROC }

  function CounterNext(r: Regs, i: Input): nat {
    if StateNext(r, i) == IDLE then 0
    else if WordValid(r, i) then (r.counter + 1) % 0x100
    else r.counter
  }

  function WordIn(r: Regs, i: Input): Word
    requires r.Valid()
  {
    ChunkProcess.WordOut(r.sched, StateNext(r, i) == PROC, SwapBytes(i.dat))
  }

  function HashOut(r: Regs): (out: seq<Word>)
    ensures |out| == 8
  {
    var h := r.comp.h8;
    SwapAll([h.a, h.b, h.c, h.d, h.e, h.f, h.g, h.h])
  }

  /** The registers after the clock edge that ends the cycle. */
  function Next(r: Regs, i: Input): (r': Regs)
    requires r.Valid()
    ensures r'.Valid()
  {
    if !i.rstN then ResetRegs()
    else
      Regs(StateNext(r, i), CounterNext(r, i), r.state == FINISH,
           ChunkProcess.Next(r.sched, StateNext(r, i) == PROC, i.valid, SwapBytes(i.dat)),
           ChunkCompress.Next(r.comp, r.state == LOAD || r.state == PROC, StateNext(r, i) == FINISH,
                              WordValid(r, i), WordIn(r, i), WordOf(Rom(r.counter % 0x40))))
  }

  /** The registers after a run of cycles. */
  function Steps(r: Regs, ins: seq<Input>): (r': Regs)
    requires r.Valid()
    ensures r'.Valid()
  {
    if |ins| == 0 then r
    else Next(Steps(r, ins[..|ins| - 1]), ins[|ins| - 1])
  }

  /** The registers after a run that starts from reset. */
  function Run(ins: seq<Input>): (r: Regs)
    ensures r.Valid()
  {
    Steps(ResetRegs(), ins)
  }

  /** A word on the pins is taken exactly when it is valid and the core is neither busy nor in reset. */
  predicate Takes(r: Regs, i: Input) { i.rstN && i.valid && !Busy(r, i) }

  /** The bus words taken since the last reset. */
  function Absorbed(ins: seq<Input>): seq<Word> {
    if |ins| == 0 then []
    else
      var last := ins[|ins| - 1];
      var before := Absorbed(ins[..|ins| - 1]);
      if !last.rstN then []
      else if Takes(Run(ins[..|ins| - 1]), last) then before + [last.dat]
      else before
  }

  /** Busy never looks at the data pins, so a front end may derive valid from it. */
  lemma BusyIgnoresData(r: Regs, rstN: bool, valid: bool, valid': bool, dat: Word, dat': Word)
    ensures Busy(r, Input(rstN, valid, dat)) == Busy(r, Input(rstN, valid', dat'))
  {
  }

  // ---- The clocked module ----

  class Sha256 {
    var state: State
    var counter: nat
    var irqFinish: bool
    const process: ChunkProcess.Sha256ChunkProcess
    const compress: ChunkCompress.Sha256ChunkCompress

    ghost predicate Valid()
      reads this, process
    {
      && counter < 0x100
      && process.Valid() && compress.Valid()
      && process.W !in {compress.H8, compress.abcdefgh, compress.stage}
    }

    function Registers(): (r: Regs)
      reads this, process, process.W, compress.H8, compress.abcdefgh, compress.stage
      requires Valid()
      ensures r.Valid()
    {
      Regs(state, counter, irqFinish, process.Registers(), compress.Registers())
    }

    constructor ()
      ensures Valid() && Registers() == ResetRegs()
      ensures fresh({process, process.W, compress.H8, compress.abcdefgh, compress.stage})
    {
      state, counter, irqFinish := IDLE, 0, false;
      process := new ChunkProcess.Sha256ChunkProcess();
      compress := new ChunkCompress.Sha256ChunkCompress();
    }

    /** The case statement that drives state_next. */
    method NextState(datValid: bool) returns (stateNext: State)
      requires Valid()
      ensures forall dat :: stateNext == StateNext(Registers(), Input(true, datValid, dat))
    {
      match state {
        case IDLE => stateNext := if datValid then LOAD else state;
        case LOAD => stateNext := if counter == 0x10 then PROC else state;
        case PROC => stateNext := if counter == 0x40 then FINISH else state;
        case FINISH => stateNext := IDLE;
      }
    }

    /** The two pipelines sample the same pre-edge state, whichever is written first. */
    method TickPipelines(stateNext: State, datValid: bool, datMsb: Word)
      requires Valid()
      modifies process, process.W, compress.H8, compress.abcdefgh, compress.stage
      ensures Valid() && state == old(state) && counter == old(counter) && irqFinish == old(irqFinish)
      ensures process.Registers()
           == ChunkProcess.Next(old(process.Registers()), stateNext == PROC, datValid, datMsb)
      ensures compress.Registers()
           == ChunkCompress.Next(old(compress.Registers()), state == LOAD || state == PROC, stateNext == FINISH,
                                 datValid || stateNext == PROC,
                                 ChunkProcess.WordOut(old(process.Registers()), stateNext == PROC, datMsb),
                                 WordOf(Rom(counter % 0x40)))
    {
      hide ChunkProcess.Next, ChunkCompress.Next, ChunkProcess.WordOut, Rom, WordOf;
      var processStart := stateNext == PROC;
      var wOut := ChunkProcess.WordOut(process.Registers(), processStart, datMsb);
      var kOut := WordOf(Rom(counter % 0x40));
      compress.Tick(state == LOAD || state == PROC, stateNext == FINISH, datValid || processStart, wOut, kOut);
      process.Tick(processStart, datValid, datMsb);
    }

    method Reset()
      requires Valid()
      modifies this, process, process.W, compress.H8, compress.abcdefgh, compress.stage
      ensures Valid() && Registers() == ResetRegs()
    {
      state, counter, irqFinish := IDLE, 0, false;
      process.Reset();
      compress.Reset();
    }

    method ClockEdge(i: Input)
      requires Valid() && i.rstN
      modifies this, process, process.W, compress.H8, compress.abcdefgh, compress.stage
      ensures Valid() && Registers() == Next(old(Registers()), i)
    {
      hide ChunkProcess.Next, ChunkCompress.Next, ChunkProcess.WordOut, SwapBytes, Rom, WordOf;
      ghost var r := Registers();
      var stateNext := NextState(i.valid);
      assert stateNext == StateNext(r, Input(true, i.valid, i.dat)) == StateNext(r, i);
      var wValid := i.valid || stateNext == PROC;
      var counterNext := if stateNext == IDLE then 0 else if wValid then (counter + 1) % 0x100 else counter;
      ghost var next := Next(r, i);
      TickPipelines(stateNext, i.valid, SwapBytes(i.dat));
      assert process.Registers() == next.sched;
      assert compress.Registers() == next.comp;
      irqFinish := state == FINISH;
      counter := counterNext;
      state := stateNext;
      assert process.Registers() == next.sched;
      assert compress.Registers() == next.comp;
    }

    /** One clock cycle. */
    method Tick(i: Input)
      requires Valid()
      modifies this, process, process.W, compress.H8, compress.abcdefgh, compress.stage
      ensures Valid()
      ensures Registers() == Next(old(Registers()), i)
    {
      if i.rstN {
        ClockEdge(i);
      } else {
        Reset();
      }
    }
  }
}
