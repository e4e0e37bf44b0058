/** What the write channels of the burst slave guarantee over whole runs. */
module AxiFullWrite {
  import opened Words
  import opened Fips180
  import opened AxiBurst
  import opened RegisterMap
  import opened AxiFull
  import Core = Sha256Core
  import CoreRefinement
  import EndToEnd
  import MakeChunk

  // ---- The loop from busy through WREADY back into the core ----

  /** The pins of the core, if the busy net carried the given value. */
  function CoreInputIf(f: Regs, i: Input, busy: bool): Core.Input {
    var wReady := f.w.wready && !(busy && DataWindow(f.w.cur.addr));
    Core.Input(CoreResetN(f, i), wReady && i.wvalid && DataWindow(f.w.cur.addr), i.wdata)
  }

  /** Exactly one value of the busy net is consistent with what the core makes of it. */
  lemma FeedbackHasOneSolution(f: Regs, i: Input, busy: bool)
    ensures Core.Busy(f.core, CoreInputIf(f, i, busy)) == busy <==> busy == HashBusy(f, i)
    ensures CoreInputIf(f, i, HashBusy(f, i)) == CoreInput(f, i)
  {
    var pins := CoreInputIf(f, i, busy);
    Core.BusyIgnoresData(f.core, pins.rstN, pins.valid, false, pins.dat, i.wdata);
  }

  // ---- Which beats the core takes ----

  /** A write beat is accepted, and its address lies in 0x40 to 0x7f. */
  predicate DataBeat(f: Regs, i: Input) { WriteEnable(f, i) && DataWindow(f.w.cur.addr) }

  lemma TakesDataBeats(f: Regs, i: Input)
    ensures Core.Takes(f.core, CoreInput(f, i)) <==> CoreResetN(f, i) && DataBeat(f, i)
  {
    var pins := CoreInput(f, i);
    Core.BusyIgnoresData(f.core, pins.rstN, pins.valid, false, pins.dat, i.wdata);
  }

  /** The words of the data beats accepted since the core was last reset. */
  function DataBeats(ins: seq<Input>): seq<Word> {
    if |ins| == 0 then []
    else
      var f, i := Run(ins[..|ins| - 1]), ins[|ins| - 1];
      var before := DataBeats(ins[..|ins| - 1]);
      if !CoreResetN(f, i) then [] else if DataBeat(f, i) then before + [i.wdata] else before
  }

  function CorePins(ins: seq<Input>): (pins: seq<Core.Input>)
    ensures |pins| == |ins|
  {
    if |ins| == 0 then []
    else CorePins(ins[..|ins| - 1]) + [CoreInput(Run(ins[..|ins| - 1]), ins[|ins| - 1])]
  }

  /** The core inside the slave runs as the core alone, and absorbs the data beats in order, once each. */
  lemma {:induction false} CoreAbsorbsDataBeats(ins: seq<Input>)
    ensures Run(ins).core == Core.Run(CorePins(ins))
    ensures Core.Absorbed(CorePins(ins)) == DataBeats(ins)
  {
    hide WriteNext, ReadNext, StatusNext, DataOutNext, Core.Next, CoreInput, CoreResetN, DataBeat, Core.Takes;
    if |ins| == 0 {
      assert Core.Run([]) == Core.ResetRegs();
    } else {
      var f, i := Run(ins[..|ins| - 1]), ins[|ins| - 1];
      var pins := CorePins(ins);
      CoreAbsorbsDataBeats(ins[..|ins| - 1]);
      assert pins[..|pins| - 1] == CorePins(ins[..|ins| - 1]);
      TakesDataBeats(f, i);
      PinsOf(f, i);
    }
  }

  lemma PinsOf(f: Regs, i: Input)
    ensures CoreInput(f, i).rstN == CoreResetN(f, i) && CoreInput(f, i).dat == i.wdata
  {
  }

  // ---- No data beat is lost to the soft reset ----

  /** A soft reset is never seen together with an open data beat. */
  predicate WriteInv(f: Regs) {
    && (f.w.wready ==> f.w.awFlag)
    && (f.status[0] && f.w.wready ==> !DataWindow(f.w.cur.addr))
  }

  /** One beat takes the address from the status register to its neighbour, in every burst mode. */
  lemma AfterStatusBeat(c: Cursor)
    requires Index(c.addr) == 0
    ensures !DataWindow(Advance(c).addr) && !DataWindow(c.addr)
  {
  }

  lemma WriteInvStep(f: Regs, i: Input)
    requires f.Valid() && WriteInv(f)
    ensures WriteInv(Next(f, i))
  {
    hide ReadNext, DataOutNext, Core.Next, CoreInput, HashBusy, Advance, DataWindow, Index;
    if Index(f.w.cur.addr) == 0 {
      AfterStatusBeat(f.w.cur);
    }
  }

  lemma {:induction false} WriteInvAlways(ins: seq<Input>)
    ensures WriteInv(Run(ins))
  {
    hide Next, WriteInv;
    if |ins| == 0 {
      WriteInvAtReset();
    } else {
      WriteInvAlways(ins[..|ins| - 1]);
      WriteInvStep(Run(ins[..|ins| - 1]), ins[|ins| - 1]);
    }
  }

  lemma WriteInvAtReset()
    ensures WriteInv(ResetRegs())
  {
  }

  /** Outside bus reset, every accepted data beat reaches the core: none falls in a soft-reset cycle. */
  lemma EveryDataBeatIsTaken(ins: seq<Input>, i: Input)
    requires i.resetN
    ensures Core.Takes(Run(ins).core, CoreInput(Run(ins), i)) <==> DataBeat(Run(ins), i)
  {
    hide Run, HashBusy, CoreInput, Core.Takes, DataWindow;
    WriteInvAlways(ins);
    TakesDataBeats(Run(ins), i);
  }

  // ---- The hash of what was written ----

  lemma HashOfDataBeats(ins: seq<Input>)
    ensures var words := SwapAll(DataBeats(ins));
            var n := CoreRefinement.Folded(Run(ins).core, words);
            0 <= n && 16 * n <= |words| && Run(ins).core.comp.h8 == HashBlocks(words, n)
  {
    hide Run, DataBeats, Core.Run, Core.Absorbed, HashBlocks, SwapAll;
    CoreAbsorbsDataBeats(ins);
    CoreRefinement.HashValueInEveryState(CorePins(ins));
  }

  /** A padded message that arrives in data beats is hashed, whatever bursts carried it. */
  lemma DigestOverBursts(ins: seq<Input>, message: seq<Byte>)
    requires 8 * |message| < Pow2(64) && MakeChunk.Conforms(message)
    requires DataBeats(ins) == EndToEnd.BusWords(MakeChunk.Chunked(message)) && EndToEnd.Settled(Run(ins).core)
    ensures EndToEnd.ReadHash(Run(ins).core) == Fips180.Sha256(message)
  {
    hide Run, DataBeats, Core.Run, Core.Absorbed, Fips180.Sha256, EndToEnd.ReadHash, MakeChunk.Chunked,
      EndToEnd.BusWords;
    CoreAbsorbsDataBeats(ins);
    EndToEnd.DigestOfMessage(CorePins(ins), message);
  }
}
