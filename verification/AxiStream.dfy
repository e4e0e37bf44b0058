/** sha256_stream_v1_0.v with sha256_stream_v1_0_S00_AXIS.v: stream beats drive the core directly. */
module AxiStream {
  import opened Words
  import opened Fips180
  import opened AxiBurst
  import opened RegisterMap
  import Core = Sha256Core
  import EndToEnd
  import MakeChunk
  import NonInterference

  /** The input pins of one clock cycle; the register slave contributes the writes it accepts. */
  datatype Input = Input(
    axiResetN: bool, axisResetN: bool,
    tvalid: bool, tdata: Word,
    write: bool, awaddr: Octet, wdata: Word, wstrb: Strobe)

  datatype Regs = Regs(status: Word, core: Core.Regs) {
    predicate Valid() { core.Valid() }
  }

  function ResetRegs(): (f: Regs)
    ensures f.Valid()
  {
    Regs(Zero(), Core.ResetRegs())
  }

  /** sha256_rst_n */
  predicate CoreResetN(f: Regs, i: Input) { !f.status[0] && i.axiResetN && i.axisResetN }

  /** TVALID and TDATA reach the core as they are, even while TREADY is low. */
  function CoreInput(f: Regs, i: Input): Core.Input { Core.Input(CoreResetN(f, i), i.tvalid, i.tdata) }

  /** S_AXIS_TREADY */
  predicate TReady(f: Regs, i: Input) { !Core.Busy(f.core, CoreInput(f, i)) }

  function Next(f: Regs, i: Input): (f': Regs)
    requires f.Valid()
    ensures f'.Valid()
  {
    Regs(if !i.axiResetN then Zero() else StatusAfter(f.status, !TReady(f, i), i.write, i.awaddr, i.wdata, i.wstrb),
         Core.Next(f.core, CoreInput(f, i)))
  }

  /** The registers after a run that starts from reset. */
  function Run(ins: seq<Input>): (f: Regs)
    ensures f.Valid()
  {
    if |ins| == 0 then ResetRegs() else Next(Run(ins[..|ins| - 1]), ins[|ins| - 1])
  }

  function CorePins(ins: seq<Input>): (pins: seq<Core.Input>)
    ensures |pins| == |ins|
  {
    if |ins| == 0 then []
    else CorePins(ins[..|ins| - 1]) + [CoreInput(Run(ins[..|ins| - 1]), ins[|ins| - 1])]
  }

  // ---- Every beat handed over outside reset is taken ----

  /** A stream beat is handed over. */
  predicate Transfer(f: Regs, i: Input) { i.tvalid && TReady(f, i) }

  /** The beats handed over since the last soft reset, register bus reset or stream reset. */
  function Transfers(ins: seq<Input>): seq<Word> {
    if |ins| == 0 then []
    else
      var f, i := Run(ins[..|ins| - 1]), ins[|ins| - 1];
      var before := Transfers(ins[..|ins| - 1]);
      if f.status[0] || !i.axiResetN || !i.axisResetN then []
      else if Transfer(f, i) then before + [i.tdata] else before
  }

  lemma {:induction false} CoreAbsorbsTransfers(ins: seq<Input>)
    ensures Run(ins).core == Core.Run(CorePins(ins))
    ensures Core.Absorbed(CorePins(ins)) == Transfers(ins)
  {
    hide StatusAfter, Core.Next, Core.Busy;
    if |ins| == 0 {
      assert Core.Run([]) == Core.ResetRegs();
    } else {
      CoreAbsorbsTransfers(ins[..|ins| - 1]);
      assert CorePins(ins)[..|ins| - 1] == CorePins(ins[..|ins| - 1]);
    }
  }

  /** In a reset cycle TREADY is high all the same: a beat handed over then is lost. */
  lemma ResetCycleLosesBeat(f: Regs, i: Input)
    requires f.Valid()
    ensures f.status[0] || !i.axiResetN || !i.axisResetN ==> TReady(f, i)
    ensures Core.Takes(f.core, CoreInput(f, i)) <==>
      Transfer(f, i) && !f.status[0] && i.axiResetN && i.axisResetN
  {
  }

  /** Each of the three resets takes the core back to its initial state from any state; without one it takes a step. */
  lemma AnyResetResetsCore(f: Regs, i: Input)
    requires f.Valid()
    ensures f.status[0] || !i.axiResetN || !i.axisResetN ==> Next(f, i).core == Core.ResetRegs()
    ensures !f.status[0] && i.axiResetN && i.axisResetN ==>
      Next(f, i).core == Core.Next(f.core, Core.Input(true, i.tvalid, i.tdata))
  {
    hide Core.ResetRegs, StatusAfter;
  }

  /** The soft reset lasts one cycle unless it is written again; only the register bus reset clears the register. */
  lemma SoftReset(f: Regs, i: Input)
    requires f.Valid()
    ensures Next(f, i).status[0] <==>
      i.axiResetN && i.write && i.awaddr.bits < 4 && if i.wstrb[0] then i.wdata[0] else f.status[0]
    ensures !i.axiResetN ==> Next(f, i).status == Zero()
  {
    hide Core.Next, CoreInput, StatusAfter, TReady;
    StatusBit(f.status, !TReady(f, i), i.write, i.awaddr, i.wdata, i.wstrb, 0);
  }

  /** The interrupt enable that was last written. */
  function Enable(ins: seq<Input>): bool {
    if |ins| == 0 || !ins[|ins| - 1].axiResetN then false
    else
      var i := ins[|ins| - 1];
      if i.write && i.awaddr.bits < 4 && i.wstrb[0] then i.wdata[1] else Enable(ins[..|ins| - 1])
  }

  /** Bit 1 keeps what was written to it, through soft and stream resets too; bit 8 shows that TREADY was low. */
  lemma {:induction false} EnableIsKept(ins: seq<Input>)
    ensures Run(ins).status[1] == Enable(ins)
    ensures |ins| > 0 && ins[|ins| - 1].axiResetN && !ins[|ins| - 1].write ==>
      Run(ins).status[8] == !TReady(Run(ins[..|ins| - 1]), ins[|ins| - 1])
  {
    hide Core.Next, CoreInput, StatusAfter, TReady;
    if |ins| > 0 {
      EnableIsKept(ins[..|ins| - 1]);
      var f, i := Run(ins[..|ins| - 1]), ins[|ins| - 1];
      StatusBit(f.status, !TReady(f, i), i.write, i.awaddr, i.wdata, i.wstrb, 1);
      StatusBit(f.status, !TReady(f, i), i.write, i.awaddr, i.wdata, i.wstrb, 8);
    }
  }

  /** A padded message sent as stream beats is hashed, with any pauses on either side. */
  lemma DigestOverStream(ins: seq<Input>, message: seq<Byte>)
    requires 8 * |message| < Pow2(64) && MakeChunk.Conforms(message)
    requires Transfers(ins) == EndToEnd.BusWords(MakeChunk.Chunked(message)) && EndToEnd.Settled(Run(ins).core)
    ensures EndToEnd.ReadHash(Run(ins).core) == Fips180.Sha256(message)
  {
    hide Run, Transfers, Core.Run, Core.Absorbed, Fips180.Sha256, EndToEnd.ReadHash, MakeChunk.Chunked,
      EndToEnd.BusWords;
    CoreAbsorbsTransfers(ins);
    EndToEnd.DigestOfMessage(CorePins(ins), message);
  }

  // ---- What waits on the stream while TREADY is low cannot be observed ----

  /** Two cycles that may differ in the stream pins, but only if TREADY is low. */
  predicate SameTransfers(f: Regs, i1: Input, i2: Input) {
    && i2 == i1.(tvalid := i2.tvalid, tdata := i2.tdata)
    && (TReady(f, i1) ==> i1.tvalid == i2.tvalid && (i1.tvalid ==> i1.tdata == i2.tdata))
  }

  ghost predicate SameCorePins(pins1: seq<Core.Input>, pins2: seq<Core.Input>, k: nat)
    requires k < |pins1| == |pins2|
  {
    NonInterference.SameUnlessBusy(Core.Run(pins1[..k]), pins1[k], pins2[k])
  }

  lemma {:induction false} WaitingBeatsDoNotMatter(ins1: seq<Input>, ins2: seq<Input>)
    requires |ins1| == |ins2|
    requires forall k :: 0 <= k < |ins1| ==> SameTransfers(Run(ins1[..k]), ins1[k], ins2[k])
    ensures Run(ins1).status == Run(ins2).status
    ensures Core.HashOut(Run(ins1).core) == Core.HashOut(Run(ins2).core)
    ensures Transfers(ins1) == Transfers(ins2)
    ensures forall k :: 0 <= k < |ins1| ==> SameCorePins(CorePins(ins1), CorePins(ins2), k)
  {
    hide Core.HashOut, Core.Run, Core.Absorbed, Transfers, SameTransfers, Next, SameCorePins, CoreInput,
      NonInterference.Alike, NonInterference.SameUnlessBusy;
    var pins1, pins2 := CorePins(ins1), CorePins(ins2);
    if |ins1| > 0 {
      var n := |ins1| - 1;
      var f1, f2, i1, i2 := Run(ins1[..n]), Run(ins2[..n]), ins1[n], ins2[n];
      forall k | 0 <= k < n
        ensures SameTransfers(Run(ins1[..n][..k]), ins1[..n][k], ins2[..n][k])
      {
        assert ins1[..n][..k] == ins1[..k];
      }
      WaitingBeatsDoNotMatter(ins1[..n], ins2[..n]);
      CoreAbsorbsTransfers(ins1[..n]);
      CoreAbsorbsTransfers(ins2[..n]);
      assert pins1[..n] == CorePins(ins1[..n]) && pins2[..n] == CorePins(ins2[..n]);
      assert SameTransfers(f1, i1, i2);
      CoresAlike(pins1[..n], pins2[..n]);
      SameCycle(f1, f2, i1, i2);
      forall k | 0 <= k < |ins1|
        ensures SameCorePins(pins1, pins2, k)
      {
        SamePrefix(pins1, pins2, n, k);
      }
    }
    CoresAlike(pins1, pins2);
    CoreAbsorbsTransfers(ins1);
    CoreAbsorbsTransfers(ins2);
  }

  lemma SamePrefix(pins1: seq<Core.Input>, pins2: seq<Core.Input>, n: nat, k: nat)
    requires k <= n && |pins1| == |pins2| == n + 1
    requires forall j :: 0 <= j < n ==> SameCorePins(pins1[..n], pins2[..n], j)
    requires NonInterference.SameUnlessBusy(Core.Run(pins1[..n]), pins1[n], pins2[n])
    ensures SameCorePins(pins1, pins2, k)
  {
    hide Core.Run, NonInterference.SameUnlessBusy;
    if k < n {
      assert SameCorePins(pins1[..n], pins2[..n], k);
      assert pins1[..n][..k] == pins1[..k];
    }
  }

  lemma CoresAlike(pins1: seq<Core.Input>, pins2: seq<Core.Input>)
    requires |pins1| == |pins2|
    requires forall k :: 0 <= k < |pins1| ==> SameCorePins(pins1, pins2, k)
    ensures NonInterference.Alike(Core.Run(pins1), Core.Run(pins2))
    ensures Core.HashOut(Core.Run(pins1)) == Core.HashOut(Core.Run(pins2))
    ensures Core.Absorbed(pins1) == Core.Absorbed(pins2)
  {
    hide Core.Run, NonInterference.SameUnlessBusy, Core.HashOut, Core.Absorbed, NonInterference.Alike;
    forall k | 0 <= k < |pins1|
      ensures NonInterference.SameUnlessBusy(Core.Run(pins1[..k]), pins1[k], pins2[k])
    {
      assert SameCorePins(pins1, pins2, k);
    }
    NonInterference.BusyInputsDoNotMatter(pins1, pins2);
  }

  lemma SameCycle(f1: Regs, f2: Regs, i1: Input, i2: Input)
    requires f1.Valid() && f2.Valid() && f1.status == f2.status && SameTransfers(f1, i1, i2)
    requires NonInterference.Alike(f1.core, f2.core)
    ensures NonInterference.SameUnlessBusy(f1.core, CoreInput(f1, i1), CoreInput(f2, i2))
    ensures Next(f1, i1).status == Next(f2, i2).status
  {
    hide Core.Next, Core.Busy, StatusAfter, NonInterference.Alike;
    NonInterference.AlikeStep(f1.core, f2.core, CoreInput(f1, i1), CoreInput(f2, i2));
  }
}
