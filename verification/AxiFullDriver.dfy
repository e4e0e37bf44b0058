/** A master that writes a message in sixteen-beat bursts and reads its digest in an eight-beat burst. */
module AxiFullDriver {
  import opened Words
  import opened Fips180
  import opened AxiBurst
  import opened RegisterMap
  import opened AxiFull
  import opened AxiFullWrite
  import opened AxiFullBursts
  import opened AxiFullProgress
  import R = AxiFullRead
  import Core = Sha256Core
  import CoreRefinement
  import ChunkCompress
  import ChunkProcess
  import RoundConstants
  import EndToEnd
  import MakeChunk

  // ---- What the master puts on the pins ----

  function AllBytes(): Strobe { [true, true, true, true] }

  /** No request; a write response is always welcome. */
  function Wait(): Input {
    Input(true, false, Octet(0), Octet(0), INCR, false, Zero(), AllBytes(), false, true, false, Octet(0), Octet(0),
      INCR, false)
  }

  function OpenWrite(): Input { Wait().(awvalid := true, awaddr := Octet(0x40), awlen := Octet(15)) }

  function WriteBeat(w: Word, last: bool): Input { Wait().(wvalid := true, wdata := w, wlast := last) }

  function TakeRead(): Input { Wait().(rready := true) }

  function OpenRead(): Input { TakeRead().(arvalid := true, araddr := Octet(0x20), arlen := Octet(7)) }

  function Hold(i: Input, n: nat): (ins: seq<Input>)
    ensures |ins| == n && forall k :: 0 <= k < n ==> ins[k] == i
  {
    seq(n, _ => i)
  }

  /** The beat is accepted after it has waited for n cycles. */
  predicate Taken(f: Regs, i: Input, n: nat)
    requires f.Valid()
  {
    WriteEnable(Steps(f, Hold(i, n)), i)
  }

  /** The cycles for which a beat waits, from the n-th on; the slave lets it wait for 51 at most. */
  function Delay(f: Regs, i: Input, n: nat): (d: nat)
    requires f.Valid() && n <= 51
    ensures n <= d <= 51
    decreases 51 - n
  {
    if n == 51 || Taken(f, i, n) then n else Delay(f, i, n + 1)
  }

  lemma {:induction false} DelayIsFirst(f: Regs, i: Input, n: nat)
    requires f.Valid() && n <= 51
    ensures Delay(f, i, n) < 51 ==> Taken(f, i, Delay(f, i, n))
    ensures forall m :: n <= m < Delay(f, i, n) ==> !Taken(f, i, m)
    decreases 51 - n
  {
    hide Taken;
    if n < 51 && !Taken(f, i, n) {
      DelayIsFirst(f, i, n + 1);
    }
  }

  /** Before the first word of a block, its burst is opened: the address is offered until it is taken. */
  function Opened(ins: seq<Input>, n: nat): seq<Input> {
    if n % 16 == 0 then ins + [OpenWrite()] + [OpenWrite()] else ins
  }

  /** Beat k of a burst: the word is held until it is accepted. */
  function BeatUntilTaken(ins: seq<Input>, w: Word, k: nat): (sent: seq<Input>)
    ensures |sent| <= |ins| + 52
  {
    var beat := WriteBeat(w, k == 15);
    ins + Hold(beat, Delay(Run(ins), beat, 0) + 1)
  }

  /** The master watches WREADY. */
  function Drive(words: seq<Word>): seq<Input> {
    if |words| == 0 then []
    else
      var n := |words| - 1;
      BeatUntilTaken(Opened(Drive(words[..n]), n), words[n], n % 16)
  }

  // ---- What the protocol asks of a master ----

  function WriteAddress(i: Input): (Octet, Octet, BurstType) { (i.awaddr, i.awlen, i.awburst) }

  function WriteData(i: Input): (Word, Strobe, bool) { (i.wdata, i.wstrb, i.wlast) }

  function ReadAddress(i: Input): (Octet, Octet, BurstType) { (i.araddr, i.arlen, i.arburst) }

  /** What was offered in cycle i and not taken in it is offered again, unchanged, in the next cycle. */
  predicate Repeats(f: Regs, i: Input, next: Input) {
    && (i.awvalid && !f.w.awready ==> next.awvalid && WriteAddress(next) == WriteAddress(i))
    && (i.wvalid && !WReady(f, i) ==> next.wvalid && WriteData(next) == WriteData(i))
    && (i.arvalid && !f.r.arready ==> next.arvalid && ReadAddress(next) == ReadAddress(i))
  }

  predicate HeldAfter(ins: seq<Input>, k: nat)
    requires k + 1 < |ins|
  {
    Repeats(Run(ins[..k]), ins[k], ins[k + 1])
  }

  /** A valid, and what goes with it, stays until the handshake. */
  predicate HoldsValids(ins: seq<Input>) { forall k :: 0 <= k < |ins| - 1 ==> HeldAfter(ins, k) }

  /** The last cycle leaves no offer open. */
  predicate AllTaken(ins: seq<Input>) { |ins| > 0 ==> TakenIn(Run(ins[..|ins| - 1]), ins[|ins| - 1]) }

  predicate TakenIn(f: Regs, i: Input) {
    (i.awvalid ==> f.w.awready) && (i.wvalid ==> WReady(f, i)) && (i.arvalid ==> f.r.arready)
  }

  /** Nothing is open, or the same pins come again. */
  predicate GoesOnWith(ins: seq<Input>, i: Input) {
    HoldsValids(ins) && (AllTaken(ins) || (|ins| > 0 && ins[|ins| - 1] == i))
  }

  lemma HoldsOn(ins: seq<Input>, i: Input)
    requires GoesOnWith(ins, i)
    ensures GoesOnWith(ins + [i], i) && (AllTaken(ins + [i]) <==> TakenIn(Run(ins), i))
  {
    hide Run, WReady;
    var longer := ins + [i];
    assert longer[..|ins|] == ins;
    forall k | 0 <= k < |longer| - 1
      ensures HeldAfter(longer, k)
    {
      assert longer[..k] == ins[..k];
      assert k < |ins| - 1 ==> HeldAfter(ins, k);
    }
  }

  // ---- Writing ----

  function BlockBurst(): Cursor { Start(Octet(0x40), INCR, Octet(15)) }

  predicate ReadQuiet(f: Regs) { !f.r.arFlag && !f.r.arready && !f.status[0] }

  /** The burst waits for beat k. */
  predicate AtBeat(f: Regs, k: nat) { BurstAt(f, BlockBurst(), k) && (k > 0 ==> !f.w.awready) && ReadQuiet(f) }

  /** No burst is open. */
  predicate Closed(f: Regs) { !f.w.awFlag && !f.w.awready && ReadQuiet(f) }

  predicate AfterWords(f: Regs, n: nat) { if n % 16 == 0 then Closed(f) else AtBeat(f, n % 16) }

  lemma {:induction false} StepsCompose(f: Regs, ins: seq<Input>, more: seq<Input>)
    requires f.Valid()
    ensures Steps(f, ins + more) == Steps(Steps(f, ins), more)
  {
    hide Next;
    if |more| == 0 {
      assert ins + more == ins;
    } else {
      var n := |more| - 1;
      assert (ins + more)[..|ins| + n] == ins + more[..n];
      StepsCompose(f, ins, more[..n]);
    }
  }

  lemma HoldOneMore(i: Input, n: nat)
    ensures Hold(i, n + 1) == Hold(i, n) + [i]
  {
  }

  lemma ReadStaysQuiet(f: Regs, i: Input)
    requires f.Valid() && ReadQuiet(f) && i.resetN && !i.arvalid && R.ReadInv(f.r)
    requires WriteEnable(f, i) ==> DataWindow(f.w.cur.addr)
    ensures ReadQuiet(Next(f, i))
  {
    hide WriteNext, DataOutNext, Core.Next, CoreInput, HashBusy, WriteEnable, AraddrNext;
    StatusStaysClear(f, i);
  }

  /** The slave sees the address and gets ready for it. */
  lemma AddressOffered(ins: seq<Input>)
    requires Closed(Run(ins))
    ensures AtBeat(Run(ins + [OpenWrite()]), 0) && DataBeats(ins + [OpenWrite()]) == DataBeats(ins)
    ensures Run(ins + [OpenWrite()]).w.awready
  {
    hide Next, Run, DataBeats, AcceptsWrite, DataWindow, R.ReadInv;
    var f, i := Run(ins), OpenWrite();
    WriteInvAlways(ins);
    R.ReadInvAlways(ins);
    NoBeatWithoutValid(f, i);
    AppendDataBeat(ins, i);
    assert AcceptsWrite(f, i) by {
      hide *;
      TakesOver(f);
    }
    BurstOpens(f, i);
    ReadyRises(f, i);
    ReadStaysQuiet(f, i);
  }

  /** The handshake; the burst goes on waiting for its first beat. */
  lemma AddressTaken(ins: seq<Input>)
    requires AtBeat(Run(ins), 0)
    ensures AtBeat(Run(ins + [OpenWrite()]), 0) && DataBeats(ins + [OpenWrite()]) == DataBeats(ins)
  {
    hide Next, Run, DataBeats, WriteEnable, DataWindow, R.ReadInv;
    var f, i := Run(ins), OpenWrite();
    WriteInvAlways(ins);
    R.ReadInvAlways(ins);
    NoBeatWithoutValid(f, i);
    AppendDataBeat(ins, i);
    BurstStep(f, i, BlockBurst(), 0);
    ReadStaysQuiet(f, i);
  }

  lemma OpenedForWriting(ins: seq<Input>)
    requires Closed(Run(ins)) && HoldsValids(ins) && AllTaken(ins)
    ensures var sent := ins + [OpenWrite()] + [OpenWrite()];
            AtBeat(Run(sent), 0) && DataBeats(sent) == DataBeats(ins) && HoldsValids(sent) && AllTaken(sent)
  {
    hide Run, DataBeats, HoldsValids, AtBeat, Closed, WReady;
    AddressOffered(ins);
    HoldsOn(ins, OpenWrite());
    var offered := ins + [OpenWrite()];
    AddressTaken(offered);
    HoldsOn(offered, OpenWrite());
  }

  lemma ReadyRises(f: Regs, i: Input)
    requires f.Valid() && AcceptsWrite(f, i)
    ensures Next(f, i).w.awready
  {
    hide ReadNext, StatusNext, DataOutNext, Core.Next, CoreInput, HashBusy, DataWindow, Advance;
  }

  lemma TakesOver(f: Regs)
    requires Closed(f)
    ensures AcceptsWrite(f, OpenWrite())
  {
  }

  lemma NoBeatWithoutValid(f: Regs, i: Input)
    requires !i.wvalid
    ensures !WriteEnable(f, i)
  {
  }

  lemma BeatAddressInWindow(f: Regs, k: nat)
    requires AtBeat(f, k) && k <= 15
    ensures DataWindow(f.w.cur.addr)
  {
    hide BeatAddr, DataWindow;
    AddressOf(f, BlockBurst(), k);
    BlockStaysInWindow(BlockBurst(), k);
  }

  lemma ReadyFalls(f: Regs, i: Input)
    requires f.Valid() && i.resetN && f.w.awFlag && (i.wlast ==> i.wvalid)
    ensures !Next(f, i).w.awready || (f.w.awready && i.wlast && WriteEnable(f, i))
  {
    hide ReadNext, StatusNext, DataOutNext, Core.Next, CoreInput, HashBusy, DataWindow, Advance;
  }

  /** One cycle of beat k: it waits, or it is accepted and the next one is awaited. */
  lemma BeatCycle(ins: seq<Input>, w: Word, k: nat)
    requires k <= 15 && AtBeat(Run(ins), k)
    ensures var i := WriteBeat(w, k == 15);
            var f, f' := Run(ins), Run(ins + [i]);
            && DataBeats(ins + [i]) == (if WriteEnable(f, i) then DataBeats(ins) + [w] else DataBeats(ins))
            && (!WriteEnable(f, i) ==> AtBeat(f', k))
            && (WriteEnable(f, i) ==> if k == 15 then Closed(f') else AtBeat(f', k + 1))
  {
    hide Next, Run, DataBeats, DataWindow, WriteEnable, R.ReadInv;
    var f, i := Run(ins), WriteBeat(w, k == 15);
    WriteInvAlways(ins);
    R.ReadInvAlways(ins);
    BeatAddressInWindow(f, k);
    AppendDataBeat(ins, i);
    BurstStep(f, i, BlockBurst(), k);
    ReadStaysQuiet(f, i);
    ReadyFalls(f, i);
  }

  lemma RunOn(ins: seq<Input>, more: seq<Input>)
    ensures Run(ins + more) == Steps(Run(ins), more)
  {
    hide Steps;
    StepsCompose(ResetRegs(), ins, more);
  }

  lemma {:induction false} BeatHeld(ins: seq<Input>, w: Word, k: nat, m: nat)
    requires k <= 15 && AtBeat(Run(ins), k)
    requires m <= Delay(Run(ins), WriteBeat(w, k == 15), 0) && GoesOnWith(ins, WriteBeat(w, k == 15))
    ensures var held := ins + Hold(WriteBeat(w, k == 15), m);
            && AtBeat(Run(held), k) && DataBeats(held) == DataBeats(ins) && GoesOnWith(held, WriteBeat(w, k == 15))
  {
    hide Run, Steps, DataBeats, WriteEnable, AtBeat, Delay, Hold, GoesOnWith, AllTaken;
    var i := WriteBeat(w, k == 15);
    if m == 0 {
      NothingHeld(ins, i);
    } else {
      BeatHeld(ins, w, k, m - 1);
      DelayIsFirst(Run(ins), i, 0);
      assert !Taken(Run(ins), i, m - 1);
      HoldOneMore(i, m - 1);
      assert ins + Hold(i, m) == ins + Hold(i, m - 1) + [i];
      RunOn(ins, Hold(i, m - 1));
      BeatCycle(ins + Hold(i, m - 1), w, k);
      HoldsOn(ins + Hold(i, m - 1), i);
    }
  }

  lemma NothingHeld(ins: seq<Input>, i: Input)
    ensures ins + Hold(i, 0) == ins
  {
  }

  lemma {:induction false} NoneAccepted(f: Regs, i: Input, n: nat)
    requires f.Valid() && forall m :: 0 <= m < n ==> !Taken(f, i, m)
    ensures Accepted(f, Hold(i, n)) == []
  {
    hide Next, WriteEnable;
    if n > 0 {
      NoneAccepted(f, i, n - 1);
      HoldOneMore(i, n - 1);
      assert Hold(i, n)[..n - 1] == Hold(i, n - 1);
      assert !Taken(f, i, n - 1);
    }
  }

  /** The wait ends: the beat is accepted in the cycle that Delay names. */
  lemma DelayEnds(ins: seq<Input>, i: Input)
    requires Run(ins).w.awFlag && i.resetN && i.wvalid
    ensures Taken(Run(ins), i, Delay(Run(ins), i, 0))
  {
    hide Run, Taken, Accepted;
    var f := Run(ins);
    DelayIsFirst(f, i, 0);
    if !Taken(f, i, Delay(f, i, 0)) {
      NoneAccepted(f, i, 52);
      BeatWaitsAtMost52Cycles(ins, Hold(i, 52));
    }
  }

  lemma BeatSent(ins: seq<Input>, w: Word, k: nat)
    requires k <= 15 && AtBeat(Run(ins), k) && HoldsValids(ins) && AllTaken(ins)
    ensures var sent := BeatUntilTaken(ins, w, k);
            && DataBeats(sent) == DataBeats(ins) + [w] && HoldsValids(sent) && AllTaken(sent)
            && if k == 15 then Closed(Run(sent)) else AtBeat(Run(sent), k + 1)
  {
    hide Run, Steps, DataBeats, Closed, Delay, AtBeat, Hold, HoldsValids, AllTaken, WReady;
    var i := WriteBeat(w, k == 15);
    var d := Delay(Run(ins), i, 0);
    OpenBurst(Run(ins), k);
    DelayEnds(ins, i);
    BeatHeld(ins, w, k, d);
    HoldOneMore(i, d);
    assert ins + Hold(i, d + 1) == ins + Hold(i, d) + [i];
    RunOn(ins, Hold(i, d));
    BeatCycle(ins + Hold(i, d), w, k);
    HoldsOn(ins + Hold(i, d), i);
  }

  lemma OpenBurst(f: Regs, k: nat)
    requires AtBeat(f, k)
    ensures f.w.awFlag
  {
  }

  /** Whatever the words, the core absorbs them all in order, and the master holds every offer until it is taken. */
  lemma {:induction false} DriveDelivers(words: seq<Word>)
    ensures DataBeats(Drive(words)) == words && AfterWords(Run(Drive(words)), |words|)
    ensures HoldsValids(Drive(words)) && AllTaken(Drive(words))
    ensures |Drive(words)| <= 54 * |words|
  {
    hide Run, DataBeats, Closed, AtBeat, BeatUntilTaken, OpenWrite, HoldsValids, AllTaken;
    if |words| == 0 {
      NothingDriven();
    } else {
      var n := |words| - 1;
      DriveDelivers(words[..n]);
      NextResidue(n);
      if n % 16 == 0 {
        OpenedForWriting(Drive(words[..n]));
      }
      BeatSent(Opened(Drive(words[..n]), n), words[n], n % 16);
      assert words == words[..n] + [words[n]];
    }
  }

  lemma NextResidue(n: nat)
    ensures (n + 1) % 16 == if n % 16 == 15 then 0 else n % 16 + 1
  {
  }

  lemma NothingDriven()
    ensures DataBeats(Drive([])) == [] && Closed(Run(Drive([]))) && HoldsValids(Drive([])) && AllTaken(Drive([]))
  {
  }

  // ---- Waiting for the core ----

  lemma WaitCycle(ins: seq<Input>)
    requires Closed(Run(ins)) && CoreRefinement.Bands(Run(ins).core)
    ensures var f, f' := Run(ins), Run(ins + [Wait()]);
            && Closed(f') && CoreRefinement.Bands(f'.core) && DataBeats(ins + [Wait()]) == DataBeats(ins)
            && Remaining(f'.core) <= if Remaining(f.core) == 0 then 0 else Remaining(f.core) - 1
  {
    hide Next, Run, DataBeats, DataWindow, WriteEnable, R.ReadInv, Remaining, CoreRefinement.Bands;
    var f := Run(ins);
    R.ReadInvAlways(ins);
    NoBeatWithoutValid(f, Wait());
    AppendDataBeat(ins, Wait());
    ReadStaysQuiet(f, Wait());
    StaysClosed(f, Wait());
    CoreNext(f, Wait());
    NoValidWithoutBeat(f, Wait());
    RemainingCounts(f.core, CoreInput(f, Wait()));
  }

  lemma StaysClosed(f: Regs, i: Input)
    requires f.Valid() && i.resetN && !f.w.awFlag && !f.w.awready && !i.awvalid
    ensures !Next(f, i).w.awFlag && !Next(f, i).w.awready
  {
    hide ReadNext, StatusNext, DataOutNext, Core.Next, CoreInput, HashBusy, DataWindow, Advance;
  }

  lemma CoreNext(f: Regs, i: Input)
    requires f.Valid()
    ensures Next(f, i).core == Core.Next(f.core, CoreInput(f, i))
  {
    hide WriteNext, ReadNext, StatusNext, DataOutNext, Core.Next, CoreInput;
  }

  lemma NoValidWithoutBeat(f: Regs, i: Input)
    requires !i.wvalid
    ensures !CoreInput(f, i).valid && CoreInput(f, i).rstN == (i.resetN && !f.status[0])
  {
  }

  lemma {:induction false} WaitCycles(ins: seq<Input>, n: nat)
    requires Closed(Run(ins)) && CoreRefinement.Bands(Run(ins).core) && HoldsValids(ins) && AllTaken(ins)
    ensures var f, held := Run(ins), ins + Hold(Wait(), n);
            && Closed(Run(held)) && CoreRefinement.Bands(Run(held).core) && DataBeats(held) == DataBeats(ins)
            && HoldsValids(held) && AllTaken(held)
            && Remaining(Run(held).core) <= if Remaining(f.core) <= n then 0 else Remaining(f.core) - n
  {
    hide Run, DataBeats, Closed, Remaining, CoreRefinement.Bands, HoldsValids, AllTaken, WReady;
    if n == 0 {
      assert ins + Hold(Wait(), 0) == ins;
    } else {
      WaitCycles(ins, n - 1);
      HoldOneMore(Wait(), n - 1);
      assert ins + Hold(Wait(), n) == ins + Hold(Wait(), n - 1) + [Wait()];
      WaitCycle(ins + Hold(Wait(), n - 1));
      HoldsOn(ins + Hold(Wait(), n - 1), Wait());
    }
  }

  /** With whole blocks taken and nothing left to do, the core is idle. */
  lemma IdleAtTheEnd(r: Core.Regs, words: seq<Word>)
    requires CoreRefinement.Refines(r, words) && |words| % 16 == 0 && Remaining(r) == 0
    ensures r.state == Core.IDLE
  {
    hide HashBlocks, ChunkProcess.SigmasCurrent, ChunkProcess.HoldsSchedule, CoreRefinement.Loaded,
      CoreRefinement.RoundStaged;
  }

  lemma SettlesAfterDrive(words: seq<Word>)
    requires |words| % 16 == 0
    ensures var sent := Drive(words) + Hold(Wait(), 50);
            && Closed(Run(sent)) && Run(sent).core.state == Core.IDLE && DataBeats(sent) == words
            && HoldsValids(sent) && AllTaken(sent)
  {
    hide HoldsValids, AllTaken, Run, DataBeats, Closed, Remaining, CoreRefinement.Bands, CoreRefinement.Refines, Drive,
      Hold, Core.Run,
      Core.Absorbed;
    var pre := Drive(words);
    var sent := pre + Hold(Wait(), 50);
    DriveDelivers(words);
    CoreAbsorbsDataBeats(pre);
    ReachableBands(CorePins(pre));
    RemainingCounts(Run(pre).core, Core.Input(true, false, Zero()));
    WaitCycles(pre, 50);
    CoreAbsorbsDataBeats(sent);
    CoreRefinement.CoreRefinesFips(CorePins(sent));
    IdleAtTheEnd(Run(sent).core, SwapAll(words));
  }

  // ---- Reading ----

  /** Nothing is written, and the core holds this hash value. */
  predicate Holding(f: Regs, h: Vars) {
    !f.w.awFlag && !f.w.awready && !f.status[0] && f.core.state == Core.IDLE && f.core.comp.h8 == h
  }

  lemma IdleCoreRests(r: Core.Regs, i: Core.Input)
    requires r.Valid() && r.state == Core.IDLE && i.rstN && !i.valid
    ensures Core.Next(r, i).state == Core.IDLE && Core.Next(r, i).comp.h8 == r.comp.h8
  {
    hide ChunkProcess.Next, ChunkCompress.Next, SwapBytes, Core.WordIn, RoundConstants.Rom, WordOf;
    ChunkCompress.EdgeUpdatesHash(r.comp, false, false, false, Core.WordIn(r, i),
                                  WordOf(RoundConstants.Rom(r.counter % 0x40)));
  }

  lemma HoldingStep(f: Regs, i: Input, h: Vars)
    requires f.Valid() && Holding(f, h) && i.resetN && !i.awvalid && !i.wvalid
    ensures Holding(Next(f, i), h)
  {
    hide Next, CoreInput, Core.Next, WriteEnable;
    NoBeatWithoutValid(f, i);
    StatusStaysClear(f, i);
    StaysClosed(f, i);
    CoreNext(f, i);
    NoValidWithoutBeat(f, i);
    IdleCoreRests(f.core, CoreInput(f, i));
  }

  /** The master takes every read beat at once and writes nothing. */
  predicate Reading(ins: seq<Input>) {
    forall k :: 0 <= k < |ins| ==> ins[k].resetN && ins[k].rready && !ins[k].awvalid && !ins[k].wvalid
  }

  lemma {:induction false} HoldingOn(f: Regs, h: Vars, ins: seq<Input>)
    requires f.Valid() && Holding(f, h) && Reading(ins)
    ensures Holding(Steps(f, ins), h)
  {
    hide Next, Holding;
    if |ins| > 0 {
      var n := |ins| - 1;
      HoldingOn(f, h, ins[..n]);
      HoldingStep(Steps(f, ins[..n]), ins[n], h);
    }
  }

  function HashBurst(): Cursor { Start(Octet(0x20), INCR, Octet(7)) }

  /** The read burst is open before its first beat. */
  predicate ReadOpen(f: Regs) { R.ReadInv(f.r) && R.BurstAt(f.r, HashBurst(), 0) && !f.r.rvalid }

  lemma HashOutOf(g: Regs, i: Input, h: Vars, r: Core.Regs)
    requires Holding(g, h) && i.resetN && r.comp.h8 == h
    ensures Core.HashOut(Core.Visible(g.core, CoreResetN(g, i))) == Core.HashOut(r)
  {
    hide SwapAll;
  }

  /** The beat that is on the bus after an odd number of cycles. */
  lemma BeatRead(f: Regs, r: Core.Regs, ins: seq<Input>)
    requires f.Valid() && ReadOpen(f) && Holding(f, r.comp.h8) && Reading(ins) && |ins| < 16 && |ins| % 2 == 1
    ensures var g, k := Steps(f, ins), |ins| / 2;
            g.r.rvalid && R.RData(g) == Core.HashOut(r)[k] && (g.r.rlast <==> k == 7)
  {
    hide Next, Steps, Holding, R.ReadInv, R.BurstAt, R.RData, R.Delivered, Core.HashOut, BeatAddr;
    var n := |ins| - 1;
    R.BeatEveryOtherCycle(f, ins, HashBurst());
    R.HashBurst(f, ins, HashBurst());
    R.BeatOnBus(f, ins, HashBurst());
    HoldingOn(f, r.comp.h8, ins[..n]);
    HashOutOf(Steps(f, ins[..n]), ins[n], r.comp.h8, r);
  }

  lemma {:induction false} HashIsRead(f: Regs, r: Core.Regs, ins: seq<Input>)
    requires f.Valid() && ReadOpen(f) && Holding(f, r.comp.h8) && Reading(ins) && |ins| <= 16
    ensures var beats := R.Delivered(f, ins);
            |beats| == |ins| / 2 && forall k :: 0 <= k < |beats| ==> beats[k] == R.Beat(Core.HashOut(r)[k], k == 7)
  {
    hide Next, ReadOpen, Holding, Core.HashOut, R.RData, Steps;
    if |ins| > 0 {
      var n := |ins| - 1;
      HashIsRead(f, r, ins[..n]);
      if n % 2 == 1 {
        BeatRead(f, r, ins[..n]);
      } else {
        NoBeatYet(f, ins[..n]);
      }
    }
  }

  lemma NoBeatYet(f: Regs, ins: seq<Input>)
    requires f.Valid() && ReadOpen(f) && Reading(ins) && |ins| <= 16 && |ins| % 2 == 0
    ensures !Steps(f, ins).r.rvalid
  {
    hide Next, Steps, R.ReadInv, R.BurstAt, R.Delivered;
    R.BeatEveryOtherCycle(f, ins, HashBurst());
  }

  lemma OpenedForReading(f: Regs, h: Vars)
    requires f.Valid() && R.ReadInv(f.r) && Closed(f) && Holding(f, h)
    ensures ReadOpen(Next(f, OpenRead())) && Holding(Next(f, OpenRead()), h) && Next(f, OpenRead()).r.arready
  {
    hide Next, R.ReadInv, R.BurstAt;
    R.BurstOpens(f, OpenRead());
    ReadReadyRises(f, OpenRead());
    R.ReadInvStep(f, OpenRead());
    HoldingStep(f, OpenRead(), h);
  }

  /** The 32 bytes of eight read beats on a little-endian machine. */
  function BytesRead(beats: seq<R.Beat>): seq<Byte>
    requires |beats| == 8
  {
    LittleEndianBytes(beats[0].dat) + LittleEndianBytes(beats[1].dat) + LittleEndianBytes(beats[2].dat)
    + LittleEndianBytes(beats[3].dat) + LittleEndianBytes(beats[4].dat) + LittleEndianBytes(beats[5].dat)
    + LittleEndianBytes(beats[6].dat) + LittleEndianBytes(beats[7].dat)
  }

  lemma BytesReadAre(beats: seq<R.Beat>, r: Core.Regs)
    requires |beats| == 8 && forall k :: 0 <= k < 8 ==> beats[k].dat == Core.HashOut(r)[k]
    ensures BytesRead(beats) == EndToEnd.ReadHash(r)
  {
    hide LittleEndianBytes, Core.HashOut;
  }

  /** Everything the master does from bus reset until it asks for the hash. */
  function WriteMessage(message: seq<Byte>): seq<Input> {
    Drive(EndToEnd.BusWords(MakeChunk.Chunked(message))) + Hold(Wait(), 50)
  }

  /** The read address is offered until it is taken; then the beats are taken as they come. */
  function TakeDigest(): (ins: seq<Input>)
    ensures |ins| == 16 && Reading(ins)
  {
    [OpenRead()] + Hold(TakeRead(), 15)
  }

  /** The beats of the read burst at 0x20 that follows. */
  function ReadDigest(ins: seq<Input>): seq<R.Beat> { R.Delivered(Run(ins + [OpenRead()]), TakeDigest()) }

  lemma ReadReadyRises(f: Regs, i: Input)
    requires f.Valid() && i.resetN && !f.r.arready && i.arvalid && !f.w.awFlag && !f.r.arFlag
    ensures Next(f, i).r.arready
  {
    hide WriteNext, StatusNext, DataOutNext, Core.Next, CoreInput, HashBusy, AraddrNext;
  }

  /** Cycles without an offer. */
  lemma {:induction false} NothingOffered(ins: seq<Input>, i: Input, n: nat)
    requires HoldsValids(ins) && AllTaken(ins) && !i.awvalid && !i.wvalid && !i.arvalid
    ensures HoldsValids(ins + Hold(i, n)) && AllTaken(ins + Hold(i, n))
  {
    hide Run, HoldsValids, AllTaken, WReady;
    if n == 0 {
      NothingHeld(ins, i);
    } else {
      NothingOffered(ins, i, n - 1);
      HoldOneMore(i, n - 1);
      assert ins + Hold(i, n) == ins + Hold(i, n - 1) + [i];
      HoldsOn(ins + Hold(i, n - 1), i);
    }
  }

  lemma ReadingHoldsValids(ins: seq<Input>)
    requires HoldsValids(ins) && AllTaken(ins) && Run(ins + [OpenRead()]).r.arready
    ensures HoldsValids(ins + [OpenRead()] + TakeDigest()) && AllTaken(ins + [OpenRead()] + TakeDigest())
  {
    hide Run, HoldsValids, AllTaken, WReady;
    HoldsOn(ins, OpenRead());
    var offered := ins + [OpenRead()];
    HoldsOn(offered, OpenRead());
    NothingOffered(offered + [OpenRead()], TakeRead(), 15);
    assert offered + TakeDigest() == offered + [OpenRead()] + Hold(TakeRead(), 15);
  }

  /**
   * The master of this module gets the SHA-256 digest of the message in eight beats, the last of them marked, and
   * holds each of its offers until it is taken.
   */
  lemma BurstDriverReadsDigest(message: seq<Byte>)
    requires 8 * |message| < Pow2(64) && MakeChunk.Conforms(message)
    ensures var beats := ReadDigest(WriteMessage(message));
            && |beats| == 8 && BytesRead(beats) == Fips180.Sha256(message)
            && forall k :: 0 <= k < 8 ==> (beats[k].last <==> k == 7)
    ensures var all := WriteMessage(message) + [OpenRead()] + TakeDigest();
            HoldsValids(all) && AllTaken(all)
  {
    hide Run, Next, DataBeats, EndToEnd.BusWords, MakeChunk.Chunked, Drive, Hold, Closed, ReadOpen, R.ReadInv,
      R.Delivered, Fips180.Sha256, EndToEnd.ReadHash, Core.HashOut, BytesRead, Pow2, HoldsValids, AllTaken;
    var words := EndToEnd.BusWords(MakeChunk.Chunked(message));
    var sent := WriteMessage(message);
    MakeChunk.WholeBlocks(message);
    SettlesAfterDrive(words);
    var f := Run(sent);
    DigestOverBursts(sent, message);
    R.ReadInvAlways(sent);
    HoldsHash(f);
    OpenedForReading(f, f.core.comp.h8);
    OneCycleMore(sent, OpenRead());
    HashIsRead(Run(sent + [OpenRead()]), f.core, TakeDigest());
    BytesReadAre(ReadDigest(sent), f.core);
    ReadingHoldsValids(sent);
  }

  lemma OneCycleMore(ins: seq<Input>, i: Input)
    ensures Run(ins + [i]) == Next(Run(ins), i)
  {
    hide Next;
    assert (ins + [i])[..|ins|] == ins;
  }

  lemma HoldsHash(f: Regs)
    requires Closed(f) && f.core.state == Core.IDLE
    ensures Holding(f, f.core.comp.h8)
  {
  }
}
