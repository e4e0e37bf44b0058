/** The burst slave never holds a write beat back for long. */
module AxiFullProgress {
  import opened Words
  import opened RoundConstants
  import opened AxiBurst
  import opened RegisterMap
  import opened AxiFull
  import opened AxiFullWrite
  import opened AxiFullBursts
  import Core = Sha256Core
  import CoreRefinement
  import ChunkProcess
  import ChunkCompress

  /** The busy cycles that a core still has before it, if no word arrives. */
  function Remaining(r: Core.Regs): nat {
    match r.state
    case IDLE => 0
    case LOAD => if r.counter == 16 then 50 else 0
    case PROC => if r.counter <= 64 then 66 - r.counter else 0
    case FINISH => 1
  }

  lemma RemainingCounts(r: Core.Regs, i: Core.Input)
    requires r.Valid() && CoreRefinement.Bands(r) && !i.valid
    ensures CoreRefinement.Bands(Core.Next(r, i)) && Remaining(r) <= 50
    ensures Remaining(Core.Next(r, i)) <= if Remaining(r) == 0 then 0 else Remaining(r) - 1
    ensures Remaining(r) == 0 ==> !Core.Busy(r, i)
  {
    hide ChunkProcess.Next, ChunkCompress.Next, SwapBytes, Core.WordIn, Rom, WordOf;
  }

  /** The master offers a write beat in every cycle. */
  predicate Offers(ins: seq<Input>) { forall k :: 0 <= k < |ins| ==> ins[k].resetN && ins[k].wvalid }

  /** A cycle in which the beat waits brings the core closer to the end of its work, and keeps the burst open. */
  lemma WaitingCycle(f: Regs, i: Input)
    requires f.Valid() && CoreRefinement.Bands(f.core) && f.w.awFlag && i.resetN && i.wvalid && !WriteEnable(f, i)
    ensures Next(f, i).w.awFlag && CoreRefinement.Bands(Next(f, i).core)
    ensures Remaining(Next(f, i).core) <= if Remaining(f.core) == 0 then 0 else Remaining(f.core) - 1
    ensures Remaining(f.core) == 0 ==> Next(f, i).w.wready
  {
    hide ReadNext, StatusNext, DataOutNext, Core.Next, Advance, DataWindow, Core.Busy, CoreResetN, Remaining,
      CoreRefinement.Bands;
    RemainingCounts(f.core, CoreInput(f, i));
    Core.BusyIgnoresData(f.core, CoreResetN(f, i), false, false, i.wdata, CoreInput(f, i).dat);
  }

  /** An idle core does not hold back a beat whose channel is ready. */
  lemma ReadyBeatIsTaken(f: Regs, i: Input)
    requires f.Valid() && CoreRefinement.Bands(f.core) && Remaining(f.core) == 0 && f.w.wready && i.wvalid
    ensures WriteEnable(f, i)
  {
    RemainingCounts(f.core, Core.Input(CoreResetN(f, i), false, i.wdata));
  }

  lemma {:induction false} StillWaiting(f: Regs, ins: seq<Input>)
    requires f.Valid() && CoreRefinement.Bands(f.core) && f.w.awFlag && Offers(ins) && Accepted(f, ins) == []
    ensures var g := Steps(f, ins);
            && g.w.awFlag && CoreRefinement.Bands(g.core)
            && Remaining(g.core) <= (if Remaining(f.core) <= |ins| then 0 else Remaining(f.core) - |ins|)
            && (Remaining(f.core) < |ins| ==> g.w.wready)
  {
    hide Next, WriteEnable, Remaining, CoreRefinement.Bands;
    if |ins| > 0 {
      var n := |ins| - 1;
      assert Accepted(f, ins[..n]) == [];
      StillWaiting(f, ins[..n]);
      WaitingCycle(Steps(f, ins[..n]), ins[n]);
    }
  }

  /** An offered beat of an open burst is accepted within two cycles after the core has finished its work. */
  lemma BackPressureEnds(f: Regs, ins: seq<Input>)
    requires f.Valid() && CoreRefinement.Bands(f.core) && f.w.awFlag && Offers(ins)
    requires |ins| == Remaining(f.core) + 2
    ensures Accepted(f, ins) != []
  {
    hide Next, WriteEnable, Remaining, CoreRefinement.Bands;
    var n := |ins| - 1;
    if Accepted(f, ins[..n]) == [] {
      StillWaiting(f, ins[..n]);
      ReadyBeatIsTaken(Steps(f, ins[..n]), ins[n]);
    }
  }

  /** In every reachable state with an open burst, a beat that is offered for 52 cycles is accepted. */
  lemma BeatWaitsAtMost52Cycles(pre: seq<Input>, ins: seq<Input>)
    requires Run(pre).w.awFlag && Offers(ins) && |ins| == 52
    ensures Accepted(Run(pre), ins) != []
  {
    hide Run, Remaining, Accepted, CoreRefinement.Bands, Core.Run, Core.Absorbed;
    CoreAbsorbsDataBeats(pre);
    ReachableBands(CorePins(pre));
    var f := Run(pre);
    RemainingCounts(f.core, Core.Input(true, false, Zero()));
    var n := Remaining(f.core) + 2;
    BackPressureEnds(f, ins[..n]);
    AcceptedGrows(f, ins, n);
  }

  lemma ReachableBands(pins: seq<Core.Input>)
    ensures CoreRefinement.Bands(Core.Run(pins))
  {
    hide Core.Run, Core.Absorbed, CoreRefinement.Bands, ChunkProcess.SigmasCurrent, ChunkProcess.HoldsSchedule;
    CoreRefinement.CoreRefinesFips(pins);
  }

  lemma {:induction false} AcceptedGrows(f: Regs, ins: seq<Input>, n: nat)
    requires f.Valid() && n <= |ins|
    ensures |Accepted(f, ins[..n])| <= |Accepted(f, ins)|
  {
    hide Next, WriteEnable;
    if n < |ins| {
      AcceptedGrows(f, ins[..|ins| - 1], n);
      assert ins[..|ins| - 1][..n] == ins[..n];
    } else {
      assert ins[..n] == ins;
    }
  }
}
