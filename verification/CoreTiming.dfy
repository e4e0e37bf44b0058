/** How long the core is busy, and when it raises its interrupt. */
module CoreTiming {
  import opened Words
  import opened RoundConstants
  import opened Sha256Core
  import opened CoreRefinement
  import ChunkProcess
  import ChunkCompress
  import Fips180

  predicate NoReset(ins: seq<Input>) { forall k :: 0 <= k < |ins| ==> ins[k].rstN }

  /** A full block has been loaded: the core turns busy in this cycle. */
  predicate BlockLoaded(r: Regs) { r.state == LOAD && r.counter == 16 }

  /** Where the controller is, k cycles after a block was loaded. */
  ghost predicate CyclesAfterLoad(r: Regs, k: nat) {
    if k == 0 then BlockLoaded(r) && !r.irq
    else if k <= 48 then r.state == PROC && r.counter == 16 + k && !r.irq
    else if k == 49 then r.state == FINISH && !r.irq
    else k == 50 && r.state == IDLE && r.counter == 0 && r.irq
  }

  lemma {:induction false} ControllerAfterLoad(r: Regs, ins: seq<Input>)
    requires r.Valid() && CyclesAfterLoad(r, 0) && NoReset(ins) && |ins| <= 50
    ensures CyclesAfterLoad(Steps(r, ins), |ins|)
  {
    hide ChunkProcess.Next, ChunkCompress.Next, SwapBytes, WordIn, Rom, WordOf;
    if |ins| > 0 {
      ControllerAfterLoad(r, ins[..|ins| - 1]);
    }
  }

  /** Outside reset, the core is busy exactly from a loaded block to the end of its fold. */
  lemma BusyStates(r: Regs, i: Input)
    requires i.rstN
    ensures Busy(r, i) <==> BlockLoaded(r) || r.state == PROC || r.state == FINISH
  {
  }

  /** Without a reset, busy can only begin with a loaded block; the interrupt is then low. */
  lemma BusyBeginsLoaded(r: Regs, i: Input, i': Input)
    requires r.Valid() && Bands(r) && i.rstN && i'.rstN
    requires !Busy(r, i) && Busy(Next(r, i), i')
    ensures CyclesAfterLoad(Next(r, i), 0)
  {
    hide ChunkProcess.Next, ChunkCompress.Next, SwapBytes, WordIn, Rom, WordOf;
  }

  lemma {:induction false} StepsCompose(r: Regs, ins: seq<Input>, more: seq<Input>)
    requires r.Valid()
    ensures Steps(r, ins + more) == Steps(Steps(r, ins), more)
  {
    hide Next;
    if |more| == 0 {
      assert ins + more == ins;
    } else {
      var n := |more| - 1;
      assert (ins + more)[..|ins| + n] == ins + more[..n];
      StepsCompose(r, ins, more[..n]);
    }
  }

  /**
   * Every busy run without a reset lasts exactly 50 cycles, whatever is on the data pins, and the
   * interrupt rises once, in the cycle after the last of them.
   */
  lemma BusyRunsLastFiftyCycles(ins: seq<Input>, s: nat)
    requires 1 <= s && s + 50 < |ins| && NoReset(ins[s - 1..])
    requires !Busy(Run(ins[..s - 1]), ins[s - 1]) && Busy(Run(ins[..s]), ins[s])
    ensures forall k :: s <= k < s + 50 ==> Busy(Run(ins[..k]), ins[k]) && !Run(ins[..k]).irq
    ensures !Busy(Run(ins[..s + 50]), ins[s + 50]) && Run(ins[..s + 50]).irq
  {
    hide Next, Absorbed, Steps, Refines, Busy, SwapAll;
    LoadedWhenBusyBegins(ins, s);
    forall k | s <= k <= s + 50
      ensures CyclesAfterLoad(Run(ins[..k]), k - s) && (Busy(Run(ins[..k]), ins[k]) <==> k < s + 50)
    {
      CycleOfBusyRun(ins, s, k);
    }
  }

  lemma LoadedWhenBusyBegins(ins: seq<Input>, s: nat)
    requires 1 <= s < |ins| && NoReset(ins[s - 1..])
    requires !Busy(Run(ins[..s - 1]), ins[s - 1]) && Busy(Run(ins[..s]), ins[s])
    ensures CyclesAfterLoad(Run(ins[..s]), 0)
  {
    hide Next, Absorbed, Busy, SwapAll, Fips180.HashBlocks, Loaded, RoundStaged, CyclesAfterLoad;
    assert ins[s - 1] == ins[s - 1..][0] && ins[s] == ins[s - 1..][1];
    CoreRefinesFips(ins[..s - 1]);
    assert ins[..s] == ins[..s - 1] + [ins[s - 1]];
    StepsAppend(ResetRegs(), ins[..s - 1], ins[s - 1]);
    BusyBeginsLoaded(Run(ins[..s - 1]), ins[s - 1], ins[s]);
  }

  lemma CycleOfBusyRun(ins: seq<Input>, s: nat, k: nat)
    requires 1 <= s <= k <= s + 50 < |ins| && NoReset(ins[s - 1..])
    requires CyclesAfterLoad(Run(ins[..s]), 0)
    ensures CyclesAfterLoad(Run(ins[..k]), k - s) && (Busy(Run(ins[..k]), ins[k]) <==> k < s + 50)
  {
    hide Next, Steps, Busy;
    assert ins[..k] == ins[..s] + ins[s..k];
    assert forall j :: s <= j < |ins| ==> ins[j] == ins[s - 1..][j - (s - 1)];
    StepsCompose(ResetRegs(), ins[..s], ins[s..k]);
    ControllerAfterLoad(Run(ins[..s]), ins[s..k]);
    BusyStates(Run(ins[..k]), ins[k]);
  }

  lemma StepsAppend(r: Regs, ins: seq<Input>, i: Input)
    requires r.Valid()
    ensures Steps(r, ins + [i]) == Next(Steps(r, ins), i)
  {
    assert (ins + [i])[..|ins|] == ins;
  }

  /** The interrupt pulses since the last reset. */
  function Pulses(ins: seq<Input>): nat {
    if |ins| == 0 || !ins[|ins| - 1].rstN then 0
    else Pulses(ins[..|ins| - 1]) + if Run(ins).irq then 1 else 0
  }

  /** One pulse for each block folded into the hash value; in FINISH the newest one is still to come. */
  lemma {:induction false} OnePulsePerBlock(ins: seq<Input>)
    ensures Pulses(ins) + (if Run(ins).state == FINISH then 1 else 0) == Folded(Run(ins), SwapAll(Absorbed(ins)))
  {
    hide Next, SwapAll, SwapBytes, Refines;
    if |ins| > 0 && ins[|ins| - 1].rstN {
      var before := ins[..|ins| - 1];
      OnePulsePerBlock(before);
      CoreRefinesFips(before);
      assert ins == before + [ins[|ins| - 1]];
      StepsAppend(ResetRegs(), before, ins[|ins| - 1]);
      PulseStep(Run(before), SwapAll(Absorbed(before)), ins[|ins| - 1]);
      SwapAllAppend(Absorbed(before), ins[|ins| - 1].dat);
    } else {
      AfterReset(ins);
    }
  }

  lemma AfterReset(ins: seq<Input>)
    requires |ins| == 0 || !ins[|ins| - 1].rstN
    ensures Run(ins) == ResetRegs() && Absorbed(ins) == []
  {
  }

  lemma PulseStep(r: Regs, words: seq<Word>, i: Input)
    requires Refines(r, words) && i.rstN
    ensures var r' := Next(r, i);
            var words' := if Takes(r, i) then words + [SwapBytes(i.dat)] else words;
            Folded(r', words') - (if r'.state == FINISH then 1 else 0)
            == Folded(r, words) - (if r.state == FINISH then 1 else 0) + (if r'.irq then 1 else 0)
  {
    hide ChunkProcess.Next, ChunkCompress.Next, SwapBytes, WordIn, Rom, WordOf, Fips180.HashBlocks,
      ChunkProcess.SigmasCurrent, ChunkProcess.HoldsSchedule, Loaded, RoundStaged;
    FoldedBlocks(r, words);
  }

}
