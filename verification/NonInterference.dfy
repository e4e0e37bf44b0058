/** Nothing that happens on the data pins of a busy core can be told apart from its outputs. */
module NonInterference {
  import opened Words
  import opened RoundConstants
  import opened Sha256Core
  import opened CoreRefinement
  import ChunkProcess
  import ChunkCompress
  import Fips180

  /** The inputs of one cycle may differ in data that the core does not take. */
  ghost predicate SameUnlessBusy(r: Regs, i1: Input, i2: Input) {
    && i1.rstN == i2.rstN
    && (i1.rstN && !Busy(r, i1) ==> i1.valid == i2.valid && (i1.valid ==> i1.dat == i2.dat))
  }

  /** Two register states that no later output can tell apart. */
  ghost predicate Alike(r1: Regs, r2: Regs)
    requires r1.Valid() && r2.Valid()
  {
    && r1.state == r2.state && r1.irq == r2.irq && r1.comp.h8 == r2.comp.h8
    && (r1.state != FINISH ==> r1.counter == r2.counter)
    && ChunkProcess.SigmasCurrent(r1.sched) && ChunkProcess.SigmasCurrent(r2.sched)
    && (r1.state == LOAD || r1.state == PROC ==> r1.comp == r2.comp)
    && (r1.state == LOAD ==>
          r1.counter <= 16 && forall j :: 16 - r1.counter <= j < 16 ==> r1.sched.w[j] == r2.sched.w[j])
    && (r1.state == PROC ==> r1.sched.w == r2.sched.w)
    && (r1.state == IDLE ==> r1.counter == 0)
  }

  lemma AlikeStep(r1: Regs, r2: Regs, i1: Input, i2: Input)
    requires r1.Valid() && r2.Valid() && Alike(r1, r2) && SameUnlessBusy(r1, i1, i2)
    ensures Alike(Next(r1, i1), Next(r2, i2))
    ensures Busy(r1, i1) == Busy(r2, i2) && Takes(r1, i1) == Takes(r2, i2)
  {
    hide ChunkProcess.SigmasCurrent, ChunkCompress.Next, SwapBytes, Rom, WordOf,
      ChunkProcess.WordNew, ChunkProcess.Sigma0Net, ChunkProcess.Sigma1Net;
    if i1.rstN {
      ChunkProcess.SigmasStayCurrent(r1.sched, StateNext(r1, i1) == PROC, i1.valid, SwapBytes(i1.dat));
      ChunkProcess.SigmasStayCurrent(r2.sched, StateNext(r2, i2) == PROC, i2.valid, SwapBytes(i2.dat));
      HashAlike(r1, r2, i1, i2);
      if r1.state == PROC || (r1.state == LOAD && r1.counter == 16) {
        SameWindow(r1, r2);
      }
    } else {
      ChunkProcess.SigmasCurrentAtReset();
    }
  }

  lemma SameWindow(r1: Regs, r2: Regs)
    requires r1.Valid() && r2.Valid() && Alike(r1, r2)
    requires r1.state == PROC || (r1.state == LOAD && r1.counter == 16)
    ensures r1.sched == r2.sched
  {
    assert r1.sched.w == r2.sched.w;
  }

  /** The hash value changes only at the end of a block, and by the same amount. */
  lemma HashAlike(r1: Regs, r2: Regs, i1: Input, i2: Input)
    requires r1.Valid() && r2.Valid() && Alike(r1, r2) && SameUnlessBusy(r1, i1, i2) && i1.rstN
    ensures Next(r1, i1).comp.h8 == Next(r2, i2).comp.h8
    ensures r1.state == IDLE && StateNext(r1, i1) == LOAD ==> Next(r1, i1).comp == Next(r2, i2).comp
    ensures r1.state == LOAD && StateNext(r1, i1) == LOAD ==> Next(r1, i1).comp == Next(r2, i2).comp
  {
    hide ChunkProcess.Next, ChunkProcess.SigmasCurrent, SwapBytes, Rom, WordOf, Add, Fips180.AddVars,
      ChunkCompress.BigSigma0Net, ChunkCompress.BigSigma1Net, ChunkCompress.MajNet, ChunkCompress.ChNet;
  }

  /** The runs differ in data and valid only, and only in cycles in which the first one is busy. */
  ghost predicate DifferWhileBusy(ins1: seq<Input>, ins2: seq<Input>) {
    && |ins1| == |ins2|
    && forall k :: 0 <= k < |ins1| ==> SameUnlessBusy(Run(ins1[..k]), ins1[k], ins2[k])
  }

  /**
   * Cycle by cycle: two runs that agree except on what is on the data pins while the core is busy
   * take the same words and show the same hash, busy and interrupt outputs.
   */
  lemma {:induction false} BusyInputsDoNotMatter(ins1: seq<Input>, ins2: seq<Input>)
    requires DifferWhileBusy(ins1, ins2)
    ensures Alike(Run(ins1), Run(ins2))
    ensures HashOut(Run(ins1)) == HashOut(Run(ins2))
    ensures Absorbed(ins1) == Absorbed(ins2)
  {
    hide Next, HashOut, Takes, Alike, SameUnlessBusy, DifferWhileBusy;
    SameLength(ins1, ins2);
    if |ins1| == 0 {
      ResetAlike();
    } else {
      var n := |ins1| - 1;
      DifferPrefix(ins1, ins2);
      BusyInputsDoNotMatter(ins1[..n], ins2[..n]);
      AlikeStep(Run(ins1[..n]), Run(ins2[..n]), ins1[n], ins2[n]);
      SameCycle(Run(ins1[..n]), ins1[n], ins2[n]);
    }
    AlikeHash(Run(ins1), Run(ins2));
  }

  lemma SameLength(ins1: seq<Input>, ins2: seq<Input>)
    requires DifferWhileBusy(ins1, ins2)
    ensures |ins1| == |ins2|
  {
  }

  lemma DifferPrefix(ins1: seq<Input>, ins2: seq<Input>)
    requires |ins1| > 0 && DifferWhileBusy(ins1, ins2)
    ensures var n := |ins1| - 1;
            DifferWhileBusy(ins1[..n], ins2[..n]) && SameUnlessBusy(Run(ins1[..n]), ins1[n], ins2[n])
  {
    hide Run, SameUnlessBusy;
    var n := |ins1| - 1;
    forall k | 0 <= k < n
      ensures SameUnlessBusy(Run(ins1[..n][..k]), ins1[..n][k], ins2[..n][k])
    {
      assert ins1[..n][..k] == ins1[..k];
    }
  }

  lemma ResetAlike()
    ensures Alike(ResetRegs(), ResetRegs())
  {
    ChunkProcess.SigmasCurrentAtReset();
  }

  lemma AlikeHash(r1: Regs, r2: Regs)
    requires r1.Valid() && r2.Valid() && Alike(r1, r2)
    ensures HashOut(r1) == HashOut(r2)
  {
  }

  lemma SameCycle(r: Regs, i1: Input, i2: Input)
    requires SameUnlessBusy(r, i1, i2)
    ensures i1.rstN == i2.rstN && (Takes(r, i1) ==> i1.dat == i2.dat)
  {
  }

  /** Neither do stalls matter: the words taken determine the hash value at the end of a block. */
  lemma StallsDoNotMatter(ins1: seq<Input>, ins2: seq<Input>)
    requires Absorbed(ins1) == Absorbed(ins2)
    requires Folded(Run(ins1), SwapAll(Absorbed(ins1))) == Folded(Run(ins2), SwapAll(Absorbed(ins2)))
    ensures HashOut(Run(ins1)) == HashOut(Run(ins2))
  {
    hide SwapAll, Run, Absorbed, Fips180.HashBlocks;
    HashValueInEveryState(ins1);
    HashValueInEveryState(ins2);
  }
}
