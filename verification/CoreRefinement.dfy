/** The core computes the FIPS 180-4 hash of the words it takes, whatever the schedule of its inputs. */
module CoreRefinement {
  import opened Words
  import opened RoundConstants
  import opened Fips180
  import opened Sha256Core
  import ChunkProcess
  import ChunkCompress

  // ---- Prefixes: a word that arrives later does not change what is already computed ----

  lemma ScheduleStartsWithBlock(block: seq<Word>, t: nat)
    requires t < 16 && t < |block|
    ensures Schedule(block, t) == block[t]
  {
  }

  lemma SchedulePrefix(block: seq<Word>, more: seq<Word>, t: nat)
    requires t < |block| <= 16
    ensures Schedule(block + more, t) == Schedule(block, t)
  {
  }

  lemma {:induction false} RoundsPrefix(hash: Vars, block: seq<Word>, more: seq<Word>, n: nat)
    requires n <= |block| <= 16
    ensures Rounds(hash, block + more, n) == Rounds(hash, block, n)
  {
    hide Round, Schedule, Rom, WordOf;
    if n > 0 {
      RoundsPrefix(hash, block, more, n - 1);
      SchedulePrefix(block, more, n - 1);
    }
  }

  lemma {:induction false} HashBlocksPrefix(words: seq<Word>, more: seq<Word>, n: nat)
    requires 16 * n <= |words|
    ensures HashBlocks(words + more, n) == HashBlocks(words, n)
  {
    hide Compress;
    if n > 0 {
      HashBlocksPrefix(words, more, n - 1);
      assert (words + more)[16 * (n - 1)..16 * n] == words[16 * (n - 1)..16 * n];
    }
  }

  // ---- The invariant ----

  /** The newest counter words of the window are the block so far. */
  ghost predicate Loaded(r: Regs, block: seq<Word>)
    requires r.Valid()
  {
    |block| <= 16 && forall j :: 0 <= j < |block| ==> r.sched.w[16 - |block| + j] == block[j]
  }

  /** With counter n, n - 1 rounds are done and round n - 1 is staged. */
  ghost predicate RoundStaged(r: Regs, block: seq<Word>, n: nat)
    requires 1 <= n <= 64 && Determines(block, n)
  {
    ChunkCompress.Staged(r.comp, Rounds(r.comp.h8, block, n - 1), WordOf(Rom(n - 1)), Schedule(block, n - 1))
  }

  /** The number of words of the block in progress that have not been folded into the hash value. */
  function Pending(r: Regs): nat {
    match r.state
    case IDLE => 0
    case LOAD => r.counter
    case PROC => 16
    case FINISH => 0
  }

  /** The bands of the round counter. */
  ghost predicate Bands(r: Regs) {
    match r.state
    case IDLE => r.counter == 0
    case LOAD => 1 <= r.counter <= 16
    case PROC => 17 <= r.counter <= 64
    case FINISH => 64 <= r.counter <= 65
  }

  /** The core, having taken these message words, is where FIPS 180-4 says it should be. */
  ghost predicate Refines(r: Regs, words: seq<Word>) {
    && r.Valid() && Bands(r)
    && ChunkProcess.SigmasCurrent(r.sched)
    && Pending(r) <= |words| && (|words| - Pending(r)) % 16 == 0
    && r.comp.h8 == HashBlocks(words, (|words| - Pending(r)) / 16)
    && var block := words[|words| - Pending(r)..];
       match r.state
       case IDLE => true
       case LOAD => Loaded(r, block) && RoundStaged(r, block, r.counter)
       case PROC => ChunkProcess.HoldsSchedule(r.sched, block, r.counter) && RoundStaged(r, block, r.counter)
       case FINISH => true
  }

  // ---- One edge at a time ----

  lemma FullBlockIsSchedule(r: Regs, block: seq<Word>)
    requires r.Valid() && |block| == 16 && Loaded(r, block)
    ensures ChunkProcess.HoldsSchedule(r.sched, block, 16)
  {
    forall j | 0 <= j < 16
      ensures r.sched.w[j] == Schedule(block, j)
    {
      ScheduleStartsWithBlock(block, j);
    }
  }

  /** The nets show the result of the staged round. */
  lemma NetsShowRound(r: Regs, block: seq<Word>, n: nat)
    requires 1 <= n <= 64 && Determines(block, n) && RoundStaged(r, block, n)
    ensures ChunkCompress.VarsNext(r.comp, true) == Rounds(r.comp.h8, block, n)
  {
    ChunkCompress.StagedRoundFinishes(r.comp, Rounds(r.comp.h8, block, n - 1), WordOf(Rom(n - 1)),
      Schedule(block, n - 1));
  }

  /** In IDLE or LOAD, an accepted word joins the words of the block in the window. */
  lemma WindowTakesWord(r: Regs, block: seq<Word>, i: Input)
    requires r.Valid() && Loaded(r, block) && |block| < 16 && i.rstN && i.valid
    requires r.state == IDLE || (r.state == LOAD && r.counter < 16)
    ensures Loaded(Next(r, i), block + [SwapBytes(i.dat)])
  {
    hide ChunkCompress.Next, ChunkProcess.Sigma0Net, ChunkProcess.Sigma1Net, SwapBytes, Rom, WordOf;
  }

  /** The same word is staged for its round. */
  lemma RoundTakesWord(r: Regs, block: seq<Word>, i: Input)
    requires r.Valid() && |block| == r.counter < 16 && i.rstN && i.valid
    requires r.state == IDLE || (r.state == LOAD && r.counter > 0 && RoundStaged(r, block, r.counter))
    requires r.state == IDLE ==> r.counter == 0
    ensures Next(r, i).comp.h8 == r.comp.h8
    ensures RoundStaged(Next(r, i), block + [SwapBytes(i.dat)], r.counter + 1)
  {
    hide ChunkProcess.Next, ChunkCompress.Next, SwapBytes, Round, Schedule, Temp1, Temp2, Rom, WordOf, Add;
    var w := SwapBytes(i.dat);
    var n := r.counter;
    RoundsPrefix(r.comp.h8, block, [w], n);
    ScheduleStartsWithBlock(block + [w], n);
    if r.state == LOAD {
      NetsShowRound(r, block, n);
    }
    ChunkCompress.EdgeStagesRound(r.comp, r.state == LOAD, false, w, WordOf(Rom(n)));
    ChunkCompress.EdgeUpdatesHash(r.comp, r.state == LOAD, false, true, w, WordOf(Rom(n)));
  }

  lemma TakesWord(r: Regs, words: seq<Word>, i: Input)
    requires Refines(r, words) && Takes(r, i)
    requires r.state == IDLE || (r.state == LOAD && r.counter < 16)
    ensures Refines(Next(r, i), words + [SwapBytes(i.dat)])
  {
    hide ChunkProcess.Next, ChunkCompress.Next, SwapBytes, Loaded, RoundStaged, ChunkProcess.SigmasCurrent, HashBlocks;
    var w := SwapBytes(i.dat);
    var n := r.counter;
    var block := words[|words| - n..];
    assert (words + [w])[|words| - n..] == block + [w];
    HashBlocksPrefix(words, [w], (|words| - n) / 16);
    if r.state == IDLE {
      EmptyBlockLoaded(r, block);
    }
    WindowTakesWord(r, block, i);
    RoundTakesWord(r, block, i);
    ChunkProcess.SigmasStayCurrent(r.sched, false, true, w);
  }

  lemma EmptyBlockLoaded(r: Regs, block: seq<Word>)
    requires r.Valid() && |block| == 0
    ensures Loaded(r, block)
  {
  }

  /** From LOAD with a full block, or in PROC, a scheduled word shifts in and stages its round. */
  lemma ProcessesWord(r: Regs, words: seq<Word>, i: Input)
    requires Refines(r, words) && i.rstN
    requires (r.state == LOAD && r.counter == 16) || (r.state == PROC && r.counter < 64)
    ensures Refines(Next(r, i), words)
  {
    hide ChunkCompress.Next, ChunkProcess.SigmasCurrent, SwapBytes, Round, Compress, Schedule, Temp1, Temp2, Rom,
      WordOf, Add, ChunkProcess.WordNew, ChunkProcess.Sigma0Net, ChunkProcess.Sigma1Net, HashBlocks;
    var n := r.counter;
    var r' := Next(r, i);
    var block := words[|words| - 16..];
    if r.state == LOAD {
      FullBlockIsSchedule(r, block);
    }
    ChunkProcess.NewWordIsNextSchedule(r.sched, block, n);
    var w := Schedule(block, n);
    NetsShowRound(r, block, n);
    ChunkCompress.EdgeStagesRound(r.comp, true, false, w, WordOf(Rom(n)));
    ChunkCompress.EdgeUpdatesHash(r.comp, true, false, true, w, WordOf(Rom(n)));
    ChunkProcess.SigmasStayCurrent(r.sched, true, i.valid, SwapBytes(i.dat));
    assert ChunkProcess.HoldsSchedule(r'.sched, block, n + 1);
    assert RoundStaged(r', block, n + 1);
  }

  /** At counter 64 the hash value takes in the block, even if junk shifts in behind it. */
  lemma FoldsBlock(r: Regs, words: seq<Word>, i: Input)
    requires Refines(r, words) && i.rstN
    requires r.state == PROC && r.counter == 64
    ensures Refines(Next(r, i), words)
  {
    hide ChunkCompress.Next, ChunkProcess.SigmasCurrent, SwapBytes, Round, Schedule, Temp1, Temp2, Rom, WordOf, Add,
      AddVars, ChunkProcess.WordNew, ChunkProcess.Sigma0Net, ChunkProcess.Sigma1Net, Rounds;
    var b := (|words| - 16) / 16;
    var block := words[|words| - 16..];
    assert block == words[16 * b..16 * (b + 1)];
    NetsShowRound(r, block, 64);
    ChunkCompress.EdgeUpdatesHash(r.comp, true, true, i.valid, WordIn(r, i), WordOf(Rom(r.counter % 0x40)));
    ChunkProcess.SigmasStayCurrent(r.sched, false, i.valid, SwapBytes(i.dat));
  }

  /** A cycle with nothing to do, or the cycle after a fold. */
  lemma Rests(r: Regs, words: seq<Word>, i: Input)
    requires Refines(r, words) && i.rstN
    requires r.state == FINISH || (!i.valid && (r.state == IDLE || (r.state == LOAD && r.counter < 16)))
    ensures Refines(Next(r, i), words)
  {
    hide ChunkCompress.Next, ChunkProcess.SigmasCurrent, SwapBytes, Round, Schedule, Temp1, Temp2, Rom, WordOf, Add,
      AddVars, ChunkProcess.WordNew, ChunkProcess.Sigma0Net, ChunkProcess.Sigma1Net, Rounds, HashBlocks,
      ChunkCompress.VarsNext;
    var compressing := r.state == LOAD || r.state == PROC;
    ChunkCompress.EdgeUpdatesHash(r.comp, compressing, false, i.valid, WordIn(r, i), WordOf(Rom(r.counter % 0x40)));
    ChunkProcess.SigmasStayCurrent(r.sched, false, i.valid, SwapBytes(i.dat));
  }

  // ---- Main results ----

  lemma SwapAllAppend(xs: seq<Word>, x: Word)
    ensures SwapAll(xs + [x]) == SwapAll(xs) + [SwapBytes(x)]
  {
  }

  /** In every reachable state, for every schedule of inputs, stalls and resets included. */
  lemma {:induction false} CoreRefinesFips(ins: seq<Input>)
    ensures Refines(Run(ins), SwapAll(Absorbed(ins)))
  {
    if |ins| > 0 {
      var i := ins[|ins| - 1];
      var r := Run(ins[..|ins| - 1]);
      var taken := Absorbed(ins[..|ins| - 1]);
      CoreRefinesFips(ins[..|ins| - 1]);
      if i.rstN {
        SwapAllAppend(taken, i.dat);
        StepRefines(r, SwapAll(taken), i);
      } else {
        ResetRefines();
      }
    } else {
      ResetRefines();
    }
  }

  lemma ResetRefines()
    ensures Refines(ResetRegs(), [])
  {
    ChunkProcess.SigmasCurrentAtReset();
  }

  lemma StepRefines(r: Regs, words: seq<Word>, i: Input)
    requires Refines(r, words) && i.rstN
    ensures Refines(Next(r, i), if Takes(r, i) then words + [SwapBytes(i.dat)] else words)
  {
    hide Next, HashBlocks, SwapBytes, ChunkProcess.SigmasCurrent, ChunkProcess.HoldsSchedule, Loaded, RoundStaged;
    if r.state == PROC && r.counter == 64 {
      FoldsBlock(r, words, i);
    } else if r.state == PROC || (r.state == LOAD && r.counter == 16) {
      ProcessesWord(r, words, i);
    } else if r.state != FINISH && i.valid {
      TakesWord(r, words, i);
    } else {
      Rests(r, words, i);
    }
  }

  /** Every complete block is folded in, except the newest one while it is in progress. */
  function Folded(r: Regs, words: seq<Word>): int {
    if r.state == PROC || (r.state == LOAD && r.counter == 16) then |words| / 16 - 1 else |words| / 16
  }

  lemma FoldedBlocks(r: Regs, words: seq<Word>)
    requires Refines(r, words)
    ensures 0 <= Folded(r, words) == (|words| - Pending(r)) / 16
  {
    hide HashBlocks, ChunkProcess.SigmasCurrent, ChunkProcess.HoldsSchedule, Loaded, RoundStaged;
    var k := (|words| - Pending(r)) / 16;
    assert |words| == 16 * k + Pending(r);
  }

  lemma HashValueInEveryState(ins: seq<Input>)
    ensures var words := SwapAll(Absorbed(ins));
            var n := Folded(Run(ins), words);
            0 <= n && 16 * n <= |words| && Run(ins).comp.h8 == HashBlocks(words, n)
  {
    CoreRefinesFips(ins);
    FoldedBlocks(Run(ins), SwapAll(Absorbed(ins)));
    FromRefines(Run(ins), SwapAll(Absorbed(ins)));
  }

  lemma FromRefines(r: Regs, words: seq<Word>)
    requires Refines(r, words)
    ensures r.comp.h8 == HashBlocks(words, (|words| - Pending(r)) / 16)
  {
  }
}
