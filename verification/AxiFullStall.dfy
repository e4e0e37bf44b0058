/** When the data of a stalled read beat stays as it was, address by address, for stalls of any length. */
module AxiFullStall {
  import opened Division
  import opened Words
  import opened Fips180
  import opened AxiBurst
  import opened RegisterMap
  import opened AxiFull
  import opened AxiFullRead
  import Core = Sha256Core
  import ChunkCompress
  import ChunkProcess
  import RoundConstants

  // ---- What disturbs a register, seen from outside before the clock edge ----

  /** This cycle ends a block: its working variables are added to the hash value. */
  predicate Folds(r: Core.Regs) { r.state == Core.PROC && r.counter == 64 }

  /** This cycle writes the soft reset. */
  predicate WritesReset(g: Regs, i: Input) {
    WriteEnable(g, i) && Index(g.w.cur.addr) == 0 && i.wstrb[0] && i.wdata[0]
  }

  function WordAt(v: Vars, k: nat): Word
    requires k < 8
  {
    [v.a, v.b, v.c, v.d, v.e, v.f, v.g, v.h][k]
  }

  /**
   * Hash word k survives the cycle: the reset is already on, or begins while the word has its initial
   * value, or no block ends, or one ends with a zero in this working variable.
   */
  predicate HashKept(g: Regs, i: Input, k: nat)
    requires k < 8
  {
    if g.status[0] then true
    else if WritesReset(g, i) then WordAt(g.core.comp.h8, k) == WordAt(InitialHash(), k)
    else !Folds(g.core) || WordAt(ChunkCompress.VarsNext(g.core.comp, true), k) == Zero()
  }

  /**
   * The status register survives the cycle: a write brings nothing new, and without a write the busy bit
   * is up to date and no bit is left that clears itself.
   */
  predicate StatusKept(g: Regs, i: Input) {
    if WriteEnable(g, i) && Index(g.w.cur.addr) == 0
    then forall n :: 0 <= n < 32 && i.wstrb[n / 8] ==> i.wdata[n] == g.status[n]
    else g.status[8] == HashBusy(g, i) && forall n :: 0 <= n < 32 && n != 1 && n != 8 ==> !g.status[n]
  }

  predicate Undisturbed(g: Regs, i: Input, addr: Octet) {
    if Index(addr) == 0 then StatusKept(g, i)
    else if 8 <= Index(addr) < 16 then HashKept(g, i, (Index(addr) - 8) as int)
    else true
  }

  // ---- One cycle ----

  lemma StatusKeptExactly(g: Regs, i: Input)
    requires g.Valid() && i.resetN
    ensures Next(g, i).status == g.status <==> StatusKept(g, i)
  {
    hide WriteNext, ReadNext, DataOutNext, Core.Next, CoreInput, HashBusy, WriteEnable, Index;
    var status := Next(g, i).status;
    assert status == g.status <==> forall n :: 0 <= n < 32 ==> status[n] == g.status[n];
  }

  /** Adding anything but zero changes a word. */
  lemma AddSame(x: Word, v: Word)
    ensures Add(x, v) == x <==> v == Zero()
  {
    hide Add, Pow2, Value, Slot;
    AddIsModular(x, v);
    ValueBound(x);
    ValueBound(v);
    ZeroValue(Zero(), 32);
    SumSame(Pow2(32), Value(x), Value(v));
    if Add(x, v) == x {
      ValueInjective(v, Zero());
    } else if v == Zero() {
      ValueInjective(Add(x, v), x);
    }
  }

  lemma {:induction false} ZeroValue(x: Word, n: nat)
    requires x == Zero() && n <= 32
    ensures Value(x[..n]) == 0 && x[..32] == x
  {
    if n > 0 {
      ZeroValue(x, n - 1);
      ValueOfPrefix(x, n);
    }
  }

  lemma SumSame(m: nat, x: nat, v: nat)
    requires x < m && v < m
    ensures Slot(m, x + v) == x <==> v == 0
  {
    if x + v < m {
      RemainderIs(x + v, m, 0, x + v);
    } else {
      RemainderIs(x + v, m, 1, x + v - m);
    }
  }

  lemma SwapParts(x: Word)
    ensures var u := SwapBytes(x);
            x == u[24..] + u[16..24] + u[8..16] + u[..8]
  {
    var u := SwapBytes(x);
    assert u[..8] == x[24..] && u[8..16] == x[16..24] && u[16..24] == x[8..16] && u[24..] == x[..8];
  }

  lemma SwapInjective(x: Word, y: Word)
    requires SwapBytes(x) == SwapBytes(y)
    ensures x == y
  {
    hide SwapBytes;
    SwapParts(x);
    SwapParts(y);
  }

  lemma HashWord(r: Core.Regs, k: nat)
    requires k < 8
    ensures Core.HashOut(r)[k] == SwapBytes(WordAt(r.comp.h8, k))
  {
    hide SwapBytes;
  }

  lemma AddedWord(x: Vars, y: Vars, k: nat)
    requires k < 8
    ensures WordAt(AddVars(x, y), k) == Add(WordAt(x, k), WordAt(y, k))
  {
    hide Add;
  }

  /** Outside reset, a cycle changes the hash value only by a fold. */
  lemma HashNext(r: Core.Regs, i: Core.Input)
    requires r.Valid() && i.rstN
    ensures Core.Next(r, i).comp.h8 == if Folds(r) then AddVars(r.comp.h8, ChunkCompress.VarsNext(r.comp, true))
      else r.comp.h8
  {
    hide ChunkProcess.Next, ChunkCompress.Next, ChunkCompress.VarsNext, AddVars, SwapBytes, Core.WordIn,
      RoundConstants.Rom, WordOf;
    var compressing := r.state == Core.LOAD || r.state == Core.PROC;
    ChunkCompress.EdgeUpdatesHash(r.comp, compressing, Core.StateNext(r, i) == Core.FINISH, Core.WordValid(r, i),
                                  Core.WordIn(r, i), WordOf(RoundConstants.Rom(r.counter % 0x40)));
  }

  /** The hash value that the read channel sees. */
  function SeenHash(g: Regs): Vars { if g.status[0] then InitialHash() else g.core.comp.h8 }

  lemma SeenWord(g: Regs, i: Input, k: nat)
    requires i.resetN && k < 8
    ensures Core.HashOut(Core.Visible(g.core, CoreResetN(g, i)))[k] == SwapBytes(WordAt(SeenHash(g), k))
  {
    hide SwapBytes, InitialHash;
    HashWord(Core.Visible(g.core, CoreResetN(g, i)), k);
  }

  lemma ResetBegins(g: Regs, i: Input)
    requires g.Valid() && i.resetN && !g.status[0]
    ensures Next(g, i).status[0] <==> WritesReset(g, i)
    ensures Next(g, i).core == Core.Next(g.core, CoreInput(g, i)) && CoreInput(g, i).rstN
  {
    hide WriteNext, ReadNext, DataOutNext, WriteEnable, Index, HashBusy, Core.Next;
  }

  lemma CoreInReset(g: Regs, i: Input)
    requires g.Valid() && g.status[0]
    ensures Next(g, i).core.comp.h8 == InitialHash()
  {
    hide WriteNext, ReadNext, StatusNext, DataOutNext, WriteEnable, InitialHash;
  }

  lemma SeenNext(g: Regs, i: Input)
    requires g.Valid() && i.resetN
    ensures SeenHash(Next(g, i)) ==
      if g.status[0] || WritesReset(g, i) then InitialHash()
      else if Folds(g.core) then AddVars(g.core.comp.h8, ChunkCompress.VarsNext(g.core.comp, true))
      else g.core.comp.h8
  {
    hide Next, CoreInput, Core.Next, WritesReset, Folds, AddVars, InitialHash, ChunkCompress.VarsNext;
    if g.status[0] {
      CoreInReset(g, i);
    } else {
      ResetBegins(g, i);
      HashNext(g.core, CoreInput(g, i));
    }
  }

  lemma HashKeptExactly(g: Regs, i: Input, i': Input, k: nat)
    requires g.Valid() && i.resetN && i'.resetN && k < 8
    ensures Core.HashOut(Core.Visible(Next(g, i).core, CoreResetN(Next(g, i), i')))[k]
            == Core.HashOut(Core.Visible(g.core, CoreResetN(g, i)))[k]
      <==> HashKept(g, i, k)
  {
    hide Next, CoreResetN, Core.HashOut, SwapBytes, AddVars, InitialHash, ChunkCompress.VarsNext, WordAt, Add, Zero,
      WritesReset, Folds;
    var before, after := WordAt(SeenHash(g), k), WordAt(SeenHash(Next(g, i)), k);
    SeenWord(g, i, k);
    SeenWord(Next(g, i), i', k);
    SeenNext(g, i);
    if SwapBytes(before) == SwapBytes(after) {
      SwapInjective(before, after);
    }
    var v := ChunkCompress.VarsNext(g.core.comp, true);
    AddedWord(g.core.comp.h8, v, k);
    AddSame(WordAt(g.core.comp.h8, k), WordAt(v, k));
  }

  /** The register that the read channel samples keeps its value over one cycle exactly then. */
  lemma UndisturbedExactly(g: Regs, i: Input, i': Input, addr: Octet)
    requires g.Valid() && i.resetN && i'.resetN
    ensures ReadMux(Next(g, i), i', addr) == ReadMux(g, i, addr) <==> Undisturbed(g, i, addr)
  {
    hide Next, CoreResetN, Core.HashOut, HashKept, StatusKept;
    StatusKeptExactly(g, i);
    if 8 <= Index(addr) < 16 {
      HashKeptExactly(g, i, i', (Index(addr) - 8) as int);
    }
  }

  // ---- A stall ----

  /** A read beat comes onto the bus in the first cycle and is not taken in the others. */
  predicate Stalls(f: Regs, ins: seq<Input>)
    requires f.Valid()
  {
    && |ins| > 0 && NoBusReset(ins) && ReadInv(f.r) && Next(f, ins[0]).r.rvalid
    && forall j :: 0 < j < |ins| ==> !ins[j].rready
  }

  /** The register in cycle j of the stall. */
  function Sampled(f: Regs, ins: seq<Input>, j: nat): Word
    requires f.Valid() && j < |ins|
  {
    ReadMux(Steps(f, ins[..j]), ins[j], f.r.cur.addr)
  }

  lemma HeldStep(g: Regs, i: Input)
    requires g.Valid() && ReadInv(g.r) && i.resetN && Next(g, i).r.rvalid
    ensures Next(g, i).r.cur == g.r.cur
  {
    hide WriteNext, StatusNext, DataOutNext, Core.Next, CoreInput, HashBusy, Advance, BeatsLeft, LastBeat;
  }

  lemma StaysValid(g: Regs, i: Input)
    requires g.Valid() && ReadInv(g.r) && i.resetN && g.r.rvalid && !i.rready
    ensures Next(g, i).r.rvalid
  {
    hide WriteNext, StatusNext, DataOutNext, Core.Next, CoreInput, HashBusy, Advance;
  }

  /** Throughout the stall the bus shows the register of the cycle before. */
  lemma {:induction false} HeldData(f: Regs, ins: seq<Input>, n: nat)
    requires f.Valid() && Stalls(f, ins) && 1 <= n <= |ins|
    ensures var g := Steps(f, ins[..n]);
            ReadInv(g.r) && g.r.rvalid && g.r.cur == f.r.cur && RData(g) == Sampled(f, ins, n - 1)
  {
    hide Next, ReadInv, RData, ReadMux;
    assert ins[..n][..n - 1] == ins[..n - 1];
    var g, i := Steps(f, ins[..n - 1]), ins[n - 1];
    if n > 1 {
      HeldData(f, ins, n - 1);
      StaysValid(g, i);
    } else {
      assert ins[..0] == [];
    }
    ReadInvStep(g, i);
    HeldStep(g, i);
    SampledOneCycleBefore(g, i);
  }

  predicate SameAsFirst(f: Regs, ins: seq<Input>, n: nat)
    requires f.Valid() && 1 <= n <= |ins|
  {
    RData(Steps(f, ins[..n])) == RData(Steps(f, ins[..1]))
  }

  predicate UndisturbedAt(f: Regs, ins: seq<Input>, j: nat)
    requires f.Valid() && j < |ins|
  {
    Undisturbed(Steps(f, ins[..j]), ins[j], f.r.cur.addr)
  }

  lemma SampledStep(f: Regs, ins: seq<Input>, j: nat)
    requires f.Valid() && NoBusReset(ins) && j + 1 < |ins|
    ensures Sampled(f, ins, j + 1) == Sampled(f, ins, j) <==> UndisturbedAt(f, ins, j)
  {
    hide Next, ReadMux, Undisturbed;
    assert ins[..j + 1][..j] == ins[..j];
    UndisturbedExactly(Steps(f, ins[..j]), ins[j], ins[j + 1], f.r.cur.addr);
  }

  lemma {:induction false} StableFromStart(f: Regs, ins: seq<Input>, n: nat)
    requires f.Valid() && Stalls(f, ins) && 1 <= n <= |ins|
    requires forall j :: 0 <= j < |ins| - 1 ==> UndisturbedAt(f, ins, j)
    ensures SameAsFirst(f, ins, n)
  {
    hide Steps, RData, Sampled, UndisturbedAt;
    if n > 1 {
      StableFromStart(f, ins, n - 1);
      HeldData(f, ins, n - 1);
      HeldData(f, ins, n);
      SampledStep(f, ins, n - 2);
    }
  }

  /**
   * RDATA is stable over a stall of any length if and only if no cycle of it disturbs the register at the
   * address: a block ending with a nonzero working variable or a soft reset for a hash word, a write, a
   * change of busy or a self-clearing bit for the status register, and nothing at all elsewhere.
   */
  lemma StallIsStableExactly(f: Regs, ins: seq<Input>)
    requires f.Valid() && Stalls(f, ins)
    ensures (forall n :: 1 <= n <= |ins| ==> SameAsFirst(f, ins, n))
      <==> forall j :: 0 <= j < |ins| - 1 ==> UndisturbedAt(f, ins, j)
  {
    hide Steps, RData, Sampled, UndisturbedAt, Stalls;
    if forall j :: 0 <= j < |ins| - 1 ==> UndisturbedAt(f, ins, j) {
      forall n | 1 <= n <= |ins|
        ensures SameAsFirst(f, ins, n)
      {
        StableFromStart(f, ins, n);
      }
    }
    if forall n :: 1 <= n <= |ins| ==> SameAsFirst(f, ins, n) {
      forall j | 0 <= j < |ins| - 1
        ensures UndisturbedAt(f, ins, j)
      {
        assert SameAsFirst(f, ins, j + 1) && SameAsFirst(f, ins, j + 2);
        HeldData(f, ins, j + 1);
        HeldData(f, ins, j + 2);
        StalledRun(f, ins);
        SampledStep(f, ins, j);
      }
    }
  }

  lemma StalledRun(f: Regs, ins: seq<Input>)
    requires f.Valid() && Stalls(f, ins)
    ensures NoBusReset(ins)
  {
  }

  /** So a hash word is stable over any stall in which no block ends and no soft reset is written. */
  lemma HashStaysWhileNoBlockEnds(f: Regs, ins: seq<Input>)
    requires f.Valid() && Stalls(f, ins) && 8 <= Index(f.r.cur.addr) < 16
    requires forall j :: 0 <= j < |ins| - 1 ==>
      var g := Steps(f, ins[..j]); !Folds(g.core) && !WritesReset(g, ins[j])
    ensures forall n :: 1 <= n <= |ins| ==> SameAsFirst(f, ins, n)
  {
    hide Steps, Stalls, SameAsFirst, Folds, WritesReset;
    StallIsStableExactly(f, ins);
  }

  /** An address without a register reads the same throughout any stall. */
  lemma UnmappedStays(f: Regs, ins: seq<Input>)
    requires f.Valid() && Stalls(f, ins) && Index(f.r.cur.addr) != 0 && !(8 <= Index(f.r.cur.addr) < 16)
    ensures forall n :: 1 <= n <= |ins| ==> SameAsFirst(f, ins, n)
  {
    hide Steps, Stalls, SameAsFirst;
    StallIsStableExactly(f, ins);
  }
}
