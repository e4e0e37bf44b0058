/** Read bursts of the burst slave: how many beats, which is marked last, and what each one carries. */
module AxiFullRead {
  import opened Words
  import opened AxiBurst
  import opened RegisterMap
  import opened AxiFull
  import Core = Sha256Core

  /** A read beat as the master sees it. */
  datatype Beat = Beat(dat: Word, last: bool)

  /** S_AXI_RDATA */
  function RData(f: Regs): Word { if f.r.rvalid then f.dataOut else Zero() }

  /** The beats handed over during a run. */
  function Delivered(f: Regs, ins: seq<Input>): seq<Beat>
    requires f.Valid()
  {
    if |ins| == 0 then []
    else
      var g, i := Steps(f, ins[..|ins| - 1]), ins[|ins| - 1];
      var before := Delivered(f, ins[..|ins| - 1]);
      if ReadBeat(g.r, i) then before + [Beat(RData(g), g.r.rlast)] else before
  }

  /** The slave takes over the read address in this cycle. */
  predicate AcceptsRead(f: Regs, i: Input) {
    i.resetN && !f.r.arready && i.arvalid && !f.w.awFlag && !f.r.arFlag
  }

  /** What holds of the read channel at all times. */
  predicate ReadInv(r: ReadRegs) {
    && (r.rvalid ==> r.arFlag)
    && (r.rlast <==> r.rvalid && LastBeat(r.cur))
  }

  lemma ReadInvStep(f: Regs, i: Input)
    requires f.Valid() && ReadInv(f.r)
    ensures ReadInv(Next(f, i).r)
  {
    hide WriteNext, StatusNext, DataOutNext, Core.Next, CoreInput, HashBusy, BeatsLeft, Advance;
    LastBeatLeft(f.r.cur);
  }

  lemma LastBeatLeft(c: Cursor)
    ensures LastBeat(c) ==> BeatsLeft(c)
  {
  }

  lemma {:induction false} ReadInvAlways(ins: seq<Input>)
    ensures ReadInv(Run(ins).r)
  {
    hide Next, ReadInv;
    if |ins| == 0 {
      ReadInvAtReset();
    } else {
      ReadInvAlways(ins[..|ins| - 1]);
      ReadInvStep(Run(ins[..|ins| - 1]), ins[|ins| - 1]);
    }
  }

  lemma ReadInvAtReset()
    ensures ReadInv(ResetRead())
  {
  }

  /** The burst that cursor c opens is at beat n. */
  predicate BurstAt(r: ReadRegs, c: Cursor, n: nat) { r.arFlag && r.cur == CursorAt(c, n) }

  lemma BurstOpens(f: Regs, i: Input)
    requires f.Valid() && ReadInv(f.r) && AcceptsRead(f, i)
    ensures BurstAt(Next(f, i).r, Start(i.araddr, i.arburst, i.arlen), 0) && !Next(f, i).r.rvalid
  {
    hide WriteNext, StatusNext, DataOutNext, Core.Next, CoreInput, HashBusy;
  }

  lemma BurstStep(f: Regs, i: Input, c: Cursor, n: nat)
    requires f.Valid() && ReadInv(f.r) && i.resetN && BurstAt(f.r, c, n)
    requires c.cntr == Octet(0) && n <= c.len.bits as int
    ensures !ReadBeat(f.r, i) ==> BurstAt(Next(f, i).r, c, n)
    ensures ReadBeat(f.r, i) && n < c.len.bits as int ==> BurstAt(Next(f, i).r, c, n + 1)
    ensures ReadBeat(f.r, i) && n == c.len.bits as int ==> !Next(f, i).r.arFlag
    ensures !f.r.rvalid ==> Next(f, i).r.rvalid
    ensures Next(f, i).r.rvalid <==> !ReadBeat(f.r, i)
    ensures f.r.rvalid ==> (f.r.rlast <==> n == c.len.bits as int)
  {
    hide WriteNext, StatusNext, DataOutNext, Core.Next, CoreInput, HashBusy, Advance, BeatsLeft, LastBeat;
    CursorAtBeat(c, n);
  }

  /** The data of a read beat was taken from the register file in the cycle before. */
  lemma SampledOneCycleBefore(f: Regs, i: Input)
    requires f.Valid() && ReadInv(f.r) && i.resetN && Next(f, i).r.rvalid
    ensures RData(Next(f, i)) == ReadMux(f, i, Next(f, i).r.cur.addr)
  {
    hide WriteNext, StatusNext, Core.Next, CoreInput, HashBusy, Advance, ReadMux;
  }

  /** No other read address is taken over during the run. */
  predicate NoNewRead(f: Regs, ins: seq<Input>)
    requires f.Valid()
  {
    forall k :: 0 <= k < |ins| ==> !AcceptsRead(Steps(f, ins[..k]), ins[k])
  }

  /** Where a run stands in the burst that cursor c opened, for any pattern of RREADY. */
  ghost predicate InBurst(f: Regs, ins: seq<Input>, c: Cursor)
    requires f.Valid()
  {
    var g, n, len := Steps(f, ins).r, |Delivered(f, ins)|, c.len.bits as int;
    && ReadInv(g)
    && (n <= len ==> BurstAt(g, c, n))
    && (NoNewRead(f, ins) ==> n <= len + 1 && (n == len + 1 <==> !g.arFlag))
  }

  lemma InBurstStep(f: Regs, ins: seq<Input>, i: Input, c: Cursor)
    requires f.Valid() && i.resetN && c.cntr == Octet(0) && InBurst(f, ins, c)
    ensures InBurst(f, ins + [i], c)
  {
    hide Next, ReadInv, BurstAt;
    assert (ins + [i])[..|ins|] == ins;
    var g, n := Steps(f, ins), |Delivered(f, ins)|;
    ReadInvStep(g, i);
    if n <= c.len.bits as int {
      BurstStep(g, i, c, n);
      StaysOpen(g, i, c, n);
    }
    if NoNewRead(f, ins + [i]) {
      assert NoNewRead(f, ins) by {
        assert forall k :: 0 <= k < |ins| ==> (ins + [i])[..k] == ins[..k] && (ins + [i])[k] == ins[k];
      }
      assert (ins + [i])[|ins|] == i && !AcceptsRead(g, i);
      StaysClosed(g, i);
    }
  }

  lemma StaysOpen(g: Regs, i: Input, c: Cursor, n: nat)
    requires g.Valid() && ReadInv(g.r) && i.resetN && BurstAt(g.r, c, n)
    requires c.cntr == Octet(0) && n <= c.len.bits as int
    ensures Next(g, i).r.arFlag <==> !(ReadBeat(g.r, i) && n == c.len.bits as int)
  {
    hide WriteNext, StatusNext, DataOutNext, Core.Next, CoreInput, HashBusy, Advance, BeatsLeft, LastBeat, CursorAt;
    CursorAtBeat(c, n);
  }

  lemma StaysClosed(g: Regs, i: Input)
    requires g.Valid() && ReadInv(g.r) && i.resetN && !AcceptsRead(g, i)
    ensures !g.r.arFlag ==> !Next(g, i).r.arFlag && !ReadBeat(g.r, i)
  {
    hide WriteNext, StatusNext, DataOutNext, Core.Next, CoreInput, HashBusy;
  }

  /**
   * Exactly ARLEN + 1 beats follow an accepted read address, whatever RREADY does: the burst is open
   * until the last of them, and after it nothing is delivered before another address is taken.
   */
  lemma {:induction false} BurstLength(f: Regs, ins: seq<Input>, c: Cursor)
    requires f.Valid() && ReadInv(f.r) && BurstAt(f.r, c, 0) && c.cntr == Octet(0) && NoBusReset(ins)
    ensures InBurst(f, ins, c)
  {
    hide Next;
    if |ins| > 0 {
      hide BurstAt, InBurst;
      var n := |ins| - 1;
      BurstLength(f, ins[..n], c);
      assert ins == ins[..n] + [ins[n]];
      InBurstStep(f, ins[..n], ins[n], c);
    }
  }

  /**
   * While beat k of the burst is on the bus, it is the register at the k-th burst address, sampled one
   * cycle earlier, and RLAST marks exactly the last beat.
   */
  lemma BeatOnBus(f: Regs, ins: seq<Input>, c: Cursor)
    requires f.Valid() && ReadInv(f.r) && BurstAt(f.r, c, 0) && c.cntr == Octet(0) && !f.r.rvalid && NoBusReset(ins)
    requires Steps(f, ins).r.rvalid && |Delivered(f, ins)| <= c.len.bits as int
    ensures |ins| > 0
    ensures var k, n := |Delivered(f, ins)|, |ins| - 1;
            && RData(Steps(f, ins))
               == ReadMux(Steps(f, ins[..n]), ins[n], Octet(BeatAddr(c.addr.bits, c.burst, c.len.bits, k)))
            && (Steps(f, ins).r.rlast <==> k == c.len.bits as int)
  {
    hide Next, ReadMux, BeatAddr;
    var n := |ins| - 1;
    BurstLength(f, ins, c);
    BurstLength(f, ins[..n], c);
    SampledOneCycleBefore(Steps(f, ins[..n]), ins[n]);
    AddressOf(Steps(f, ins).r, c, |Delivered(f, ins)|);
  }

  lemma AddressOf(r: ReadRegs, c: Cursor, n: nat)
    requires BurstAt(r, c, n) && c.cntr == Octet(0) && n <= c.len.bits as int
    ensures r.cur.addr == Octet(BeatAddr(c.addr.bits, c.burst, c.len.bits, n))
    ensures LastBeat(r.cur) <==> n == c.len.bits as int
  {
    hide NextAddr;
    CursorAtBeat(c, n);
  }

  /** With RREADY held high, a beat takes two cycles. */
  lemma {:induction false} BeatEveryOtherCycle(f: Regs, ins: seq<Input>, c: Cursor)
    requires f.Valid() && ReadInv(f.r) && BurstAt(f.r, c, 0) && c.cntr == Octet(0) && !f.r.rvalid && NoBusReset(ins)
    requires |ins| <= 2 * (c.len.bits as int + 1)
    requires forall k :: 0 <= k < |ins| ==> ins[k].rready
    ensures |Delivered(f, ins)| == |ins| / 2
    ensures Steps(f, ins).r.rvalid <==> |ins| % 2 == 1
  {
    hide Next, ReadInv, BurstAt, NoNewRead, CursorAt, BeatAddr, RData;
    if |ins| > 0 {
      var n := |ins| - 1;
      BeatEveryOtherCycle(f, ins[..n], c);
      BurstLength(f, ins[..n], c);
      BurstStep(Steps(f, ins[..n]), ins[n], c, |Delivered(f, ins[..n])|);
    }
  }

  // ---- Reading the hash ----

  lemma WordStep(addr: bv8, n: nat)
    requires addr & 3 == 0 && (addr >> 2) as int == n < 63
    ensures NextAddr(addr, INCR, 7) & 3 == 0 && (NextAddr(addr, INCR, 7) >> 2) as int == n + 1
  {
    assert addr >> 2 < 63;
    assert NextAddr(addr, INCR, 7) >> 2 == (addr >> 2) + 1;
  }

  lemma {:induction false} HashAddresses(k: nat)
    requires k < 8
    ensures BeatAddr(0x20, INCR, 7, k) & 3 == 0 && (BeatAddr(0x20, INCR, 7, k) >> 2) as int == 8 + k
  {
    hide NextAddr;
    if k > 0 {
      HashAddresses(k - 1);
      WordStep(BeatAddr(0x20, INCR, 7, k - 1), 7 + k);
    }
  }

  lemma MuxOfHash(addr: bv8, k: nat, status: Word, hash: seq<Word>)
    requires |hash| == 8 && k < 8 && (addr >> 2) as int == 8 + k
    ensures Mux(Octet(addr), status, hash) == hash[k]
  {
    var index := addr >> 2;
    assert 8 <= index < 16;
    assert (index - 8) as int == index as int - 8;
  }

  /** An eight-beat burst from 0x20 reads the eight hash words in order, each as it was one cycle before its beat. */
  lemma HashBurst(f: Regs, ins: seq<Input>, c: Cursor)
    requires f.Valid() && ReadInv(f.r) && BurstAt(f.r, c, 0) && !f.r.rvalid && NoBusReset(ins)
    requires c == Start(Octet(0x20), INCR, Octet(7))
    requires Steps(f, ins).r.rvalid && |Delivered(f, ins)| <= 7
    ensures |ins| > 0
    ensures var k, n := |Delivered(f, ins)|, |ins| - 1;
            var g := Steps(f, ins[..n]);
            RData(Steps(f, ins)) == Core.HashOut(Core.Visible(g.core, CoreResetN(g, ins[n])))[k]
  {
    hide Next, BeatAddr, Mux, RData, Delivered;
    BeatOnBus(f, ins, c);
    var k, n := |Delivered(f, ins)|, |ins| - 1;
    var g := Steps(f, ins[..n]);
    HashAddresses(k);
    MuxOfHash(BeatAddr(0x20, INCR, 7, k), k, g.status, Core.HashOut(Core.Visible(g.core, CoreResetN(g, ins[n]))));
  }

  // ---- A stalled beat ----

  /** Only bit 1 set: the interrupt enable. */
  function EnableWord(): Word { seq(32, n => n == 1) }

  /** A read and a write of the status register that start together; the read is stalled. */
  function StalledPins(): Input {
    Input(true, true, Octet(0), Octet(0), INCR, true, EnableWord(), [true, true, true, true], true, false,
          true, Octet(0), Octet(0), INCR, false)
  }

  lemma ThreeCycles(i: Input)
    ensures Run([i, i, i]) == Next(Next(Next(ResetRegs(), i), i), i)
  {
    hide Next, ResetRegs;
    assert [i, i, i][..2] == [i, i] && [i, i][..1] == [i] && [i][..0] == [];
    assert Steps(ResetRegs(), [i]) == Next(ResetRegs(), i);
    assert Steps(ResetRegs(), [i, i]) == Next(Steps(ResetRegs(), [i]), i);
  }

  /** So RDATA can change under RVALID: section A3.2.1 of the AXI protocol wants it stable. */
  lemma StalledDataCanChange()
    ensures var f := Run([StalledPins(), StalledPins(), StalledPins()]);
            f.r.rvalid && !StalledPins().rready && RData(Next(f, StalledPins())) != RData(f)
  {
    hide Core.Next, CoreInput;
    var i := StalledPins();
    var f1 := Next(ResetRegs(), i);
    var f2 := Next(f1, i);
    var f3 := Next(f2, i);
    ThreeCycles(i);
    assert f1.w.awFlag && f1.r.arFlag && !f1.w.wready && f1.status == Zero();
    assert f1.w.cur == f1.r.cur == Start(Octet(0), INCR, Octet(0));
    assert f2.w.awFlag && f2.w.wready && f2.r.rvalid && f2.r.arFlag && f2.w.cur == f2.r.cur == f1.w.cur;
    assert f2.status == StatusNet(Zero(), HashBusy(f1, i)) && !f2.status[1];
    assert Index(Octet(0)) == 0 && !DataWindow(Octet(0));
    assert f3.dataOut == f2.status;
    assert f3.status == Merge(f2.status, i.wdata, i.wstrb) && f3.status[1];
    assert f3.r.arFlag && f3.r.cur == f2.r.cur;
    assert Next(f3, i).dataOut == f3.status;
  }
}
