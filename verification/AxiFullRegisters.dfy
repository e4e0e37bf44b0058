/** The burst slave seen from its pins: which writes wait, what resets, and what the registers read. */
module AxiFullRegisters {
  import opened Words
  import opened AxiBurst
  import opened RegisterMap
  import opened AxiFull
  import opened AxiFullWrite
  import opened AxiFullBursts
  import R = AxiFullRead
  import Core = Sha256Core

  // ---- Which beats are words for the core ----

  /** WREADY and WVALID in a cycle of a burst beat at this byte address. */
  predicate BeatAtByte(f: Regs, i: Input, lo: nat, hi: nat) {
    WReady(f, i) && i.wvalid && lo <= f.w.cur.addr.bits as int < hi
  }

  /** The words accepted at bytes 0x40 to 0x7f since the last bus or soft reset. */
  function WordsAccepted(ins: seq<Input>): seq<Word> {
    if |ins| == 0 then []
    else
      var f, i := Run(ins[..|ins| - 1]), ins[|ins| - 1];
      var before := WordsAccepted(ins[..|ins| - 1]);
      if !i.resetN || f.status[0] then []
      else if BeatAtByte(f, i, 0x40, 0x80) then before + [i.wdata] else before
  }

  lemma BeatByByte(f: Regs, i: Input)
    ensures DataBeat(f, i) <==> BeatAtByte(f, i, 0x40, 0x80)
    ensures CoreResetN(f, i) <==> i.resetN && !f.status[0]
  {
    hide DataWindow, WReady;
    Windows(f.w.cur.addr);
    ByteBounds(f.w.cur.addr.bits);
  }

  lemma ByteBounds(x: bv8)
    ensures 0x40 <= x < 0x80 <==> 0x40 <= x as int < 0x80
    ensures x < 4 <==> x as int < 4
  {
    BitsInOrder(0x40, x);
    BitsInOrder(x, 0x7F);
    BitsInOrder(x, 3);
  }

  /** They are what the core absorbs, in order, once each. */
  lemma {:induction false} CoreAbsorbsAccepted(ins: seq<Input>)
    ensures DataBeats(ins) == WordsAccepted(ins) == Core.Absorbed(CorePins(ins))
  {
    hide Run, DataBeat, BeatAtByte, CoreResetN, Core.Absorbed, CorePins;
    CoreAbsorbsDataBeats(ins);
    if |ins| > 0 {
      CoreAbsorbsAccepted(ins[..|ins| - 1]);
      BeatByByte(Run(ins[..|ins| - 1]), ins[|ins| - 1]);
    }
  }

  /** Only beats to the data window wait for the core; the soft reset can be written while it is busy. */
  lemma OnlyDataWaits(f: Regs, i: Input)
    requires f.w.wready
    ensures !(0x40 <= f.w.cur.addr.bits < 0x80) ==> WReady(f, i)
    ensures 0x40 <= f.w.cur.addr.bits < 0x80 ==>
      (WReady(f, i) <==> !Core.Busy(f.core, Core.Input(i.resetN && !f.status[0], i.wvalid, i.wdata)))
  {
    hide DataWindow, Core.Busy;
    Windows(f.w.cur.addr);
    Core.BusyIgnoresData(f.core, i.resetN && !f.status[0], i.wvalid, false, i.wdata, i.wdata);
  }

  // ---- Resets ----

  /** The bus reset clears every register; both resets take the core back to its initial state. */
  lemma BusReset(f: Regs, i: Input)
    requires f.Valid()
    ensures !i.resetN ==>
      && Next(f, i).w == WriteRegs(false, false, Cursor(Octet(0), Octet(0), FIXED, Octet(0)), false, false)
      && Next(f, i).r == ReadRegs(false, false, Cursor(Octet(0), Octet(0), FIXED, Octet(0)), false, false)
      && Next(f, i).status == Zero() && Next(f, i).dataOut == Zero() && Next(f, i) == ResetRegs()
    ensures !i.resetN || f.status[0] ==> Next(f, i).core == Core.ResetRegs()
    ensures i.resetN && !f.status[0] ==>
      Next(f, i).core == Core.Next(f.core, Core.Input(true, BeatAtByte(f, i, 0x40, 0x80), i.wdata))
  {
    hide Core.ResetRegs, WReady, StatusAfter, DataWindow, Core.Busy;
    Windows(f.w.cur.addr);
    ByteBounds(f.w.cur.addr.bits);
  }

  // ---- The status register ----

  lemma StatusNextBit(f: Regs, i: Input, n: nat)
    requires f.Valid() && i.resetN && n < 32
    ensures Next(f, i).status[n] ==
      if BeatAtByte(f, i, 0, 4) then (if i.wstrb[n / 8] then i.wdata[n] else f.status[n])
      else if n == 8 then HashBusy(f, i) else n == 1 && f.status[1]
  {
    hide WriteNext, ReadNext, DataOutNext, Core.Next, CoreInput, HashBusy, StatusAfter, WReady, WriteEnable;
    StatusBit(f.status, HashBusy(f, i), WriteEnable(f, i), f.w.cur.addr, i.wdata, i.wstrb, n);
    ByteBounds(f.w.cur.addr.bits);
    EnableIsPins(f, i);
  }

  lemma EnableIsPins(f: Regs, i: Input)
    ensures WriteEnable(f, i) == (WReady(f, i) && i.wvalid)
  {
    hide WReady;
  }

  /** The interrupt enable that was last written. */
  function Enable(ins: seq<Input>): bool {
    if |ins| == 0 || !ins[|ins| - 1].resetN then false
    else
      var f, i := Run(ins[..|ins| - 1]), ins[|ins| - 1];
      if BeatAtByte(f, i, 0, 4) && i.wstrb[0] then i.wdata[1] else Enable(ins[..|ins| - 1])
  }

  /**
   * In every reachable state: bit 1 is what was last written to it; and after a cycle outside bus reset without a
   * status write, bit 8 shows whether the core was busy in it, and all other bits are clear.
   */
  lemma {:induction false} StatusInEveryState(ins: seq<Input>, n: nat)
    requires n < 32
    ensures Run(ins).status[1] == Enable(ins)
    ensures |ins| > 0 && ins[|ins| - 1].resetN && n != 1
            && !BeatAtByte(Run(ins[..|ins| - 1]), ins[|ins| - 1], 0, 4) ==>
      Run(ins).status[n] == (n == 8 && HashBusy(Run(ins[..|ins| - 1]), ins[|ins| - 1]))
  {
    hide Next, BeatAtByte, HashBusy;
    if |ins| > 0 {
      var f, i := Run(ins[..|ins| - 1]), ins[|ins| - 1];
      StatusInEveryState(ins[..|ins| - 1], n);
      if i.resetN {
        StatusNextBit(f, i, 1);
        StatusNextBit(f, i, n);
      } else {
        ClearedByReset(f, i);
      }
    }
  }

  lemma ClearedByReset(f: Regs, i: Input)
    requires f.Valid() && !i.resetN
    ensures Next(f, i).status == Zero()
  {
    hide Core.Next, CoreInput, WriteNext, ReadNext, DataOutNext;
  }

  // ---- What a read beat shows ----

  /** The register behind a byte address: status, hash word, or nothing. */
  predicate Shows(f: Regs, i: Input, addr: nat, dat: Word) {
    && (addr < 4 ==> dat == f.status)
    && (0x20 <= addr < 0x40 ==> dat == Core.HashOut(Core.Visible(f.core, i.resetN && !f.status[0]))[addr / 4 - 8])
    && (4 <= addr < 0x20 || 0x40 <= addr ==> forall n :: 0 <= n < 32 ==> !dat[n])
  }

  lemma MuxShows(f: Regs, i: Input, addr: Octet)
    ensures Shows(f, i, addr.bits as int, ReadMux(f, i, addr))
  {
    hide Core.HashOut, Core.Visible, Mux;
    var hash := Core.HashOut(Core.Visible(f.core, CoreResetN(f, i)));
    MuxReads(addr, f.status, hash);
    BitsInOrder(addr.bits, 3);
    BitsInOrder(0x20, addr.bits);
    BitsInOrder(addr.bits, 0x3F);
    var a := addr.bits as int;
    if 0x20 <= a < 0x40 {
      assert a / 4 == 8 + (a / 4 - 8);
    }
  }

  /** Beat k of a read burst of a defined type shows the register at the address that the protocol gives it. */
  lemma ReadFollowsAxi(f: Regs, ins: seq<Input>, c: Cursor)
    requires f.Valid() && R.ReadInv(f.r) && R.BurstAt(f.r, c, 0) && c.cntr == Octet(0) && !f.r.rvalid && NoBusReset(ins)
    requires c.burst != RESERVED && (c.burst == WRAP ==> LegalWrap(c.addr.bits, c.len.bits))
    requires Steps(f, ins).r.rvalid && |R.Delivered(f, ins)| <= c.len.bits as int
    ensures |ins| > 0
    ensures var k, n := |R.Delivered(f, ins)|, |ins| - 1;
            && BeatIndex(k) as int == k
            && Shows(Steps(f, ins[..n]), ins[n], AxiAddr(c.addr.bits, c.burst, c.len.bits, BeatIndex(k)) as int,
                     R.RData(Steps(f, ins)))
  {
    hide Next, ReadMux, BeatAddr, AxiAddr, BeatIndex, Shows, LegalWrap, R.ReadInv, R.BurstAt, R.RData, R.Delivered;
    R.BeatOnBus(f, ins, c);
    var k, n := |R.Delivered(f, ins)|, |ins| - 1;
    BurstFollowsAxi(c.addr.bits, c.burst, c.len.bits, k);
    MuxShows(Steps(f, ins[..n]), ins[n], Octet(BeatAddr(c.addr.bits, c.burst, c.len.bits, k)));
  }

  /** Beat k of a write burst of a defined type goes to the address that the protocol gives it. */
  lemma WriteFollowsAxi(f: Regs, ins: seq<Input>, c: Cursor, k: nat)
    requires f.Valid() && WriteInv(f) && BurstAt(f, c, 0) && c.cntr == Octet(0)
    requires c.burst != RESERVED && (c.burst == WRAP ==> LegalWrap(c.addr.bits, c.len.bits))
    requires NoBusReset(ins) && MarksLast(f, ins, c.len) && k < |Accepted(f, ins)| && k <= c.len.bits as int
    ensures BeatIndex(k) as int == k
    ensures Accepted(f, ins)[k].addr == Octet(AxiAddr(c.addr.bits, c.burst, c.len.bits, BeatIndex(k)))
  {
    hide Next, BeatAddr, AxiAddr, BeatIndex, LegalWrap, WriteInv, BurstAt, MarksLast, Accepted;
    BurstBeats(f, ins, c);
    BurstFollowsAxi(c.addr.bits, c.burst, c.len.bits, k);
  }

  // ---- Write and read bursts exclude each other ----

  /** A burst opens only while none is open, so two are open together only if both opened in the same cycle. */
  lemma OneBurstAtATime(f: Regs, i: Input)
    requires f.Valid() && Next(f, i).w.awFlag && Next(f, i).r.arFlag
    ensures f.w.awFlag == f.r.arFlag
    ensures !f.w.awFlag ==> i.awvalid && i.arvalid && !f.w.awready && !f.r.arready
  {
    hide StatusNext, DataOutNext, Core.Next, CoreInput, HashBusy, AwaddrNext, AraddrNext, WReady;
  }

  // ---- The address handshakes ----

  /** An address is taken in a cycle of its own, before the first beat. */
  predicate ReadyInv(f: Regs) {
    (f.w.awready ==> f.w.awFlag && !f.w.wready) && (f.r.arready ==> f.r.arFlag && !f.r.rvalid)
  }

  lemma ReadyStep(f: Regs, i: Input)
    requires f.Valid() && WriteInv(f) && R.ReadInv(f.r) && ReadyInv(f)
    ensures ReadyInv(Next(f, i))
    ensures Next(f, i).w.awready <==>
      i.resetN && i.awvalid && !f.w.awready && !f.w.awFlag && !f.r.arFlag
    ensures Next(f, i).r.arready <==>
      i.resetN && i.arvalid && !f.r.arready && !f.w.awFlag && !f.r.arFlag
    ensures Next(f, i).w.awready ==> Next(f, i).w.cur == Cursor(i.awaddr, Octet(0), i.awburst, i.awlen)
    ensures Next(f, i).r.arready ==> Next(f, i).r.cur == Cursor(i.araddr, Octet(0), i.arburst, i.arlen)
  {
    hide StatusNext, DataOutNext, Core.Next, CoreInput, HashBusy, DataWindow, Advance, BeatsLeft, LastBeat;
  }

  lemma {:induction false} ReadyInvAlways(ins: seq<Input>)
    ensures ReadyInv(Run(ins))
  {
    hide Next, WriteInv, R.ReadInv;
    if |ins| == 0 {
      assert Run(ins) == ResetRegs();
    } else {
      var before := ins[..|ins| - 1];
      ReadyInvAlways(before);
      WriteInvAlways(before);
      R.ReadInvAlways(before);
      ReadyStep(Run(before), ins[|ins| - 1]);
    }
  }

  /**
   * In every run AWREADY and ARREADY are pulses of one cycle, each the answer to an address that was on the bus while
   * no burst was open, and each loads that address.
   */
  lemma ReadyPulses(ins: seq<Input>, i: Input)
    ensures var f, f' := Run(ins), Run(ins + [i]);
            && (f'.w.awready <==> i.resetN && i.awvalid && !f.w.awready && !f.w.awFlag && !f.r.arFlag)
            && (f'.r.arready <==> i.resetN && i.arvalid && !f.r.arready && !f.w.awFlag && !f.r.arFlag)
            && (f'.w.awready ==> f'.w.cur == Cursor(i.awaddr, Octet(0), i.awburst, i.awlen))
            && (f'.r.arready ==> f'.r.cur == Cursor(i.araddr, Octet(0), i.arburst, i.arlen))
            && (f.w.awready ==> f.w.awFlag) && (f.r.arready ==> f.r.arFlag)
  {
    hide Next, WriteInv, R.ReadInv;
    assert (ins + [i])[..|ins|] == ins;
    ReadyInvAlways(ins);
    WriteInvAlways(ins);
    R.ReadInvAlways(ins);
    ReadyStep(Run(ins), i);
  }
}
