/** sha256_axi_v1_0_S00_AXI.v: the write side of the AXI4-Lite slave, its status register and the core behind it. */
module AxiLite {
  import opened Words
  import opened AxiBurst
  import opened RegisterMap
  import Core = Sha256Core

  /** The input pins of the write channels during one clock cycle. */
  datatype Input = Input(
    resetN: bool,
    awvalid: bool, awaddr: Octet,
    wvalid: bool, wdata: Word, wstrb: Strobe,
    bready: bool)

  /** The handshake registers. */
  datatype WriteRegs = WriteRegs(awready: bool, awEn: bool, awaddr: Octet, wready: bool, bvalid: bool)

  datatype Regs = Regs(w: WriteRegs, status: Word, core: Core.Regs) {
    predicate Valid() { core.Valid() }
  }

  function ResetWrite(): WriteRegs { WriteRegs(false, true, Octet(0), false, false) }

  function ResetRegs(): (f: Regs)
    ensures f.Valid()
  {
    Regs(ResetWrite(), Zero(), Core.ResetRegs())
  }

  // ---- Combinational nets ----

  /** slv_reg_wren */
  predicate WriteStrobe(w: WriteRegs, i: Input) { w.wready && i.wvalid && w.awready && i.awvalid }

  /** sha256_rst_n */
  predicate CoreResetN(f: Regs, i: Input) { i.resetN && !f.status[0] }

  /** The pins of the core: nothing here looks at busy. */
  function CoreInput(f: Regs, i: Input): Core.Input {
    Core.Input(CoreResetN(f, i), WriteStrobe(f.w, i) && DataWindow(f.w.awaddr), i.wdata)
  }

  // ---- Next state ----

  /** Address and data are both on the bus and no write is under way. */
  predicate Grants(w: WriteRegs, i: Input) { !w.awready && i.awvalid && i.wvalid && w.awEn }

  function WriteNext(w: WriteRegs, i: Input): WriteRegs {
    if !i.resetN then ResetWrite()
    else
      WriteRegs(
        Grants(w, i),
        if Grants(w, i) then false else if i.bready && w.bvalid then true else w.awEn,
        if Grants(w, i) then i.awaddr else w.awaddr,
        !w.wready && i.wvalid && i.awvalid && w.awEn,
        if WriteStrobe(w, i) && !w.bvalid then true else if i.bready && w.bvalid then false else w.bvalid)
  }

  function StatusNext(f: Regs, i: Input): Word {
    if !i.resetN then Zero()
    else StatusAfter(f.status, Core.Busy(f.core, CoreInput(f, i)), WriteStrobe(f.w, i), f.w.awaddr, i.wdata, i.wstrb)
  }

  function Next(f: Regs, i: Input): (f': Regs)
    requires f.Valid()
    ensures f'.Valid()
  {
    Regs(WriteNext(f.w, i), StatusNext(f, i), Core.Next(f.core, CoreInput(f, i)))
  }

  /** The registers after a run that starts from bus reset. */
  function Run(ins: seq<Input>): (f: Regs)
    ensures f.Valid()
  {
    if |ins| == 0 then ResetRegs() else Next(Run(ins[..|ins| - 1]), ins[|ins| - 1])
  }

  // ---- The clocked module ----

  /** The always blocks of the write handshake. */
  class WriteSide {
    var awready: bool
    var awEn: bool
    var awaddr: Octet
    var wready: bool
    var bvalid: bool

    function Registers(): WriteRegs
      reads this
    {
      WriteRegs(awready, awEn, awaddr, wready, bvalid)
    }

    constructor ()
      ensures Registers() == ResetWrite()
    {
      awready, awEn, awaddr, wready, bvalid := false, true, Octet(0), false, false;
    }

    method Tick(i: Input)
      modifies this
      ensures Registers() == WriteNext(old(Registers()), i)
    {
      var awready', awEn', awaddr', wready', bvalid' := awready, awEn, awaddr, wready, bvalid;
      if !i.resetN {
        awready', awEn', awaddr', wready', bvalid' := false, true, Octet(0), false, false;
      } else {
        if !awready && i.awvalid && i.wvalid && awEn {
          awready', awEn', awaddr' := true, false, i.awaddr;
        } else if i.bready && bvalid {
          awready', awEn' := false, true;
        } else {
          awready' := false;
        }
        wready' := !wready && i.wvalid && i.awvalid && awEn;
        if awready && i.awvalid && !bvalid && wready && i.wvalid {
          bvalid' := true;
        } else if i.bready && bvalid {
          bvalid' := false;
        }
      }
      awready, awEn, awaddr, wready, bvalid := awready', awEn', awaddr', wready', bvalid';
    }
  }

  class Slave {
    const write: WriteSide
    var status: Word
    const core: Core.Sha256

    ghost predicate Valid()
      reads core, core.process
    {
      core.Valid()
    }

    function Registers(): (f: Regs)
      reads this, write
      reads core, core.process, core.process.W, core.compress.H8, core.compress.abcdefgh, core.compress.stage
      requires Valid()
      ensures f.Valid()
    {
      Regs(write.Registers(), status, core.Registers())
    }

    constructor ()
      ensures Valid() && Registers() == ResetRegs()
    {
      write := new WriteSide();
      status := Zero();
      core := new Core.Sha256();
    }

    /** One clock cycle: all nets are taken from the state before the edge. */
    method Tick(i: Input)
      requires Valid()
      modifies this, write
      modifies core, core.process, core.process.W, core.compress.H8, core.compress.abcdefgh, core.compress.stage
      ensures Valid() && Registers() == Next(old(Registers()), i)
    {
      hide WriteNext, StatusNext, Core.Next, CoreInput;
      var f := Registers();
      status := StatusNext(f, i);
      write.Tick(i);
      core.Tick(CoreInput(f, i));
    }
  }

  // ---- The handshake, for any master ----

  predicate HandshakeInv(f: Regs) {
    && f.w.awready == f.w.wready
    && (f.w.awEn ==> !f.w.awready && !f.w.bvalid)
    && !(f.w.awready && f.w.bvalid)
    && (f.status[0] ==> !f.w.awready)
  }

  lemma HandshakeStep(f: Regs, i: Input)
    requires f.Valid() && HandshakeInv(f)
    ensures HandshakeInv(Next(f, i))
  {
    hide Core.Next, CoreInput, Core.Busy, Index;
  }

  lemma {:induction false} HandshakeAlways(ins: seq<Input>)
    ensures HandshakeInv(Run(ins))
  {
    hide Next, HandshakeInv;
    if |ins| == 0 {
      HandshakeAtReset();
    } else {
      HandshakeAlways(ins[..|ins| - 1]);
      HandshakeStep(Run(ins[..|ins| - 1]), ins[|ins| - 1]);
    }
  }

  lemma HandshakeAtReset()
    ensures HandshakeInv(ResetRegs())
  {
  }

  /** The register writes since bus reset. */
  function Writes(ins: seq<Input>): nat {
    if |ins| == 0 || !ins[|ins| - 1].resetN then 0
    else
      Writes(ins[..|ins| - 1]) + if WriteStrobe(Run(ins[..|ins| - 1]).w, ins[|ins| - 1]) then 1 else 0
  }

  /** The responses handed over since bus reset. */
  function Responses(ins: seq<Input>): nat {
    if |ins| == 0 || !ins[|ins| - 1].resetN then 0
    else
      Responses(ins[..|ins| - 1]) + if Run(ins[..|ins| - 1]).w.bvalid && ins[|ins| - 1].bready then 1 else 0
  }

  /** Every register write is answered once: no master can make the slave lose or repeat a response. */
  lemma {:induction false} WritesAreAnswered(ins: seq<Input>)
    ensures Writes(ins) == Responses(ins) + if Run(ins).w.bvalid then 1 else 0
  {
    hide Core.Next, CoreInput, StatusNext;
    if |ins| > 0 {
      WritesAreAnswered(ins[..|ins| - 1]);
      HandshakeAlways(ins[..|ins| - 1]);
    }
  }

  /** Some master let go of a valid in the very cycle in which the slave was ready, after the last bus reset. */
  predicate LetGo(ins: seq<Input>) {
    |ins| > 0 && ins[|ins| - 1].resetN
    && var f, i := Run(ins[..|ins| - 1]), ins[|ins| - 1];
       LetGo(ins[..|ins| - 1]) || (f.w.awready && !(i.awvalid && i.wvalid))
  }

  /**
   * The slave can take a new write exactly when none is under way and none was ever abandoned. An
   * abandoned write blocks the slave until the next bus reset.
   */
  lemma {:induction false} EnabledExactly(ins: seq<Input>)
    ensures Run(ins).w.awEn <==> !Run(ins).w.awready && !Run(ins).w.bvalid && !LetGo(ins)
    ensures LetGo(ins) ==> !Run(ins).w.awready && !Run(ins).w.bvalid
  {
    hide Core.Next, CoreInput, StatusNext;
    if |ins| > 0 {
      EnabledExactly(ins[..|ins| - 1]);
      HandshakeAlways(ins[..|ins| - 1]);
    }
  }

  predicate HeldAfter(ins: seq<Input>, k: nat)
    requires k + 1 < |ins|
  {
    ins[k].resetN && ins[k + 1].resetN ==>
      && (ins[k].awvalid && !Run(ins[..k]).w.awready ==> ins[k + 1].awvalid)
      && (ins[k].wvalid && !Run(ins[..k]).w.wready ==> ins[k + 1].wvalid)
  }

  /** What the protocol asks of a master outside reset: a valid stays until its handshake. */
  predicate HoldsValids(ins: seq<Input>) { forall k :: 0 <= k < |ins| - 1 ==> HeldAfter(ins, k) }

  /** Such a master never abandons a write, so the slave stays usable. */
  lemma {:induction false} HoldingIsEnough(ins: seq<Input>)
    requires HoldsValids(ins)
    ensures !LetGo(ins)
    ensures Run(ins).w.awready ==> |ins| > 0 && ins[|ins| - 1].resetN && !Run(ins[..|ins| - 1]).w.awready
                                   && ins[|ins| - 1].awvalid && ins[|ins| - 1].wvalid
  {
    hide Core.Next, CoreInput, StatusNext;
    if |ins| > 0 {
      var n := |ins| - 1;
      HoldsPrefix(ins);
      HoldingIsEnough(ins[..n]);
      HandshakeAlways(ins[..n]);
      if n > 0 {
        HandshakeAlways(ins[..n - 1]);
        assert HeldAfter(ins, n - 1);
        assert ins[..n][..n - 1] == ins[..n - 1] && ins[..n][n - 1] == ins[n - 1];
      }
    }
  }

  lemma HoldsPrefix(ins: seq<Input>)
    requires |ins| > 0 && HoldsValids(ins)
    ensures HoldsValids(ins[..|ins| - 1])
  {
    hide Run;
    var before := ins[..|ins| - 1];
    forall k | 0 <= k < |before| - 1
      ensures HeldAfter(before, k)
    {
      assert HeldAfter(ins, k) && before[..k] == ins[..k];
    }
  }

  // ---- The soft reset ----

  /** It returns the core to its initial state from any state, lasts one cycle, and no write falls into that cycle. */
  lemma SoftResetOnce(ins: seq<Input>, i: Input)
    requires Run(ins).status[0] && i.resetN
    ensures Next(Run(ins), i).core == Core.ResetRegs()
    ensures !Next(Run(ins), i).status[0] && !WriteStrobe(Run(ins).w, i)
  {
    hide Run, Core.Busy, Index;
    HandshakeAlways(ins);
  }

  // ---- Data writes: the only front end that does not push back ----

  function CorePins(ins: seq<Input>): (pins: seq<Core.Input>)
    ensures |pins| == |ins|
  {
    if |ins| == 0 then []
    else CorePins(ins[..|ins| - 1]) + [CoreInput(Run(ins[..|ins| - 1]), ins[|ins| - 1])]
  }

  predicate DataWrite(f: Regs, i: Input) { WriteStrobe(f.w, i) && DataWindow(f.w.awaddr) }

  /** The words written to the data window since the core was last reset. */
  function DataWrites(ins: seq<Input>): seq<Word> {
    if |ins| == 0 then []
    else
      var f, i := Run(ins[..|ins| - 1]), ins[|ins| - 1];
      var before := DataWrites(ins[..|ins| - 1]);
      if !CoreResetN(f, i) then [] else if DataWrite(f, i) then before + [i.wdata] else before
  }

  /** Those of them that found the core busy. */
  function WritesWhileBusy(ins: seq<Input>): nat {
    if |ins| == 0 then 0
    else
      var f, i := Run(ins[..|ins| - 1]), ins[|ins| - 1];
      var before := WritesWhileBusy(ins[..|ins| - 1]);
      if !CoreResetN(f, i) then 0
      else if DataWrite(f, i) && Core.Busy(f.core, CoreInput(f, i)) then before + 1 else before
  }

  lemma {:induction false} CoreRuns(ins: seq<Input>)
    ensures Run(ins).core == Core.Run(CorePins(ins))
  {
    hide WriteNext, StatusNext, Core.Next, CoreInput;
    if |ins| == 0 {
      assert Core.Run([]) == Core.ResetRegs();
    } else {
      CoreRuns(ins[..|ins| - 1]);
      assert CorePins(ins)[..|ins| - 1] == CorePins(ins[..|ins| - 1]);
    }
  }

  /**
   * Writes to a busy core are acknowledged and dropped, no others are: the core absorbs every word iff there were
   * none.
   */
  lemma {:induction false} BusyWritesAreDropped(ins: seq<Input>)
    ensures |Core.Absorbed(CorePins(ins))| + WritesWhileBusy(ins) == |DataWrites(ins)|
    ensures Core.Absorbed(CorePins(ins)) == DataWrites(ins) <==> WritesWhileBusy(ins) == 0
  {
    hide Next, Core.Next, WriteStrobe, Core.Busy, DataWindow;
    if |ins| > 0 {
      var before, pins := ins[..|ins| - 1], CorePins(ins);
      BusyWritesAreDropped(before);
      CoreRuns(before);
      assert pins[..|pins| - 1] == CorePins(before);
    }
  }

  // ---- The same from the pins ----

  /** An address that is offered and not taken is offered again, unchanged. */
  predicate AddressHeldAfter(ins: seq<Input>, k: nat)
    requires k + 1 < |ins|
  {
    ins[k].resetN && ins[k + 1].resetN && ins[k].awvalid && !Run(ins[..k]).w.awready ==>
      ins[k + 1].awvalid && ins[k + 1].awaddr == ins[k].awaddr
  }

  predicate HoldsAddress(ins: seq<Input>) { forall k :: 0 <= k < |ins| - 1 ==> AddressHeldAfter(ins, k) }

  /** The write handshake of both channels, on the pins. */
  predicate Handshake(f: Regs, i: Input) { f.w.awready && i.awvalid && f.w.wready && i.wvalid }

  lemma AwreadyFollowsGrant(f: Regs, i: Input)
    requires f.Valid() && Next(f, i).w.awready
    ensures i.resetN && i.awvalid && !f.w.awready && Next(f, i).w.awaddr == i.awaddr
  {
    hide Core.Next, CoreInput, StatusNext;
  }

  /** A write goes to the address that is on the bus in the cycle of its handshake. */
  lemma LatchedAddress(ins: seq<Input>, i: Input)
    requires HoldsAddress(ins + [i]) && i.resetN && Run(ins).w.awready
    ensures Run(ins).w.awaddr == i.awaddr
  {
    hide Next;
    var n, all := |ins| - 1, ins + [i];
    if |ins| > 0 {
      AwreadyFollowsGrant(Run(ins[..n]), ins[n]);
      assert all[..n] == ins[..n] && all[n] == ins[n];
      assert AddressHeldAfter(all, n);
    } else {
      NotReadyAtReset();
    }
  }

  lemma NotReadyAtReset()
    ensures !ResetRegs().w.awready
  {
  }

  /** The words written to bytes 0x40 to 0x7f since the last reset; or only those that found the core ready. */
  function PinWrites(ins: seq<Input>, ready: bool): seq<Word> {
    if |ins| == 0 then []
    else
      var f, i := Run(ins[..|ins| - 1]), ins[|ins| - 1];
      var before := PinWrites(ins[..|ins| - 1], ready);
      if !i.resetN || f.status[0] then []
      else if Handshake(f, i) && 0x40 <= i.awaddr.bits < 0x80
              && !(ready && Core.Busy(f.core, Core.Input(true, false, i.wdata)))
      then before + [i.wdata] else before
  }

  lemma HoldsAddressPrefix(ins: seq<Input>)
    requires |ins| > 0 && HoldsAddress(ins)
    ensures HoldsAddress(ins[..|ins| - 1])
  {
    hide Run;
    var before := ins[..|ins| - 1];
    forall k | 0 <= k < |before| - 1
      ensures AddressHeldAfter(before, k)
    {
      assert AddressHeldAfter(ins, k) && before[..k] == ins[..k];
    }
  }

  lemma StrobeOnPins(f: Regs, i: Input)
    ensures DataWrite(f, i) <==> Handshake(f, i) && 0x40 <= f.w.awaddr.bits < 0x80
    ensures CoreInput(f, i) == Core.Input(i.resetN && !f.status[0], DataWrite(f, i), i.wdata)
  {
    hide DataWindow;
    Windows(f.w.awaddr);
  }

  /**
   * From the pins of a master that holds its address: what is written to 0x40 to 0x7f is exactly what the counts above
   * speak of, and what the core absorbs is exactly those of these words that found it ready, in order.
   */
  lemma {:induction false} WritesGoWhereAddressed(ins: seq<Input>)
    requires HoldsAddress(ins)
    ensures DataWrites(ins) == PinWrites(ins, false)
    ensures Core.Absorbed(CorePins(ins)) == PinWrites(ins, true)
  {
    hide Next, DataWrite, Core.Busy, CoreInput, Handshake, HoldsAddress, Run;
    if |ins| > 0 {
      var before, i, pins := ins[..|ins| - 1], ins[|ins| - 1], CorePins(ins);
      HoldsAddressPrefix(ins);
      WritesGoWhereAddressed(before);
      CoreRuns(before);
      assert pins[..|pins| - 1] == CorePins(before);
      assert ins == before + [i];
      var f := Run(before);
      StrobeOnPins(f, i);
      Core.BusyIgnoresData(f.core, true, false, DataWrite(f, i), i.wdata, i.wdata);
      if i.resetN && Handshake(f, i) {
        ReadyToShake(f, i);
        LatchedAddress(before, i);
      }
    }
  }

  lemma ReadyToShake(f: Regs, i: Input)
    requires Handshake(f, i)
    ensures f.w.awready
  {
  }

  /** The bus reset takes everything back; the only register that is then set is aw_en. */
  lemma BusReset(f: Regs, i: Input)
    requires f.Valid() && !i.resetN
    ensures Next(f, i) == Regs(WriteRegs(false, true, Octet(0), false, false), Zero(), Core.ResetRegs())
    ensures ResetRegs() == Next(f, i)
  {
  }

  /** The interrupt enable that was last written. */
  function Enable(ins: seq<Input>): bool {
    if |ins| == 0 || !ins[|ins| - 1].resetN then false
    else
      var f, i := Run(ins[..|ins| - 1]), ins[|ins| - 1];
      if Handshake(f, i) && f.w.awaddr.bits < 4 && i.wstrb[0] then i.wdata[1] else Enable(ins[..|ins| - 1])
  }

  /** Bit 1 keeps what was written to it, through soft resets too. */
  lemma {:induction false} EnableIsKept(ins: seq<Input>)
    ensures Run(ins).status[1] == Enable(ins)
  {
    hide Core.Next, CoreInput, WriteNext, StatusAfter, Core.Busy;
    if |ins| > 0 {
      EnableIsKept(ins[..|ins| - 1]);
      var f, i := Run(ins[..|ins| - 1]), ins[|ins| - 1];
      StatusBit(f.status, Core.Busy(f.core, CoreInput(f, i)), WriteStrobe(f.w, i), f.w.awaddr, i.wdata, i.wstrb, 1);
    }
  }
}
