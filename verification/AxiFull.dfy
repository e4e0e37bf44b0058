/** sha256_full_v1_0_S00_AXI.v: the burst slave in front of the core. */
module AxiFull {
  import opened Words
  import opened AxiBurst
  import opened RegisterMap
  import Core = Sha256Core

  /** The input pins during one clock cycle. */
  datatype Input = Input(
    resetN: bool,
    awvalid: bool, awaddr: Octet, awlen: Octet, awburst: BurstType,
    wvalid: bool, wdata: Word, wstrb: Strobe, wlast: bool,
    bready: bool,
    arvalid: bool, araddr: Octet, arlen: Octet, arburst: BurstType,
    rready: bool)

  /** axi_awready, axi_awv_awr_flag, the write address registers, axi_wready and axi_bvalid. */
  datatype WriteRegs = WriteRegs(awready: bool, awFlag: bool, cur: Cursor, wready: bool, bvalid: bool)

  /** axi_arready, axi_arv_arr_flag, the read address registers, axi_rlast and axi_rvalid. */
  datatype ReadRegs = ReadRegs(arready: bool, arFlag: bool, cur: Cursor, rlast: bool, rvalid: bool)

  datatype Regs = Regs(w: WriteRegs, r: ReadRegs, status: Word, dataOut: Word, core: Core.Regs) {
    predicate Valid() { core.Valid() }
  }

  function ResetCursor(): Cursor { Cursor(Octet(0), Octet(0), FIXED, Octet(0)) }

  function ResetWrite(): WriteRegs { WriteRegs(false, false, ResetCursor(), false, false) }

  function ResetRead(): ReadRegs { ReadRegs(false, false, ResetCursor(), false, false) }

  /** After at least one cycle of bus reset. */
  function ResetRegs(): (f: Regs)
    ensures f.Valid()
  {
    Regs(ResetWrite(), ResetRead(), Zero(), Zero(), Core.ResetRegs())
  }

  // ---- Combinational nets ----

  /** rst_n: bit 0 of the status register is the soft reset. */
  function CoreResetN(f: Regs, i: Input): bool { i.resetN && !f.status[0] }

  /** hash_busy_o, which does not look at the data pins. */
  function HashBusy(f: Regs, i: Input): bool {
    Core.Busy(f.core, Core.Input(CoreResetN(f, i), false, i.wdata))
  }

  /** S_AXI_WREADY: a data beat waits while the core is busy. */
  function WReady(f: Regs, i: Input): bool { f.w.wready && !(HashBusy(f, i) && DataWindow(f.w.cur.addr)) }

  /** reg_write_en: a write beat is accepted. */
  function WriteEnable(f: Regs, i: Input): bool { WReady(f, i) && i.wvalid }

  /** The pins of the core. */
  function CoreInput(f: Regs, i: Input): Core.Input {
    Core.Input(CoreResetN(f, i), WriteEnable(f, i) && DataWindow(f.w.cur.addr), i.wdata)
  }

  // ---- Next state, one function for each always block ----

  function AwreadyNext(w: WriteRegs, arFlag: bool, wReady: bool, i: Input): (bool, bool) {
    if !i.resetN then (false, false)
    else if !w.awready && i.awvalid && !w.awFlag && !arFlag then (true, true)
    else if i.wlast && wReady then (w.awready, false)
    else (false, w.awFlag)
  }

  /** The address registers load whenever no write burst is open, even if the address is not accepted. */
  predicate AwLatch(w: WriteRegs, i: Input) { !w.awready && i.awvalid && !w.awFlag }

  function AwaddrNext(w: WriteRegs, wReady: bool, i: Input): Cursor {
    if !i.resetN then ResetCursor()
    else if AwLatch(w, i) then Start(i.awaddr, i.awburst, i.awlen)
    else if wReady && i.wvalid then Advance(w.cur)
    else w.cur
  }

  function WreadyNext(w: WriteRegs, i: Input): bool {
    if !i.resetN then false
    else if !w.wready && i.wvalid && w.awFlag then true
    else if i.wlast && w.wready then false
    else w.wready
  }

  function BvalidNext(w: WriteRegs, wReady: bool, i: Input): bool {
    if !i.resetN then false
    else if w.awFlag && wReady && i.wvalid && !w.bvalid && i.wlast then true
    else if i.bready && w.bvalid then false
    else w.bvalid
  }

  function WriteNext(w: WriteRegs, arFlag: bool, wReady: bool, i: Input): WriteRegs {
    var aw := AwreadyNext(w, arFlag, wReady, i);
    WriteRegs(aw.0, aw.1, AwaddrNext(w, wReady, i), WreadyNext(w, i), BvalidNext(w, wReady, i))
  }

  /** A read beat is handed over. */
  predicate ReadBeat(r: ReadRegs, i: Input) { r.rvalid && i.rready }

  function ArreadyNext(r: ReadRegs, awFlag: bool, i: Input): (bool, bool) {
    if !i.resetN then (false, false)
    else if !r.arready && i.arvalid && !awFlag && !r.arFlag then (true, true)
    else if ReadBeat(r, i) && LastBeat(r.cur) then (r.arready, false)
    else (false, r.arFlag)
  }

  predicate ArLatch(r: ReadRegs, i: Input) { !r.arready && i.arvalid && !r.arFlag }

  function AraddrNext(r: ReadRegs, i: Input): (Cursor, bool) {
    if !i.resetN then (ResetCursor(), false)
    else if ArLatch(r, i) then (Start(i.araddr, i.arburst, i.arlen), false)
    else if BeatsLeft(r.cur) && ReadBeat(r, i) then (Advance(r.cur), false)
    else if LastBeat(r.cur) && !r.rlast && r.arFlag then (r.cur, true)
    else (r.cur, if i.rready then false else r.rlast)
  }

  function RvalidNext(r: ReadRegs, i: Input): bool {
    if !i.resetN then false
    else if r.arFlag && !r.rvalid then true
    else if ReadBeat(r, i) then false
    else r.rvalid
  }

  function ReadNext(r: ReadRegs, awFlag: bool, i: Input): ReadRegs {
    var ar := ArreadyNext(r, awFlag, i);
    var addr := AraddrNext(r, i);
    ReadRegs(ar.0, ar.1, addr.0, addr.1, RvalidNext(r, i))
  }

  function StatusNext(f: Regs, i: Input): Word {
    if !i.resetN then Zero()
    else StatusAfter(f.status, HashBusy(f, i), WriteEnable(f, i), f.w.cur.addr, i.wdata, i.wstrb)
  }

  /** The register that the read channel samples. */
  function ReadMux(f: Regs, i: Input, addr: Octet): Word {
    Mux(addr, f.status, Core.HashOut(Core.Visible(f.core, CoreResetN(f, i))))
  }

  function DataOutNext(f: Regs, i: Input): Word {
    if !i.resetN then Zero()
    else if f.r.arFlag then ReadMux(f, i, f.r.cur.addr)
    else f.dataOut
  }

  function Next(f: Regs, i: Input): (f': Regs)
    requires f.Valid()
    ensures f'.Valid()
  {
    Regs(WriteNext(f.w, f.r.arFlag, WReady(f, i), i), ReadNext(f.r, f.w.awFlag, i),
         StatusNext(f, i), DataOutNext(f, i), Core.Next(f.core, CoreInput(f, i)))
  }

  /** The registers after a run of cycles. */
  function Steps(f: Regs, ins: seq<Input>): (f': Regs)
    requires f.Valid()
    ensures f'.Valid()
  {
    if |ins| == 0 then f else Next(Steps(f, ins[..|ins| - 1]), ins[|ins| - 1])
  }

  /** The registers after a run that starts from bus reset. */
  function Run(ins: seq<Input>): (f: Regs)
    ensures f.Valid()
  {
    Steps(ResetRegs(), ins)
  }

  predicate NoBusReset(ins: seq<Input>) { forall k :: 0 <= k < |ins| ==> ins[k].resetN }

  // ---- The clocked module ----

  /** The always blocks of the write channels. */
  class WriteSide {
    var awready: bool
    var awFlag: bool
    var awaddr: Octet
    var awCntr: Octet
    var awburst: BurstType
    var awlen: Octet
    var wready: bool
    var bvalid: bool

    function Registers(): WriteRegs
      reads this
    {
      WriteRegs(awready, awFlag, Cursor(awaddr, awCntr, awburst, awlen), wready, bvalid)
    }

    constructor ()
      ensures Registers() == ResetWrite()
    {
      awready, awFlag, wready, bvalid := false, false, false, false;
      awaddr, awCntr, awburst, awlen := Octet(0), Octet(0), FIXED, Octet(0);
    }

    method AwreadyBlock(arFlagBefore: bool, wReadyNet: bool, i: Input) returns (ready: bool, flag: bool)
      ensures (ready, flag) == AwreadyNext(Registers(), arFlagBefore, wReadyNet, i)
    {
      ready, flag := awready, awFlag;
      if !i.resetN {
        ready, flag := false, false;
      } else if !awready && i.awvalid && !awFlag && !arFlagBefore {
        ready, flag := true, true;
      } else if i.wlast && wReadyNet {
        flag := false;
      } else {
        ready := false;
      }
    }

    method AwaddrBlock(wReadyNet: bool, i: Input) returns (addr: Octet, cntr: Octet, burst: BurstType, len: Octet)
      ensures Cursor(addr, cntr, burst, len) == AwaddrNext(Registers(), wReadyNet, i)
    {
      hide NextOctet, Succ, AtMost;
      addr, cntr, burst, len := awaddr, awCntr, awburst, awlen;
      if !i.resetN {
        addr, cntr, burst, len := Octet(0), Octet(0), FIXED, Octet(0);
      } else if !awready && i.awvalid && !awFlag {
        addr, burst, len, cntr := i.awaddr, i.awburst, i.awlen, Octet(0);
      } else if AtMost(awCntr, awlen) && wReadyNet && i.wvalid {
        cntr := Succ(awCntr);
        addr := NextOctet(awaddr, awburst, awlen);
      }
    }

    method WreadyBlock(i: Input) returns (ready: bool)
      ensures ready == WreadyNext(Registers(), i)
    {
      ready := wready;
      if !i.resetN {
        ready := false;
      } else if !wready && i.wvalid && awFlag {
        ready := true;
      } else if i.wlast && wready {
        ready := false;
      }
    }

    method BvalidBlock(wReadyNet: bool, i: Input) returns (valid: bool)
      ensures valid == BvalidNext(Registers(), wReadyNet, i)
    {
      valid := bvalid;
      if !i.resetN {
        valid := false;
      } else if awFlag && wReadyNet && i.wvalid && !bvalid && i.wlast {
        valid := true;
      } else if i.bready && bvalid {
        valid := false;
      }
    }

    /** All blocks sample the registers first, then all registers change together. */
    method Tick(arFlagBefore: bool, wReadyNet: bool, i: Input)
      modifies this
      ensures Registers() == WriteNext(old(Registers()), arFlagBefore, wReadyNet, i)
    {
      hide AwreadyNext, AwaddrNext, WreadyNext, BvalidNext;
      var awready', awFlag' := AwreadyBlock(arFlagBefore, wReadyNet, i);
      var awaddr', awCntr', awburst', awlen' := AwaddrBlock(wReadyNet, i);
      var wready' := WreadyBlock(i);
      var bvalid' := BvalidBlock(wReadyNet, i);
      awready, awFlag, wready, bvalid := awready', awFlag', wready', bvalid';
      awaddr, awCntr, awburst, awlen := awaddr', awCntr', awburst', awlen';
    }
  }

  /** The always blocks of the read channels. */
  class ReadSide {
    var arready: bool
    var arFlag: bool
    var araddr: Octet
    var arCntr: Octet
    var arburst: BurstType
    var arlen: Octet
    var rlast: bool
    var rvalid: bool

    function Registers(): ReadRegs
      reads this
    {
      ReadRegs(arready, arFlag, Cursor(araddr, arCntr, arburst, arlen), rlast, rvalid)
    }

    constructor ()
      ensures Registers() == ResetRead()
    {
      arready, arFlag, rlast, rvalid := false, false, false, false;
      araddr, arCntr, arburst, arlen := Octet(0), Octet(0), FIXED, Octet(0);
    }

    method ArreadyBlock(awFlagBefore: bool, i: Input) returns (ready: bool, flag: bool)
      ensures (ready, flag) == ArreadyNext(Registers(), awFlagBefore, i)
    {
      ready, flag := arready, arFlag;
      if !i.resetN {
        ready, flag := false, false;
      } else if !arready && i.arvalid && !awFlagBefore && !arFlag {
        ready, flag := true, true;
      } else if rvalid && i.rready && arCntr == arlen {
        flag := false;
      } else {
        ready := false;
      }
    }

    method AraddrBlock(i: Input) returns (addr: Octet, cntr: Octet, burst: BurstType, len: Octet, last: bool)
      ensures (Cursor(addr, cntr, burst, len), last) == AraddrNext(Registers(), i)
    {
      hide NextOctet, Succ, AtMost;
      addr, cntr, burst, len, last := araddr, arCntr, arburst, arlen, rlast;
      if !i.resetN {
        addr, cntr, burst, len, last := Octet(0), Octet(0), FIXED, Octet(0), false;
      } else if !arready && i.arvalid && !arFlag {
        addr, burst, len, cntr, last := i.araddr, i.arburst, i.arlen, Octet(0), false;
      } else if AtMost(arCntr, arlen) && rvalid && i.rready {
        cntr, last := Succ(arCntr), false;
        addr := NextOctet(araddr, arburst, arlen);
      } else if arCntr == arlen && !rlast && arFlag {
        last := true;
      } else if i.rready {
        last := false;
      }
    }

    method RvalidBlock(i: Input) returns (valid: bool)
      ensures valid == RvalidNext(Registers(), i)
    {
      valid := rvalid;
      if !i.resetN {
        valid := false;
      } else if arFlag && !rvalid {
        valid := true;
      } else if rvalid && i.rready {
        valid := false;
      }
    }

    method Tick(awFlagBefore: bool, i: Input)
      modifies this
      ensures Registers() == ReadNext(old(Registers()), awFlagBefore, i)
    {
      hide ArreadyNext, AraddrNext, RvalidNext;
      var arready', arFlag' := ArreadyBlock(awFlagBefore, i);
      var araddr', arCntr', arburst', arlen', rlast' := AraddrBlock(i);
      var rvalid' := RvalidBlock(i);
      arready, arFlag, rlast, rvalid := arready', arFlag', rlast', rvalid';
      araddr, arCntr, arburst, arlen := araddr', arCntr', arburst', arlen';
    }
  }

  class Slave {
    const write: WriteSide
    const read: ReadSide
    var status: Word
    var dataOut: Word
    const core: Core.Sha256

    ghost predicate Valid()
      reads core, core.process
    {
      core.Valid()
    }

    function Registers(): (f: Regs)
      reads this, write, read
      reads core, core.process, core.process.W, core.compress.H8, core.compress.abcdefgh, core.compress.stage
      requires Valid()
      ensures f.Valid()
    {
      Regs(write.Registers(), read.Registers(), status, dataOut, core.Registers())
    }

    constructor ()
      ensures Valid() && Registers() == ResetRegs()
    {
      write := new WriteSide();
      read := new ReadSide();
      core := new Core.Sha256();
      status, dataOut := Zero(), Zero();
    }

    /** One clock cycle: all nets are taken from the state before the edge. */
    method Tick(i: Input)
      requires Valid()
      modifies this, write, read
      modifies core, core.process, core.process.W, core.compress.H8, core.compress.abcdefgh, core.compress.stage
      ensures Valid() && Registers() == Next(old(Registers()), i)
    {
      hide WriteNext, ReadNext, StatusNext, DataOutNext, Core.Next, WReady, CoreInput;
      var f := Registers();
      status, dataOut := StatusNext(f, i), DataOutNext(f, i);
      write.Tick(f.r.arFlag, WReady(f, i), i);
      read.Tick(f.w.awFlag, i);
      core.Tick(CoreInput(f, i));
    }
  }
}
