/** What the register maps of the three AXI front ends have in common. */
module RegisterMap {
  import opened Words
  import opened AxiBurst

  type Strobe = s: seq<bool> | |s| == 4 witness [false, false, false, false]

  /** dat_addr_vaild: the core takes its data at byte addresses 0x40 to 0x7f. */
  predicate DataWindow(addr: Octet) { addr.bits >> 6 == 1 }

  /** The word index of an address, bits 7 to 2. */
  function Index(addr: Octet): bv8 { addr.bits >> 2 }

  /** slv_reg0_nxt: bit 8 shows busy, bit 1 enables the interrupt, and the soft reset in bit 0 clears. */
  function StatusNet(status: Word, busy: bool): Word {
    seq(32, n requires 0 <= n < 32 => if n == 8 then busy else if n == 1 then status[1] else false)
  }

  /** The bytes that the strobes select are written. */
  function Merge(old': Word, dat: Word, strb: Strobe): Word {
    seq(32, n requires 0 <= n < 32 => if strb[n / 8] then dat[n] else old'[n])
  }

  /** slv_reg0 after a cycle outside bus reset. */
  function StatusAfter(status: Word, busy: bool, write: bool, addr: Octet, dat: Word, strb: Strobe): Word {
    if write && Index(addr) == 0 then Merge(status, dat, strb) else StatusNet(status, busy)
  }

  /** The register file as the read channel sees it. */
  function Mux(addr: Octet, status: Word, hash: seq<Word>): Word
    requires |hash| == 8
  {
    if Index(addr) == 0 then status
    else if 8 <= Index(addr) < 16 then hash[(Index(addr) - 8) as int]
    else Zero()
  }

  /** Addresses by their bytes: words 0, 8 to 15 and 16 to 31. */
  lemma Windows(addr: Octet)
    ensures Index(addr) == 0 <==> addr.bits < 4
    ensures 8 <= Index(addr) < 16 <==> 0x20 <= addr.bits < 0x40
    ensures DataWindow(addr) <==> 0x40 <= addr.bits < 0x80
  {
  }

  /**
   * Bit n of the status register after a cycle: a write to bytes 0 to 3 sets the bytes that it strobes; otherwise bit 8
   * shows busy, bit 1 stays, and all others clear.
   */
  lemma StatusBit(status: Word, busy: bool, write: bool, addr: Octet, dat: Word, strb: Strobe, n: nat)
    requires n < 32
    ensures StatusAfter(status, busy, write, addr, dat, strb)[n] ==
      if write && addr.bits < 4 then (if strb[n / 8] then dat[n] else status[n])
      else if n == 8 then busy else n == 1 && status[1]
  {
    hide Index, DataWindow;
    Windows(addr);
  }

  /** Byte addresses 0 to 3 read the status register, 0x20 to 0x3f the hash words in order, and all others zero. */
  lemma MuxReads(addr: Octet, status: Word, hash: seq<Word>)
    requires |hash| == 8
    ensures addr.bits < 4 ==> Mux(addr, status, hash) == status
    ensures forall k :: 0 <= k < 8 && addr.bits as int / 4 == 8 + k ==> Mux(addr, status, hash) == hash[k]
    ensures addr.bits >= 4 && !(0x20 <= addr.bits < 0x40) ==> forall n :: 0 <= n < 32 ==> !Mux(addr, status, hash)[n]
  {
    hide DataWindow, Index;
    Windows(addr);
    IndexIsQuotient(addr);
  }

  lemma IndexIsQuotient(addr: Octet)
    ensures Index(addr) as int == addr.bits as int / 4
    ensures 8 <= Index(addr) < 16 ==> (Index(addr) - 8) as int == addr.bits as int / 4 - 8
  {
    var x := addr.bits;
    assert x >> 2 == x / 4;
    assert x >= 0x20 ==> (x >> 2) >= 8;
  }
}
