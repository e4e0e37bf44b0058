/** The burst address counters of sha256_full_v1_0_S00_AXI.v, which its two channels share. */
module AxiBurst {

  type Addr = bv8

  /** AxBURST; the code treats the reserved value 2'b11 as a fourth kind. */
  datatype BurstType = FIXED | INCR | WRAP | RESERVED

  /** The wrap test: a mask of four times the length field, against the zero-extended address. */
  predicate WrapEnabled(addr: Addr, len: bv8) {
    var size := 4 * (len as bv32);
    (addr as bv32) & size == size
  }

  function WordAbove(addr: Addr): Addr { (addr & 0xFC) + 4 }

  /** The address after one beat. */
  function NextAddr(addr: Addr, burst: BurstType, len: bv8): Addr {
    match burst
    case FIXED => addr
    case INCR => WordAbove(addr)
    case WRAP => if WrapEnabled(addr, len) then addr - 4 * len else WordAbove(addr)
    case RESERVED => (addr >> 2) + 1
  }

  /** The address of beat k. */
  function BeatAddr(start: Addr, burst: BurstType, len: bv8, k: nat): Addr {
    if k == 0 then start else NextAddr(BeatAddr(start, burst, len, k - 1), burst, len)
  }

  // ---- The address registers of one channel ----

  /** An eight-bit register. */
  datatype Octet = Octet(bits: bv8)

  /** The address, the beat counter and the latched burst type and length. */
  datatype Cursor = Cursor(addr: Octet, cntr: Octet, burst: BurstType, len: Octet)

  function Start(addr: Octet, burst: BurstType, len: Octet): Cursor { Cursor(addr, Octet(0), burst, len) }

  function Succ(x: Octet): Octet { Octet(x.bits + 1) }

  predicate AtMost(x: Octet, y: Octet) { x.bits <= y.bits }

  function NextOctet(addr: Octet, burst: BurstType, len: Octet): Octet {
    Octet(NextAddr(addr.bits, burst, len.bits))
  }

  function Step(c: Cursor): Cursor { Cursor(NextOctet(c.addr, c.burst, c.len), Succ(c.cntr), c.burst, c.len) }

  /** The beat counter has not passed the length field. */
  predicate BeatsLeft(c: Cursor) { AtMost(c.cntr, c.len) }

  /** What a handshake does to the registers. */
  function Advance(c: Cursor): Cursor { if BeatsLeft(c) then Step(c) else c }

  predicate LastBeat(c: Cursor) { c.cntr == c.len }

  /** The registers while beat k waits for its handshake. */
  function CursorAt(c: Cursor, k: nat): Cursor { if k == 0 then c else Advance(CursorAt(c, k - 1)) }

  lemma BeatsLeftByCount(c: Cursor)
    ensures BeatsLeft(c) <==> c.cntr.bits as int <= c.len.bits as int
    ensures LastBeat(c) <==> c.cntr.bits as int == c.len.bits as int
  {
  }

  lemma StepCounts(c: Cursor)
    requires c.cntr.bits as int < 0xFF
    ensures Step(c).cntr.bits as int == c.cntr.bits as int + 1
  {
    hide NextAddr;
    assert forall x: bv8 {:trigger x as int} :: x as int < 0xFF ==> (x + 1) as int == x as int + 1;
  }

  /** Beat k has the k-th burst address, and the counter names the last beat. */
  lemma {:induction false} CursorAtBeat(c: Cursor, k: nat)
    requires c.cntr == Octet(0) && k <= c.len.bits as int
    ensures CursorAt(c, k).addr == Octet(BeatAddr(c.addr.bits, c.burst, c.len.bits, k))
    ensures CursorAt(c, k).cntr.bits as int == k
    ensures CursorAt(c, k).burst == c.burst && CursorAt(c, k).len == c.len
    ensures BeatsLeft(CursorAt(c, k)) && (LastBeat(CursorAt(c, k)) <==> k == c.len.bits as int)
  {
    hide NextAddr, BeatsLeft, LastBeat;
    if k > 0 {
      CursorAtBeat(c, k - 1);
      StepCounts(CursorAt(c, k - 1));
    }
    BeatsLeftByCount(CursorAt(c, k));
  }

  // ---- Section A3.4.1 of the AXI protocol specification (ARM IHI 0022) ----

  /** A wrapping burst has 2, 4, 8 or 16 beats and starts on a word. */
  predicate LegalWrap(start: Addr, len: bv8) {
    len in {1, 3, 7, 15} && start & 3 == 0
  }

  /** The bytes that a wrapping burst covers: four a beat. */
  function WrapSize(len: bv8): bv8 { 4 * (len + 1) }

  function AlignDown(x: bv8, size: bv8): bv8
    requires size > 0
  {
    x / size * size
  }

  function Remainder(x: bv8, size: bv8): bv8
    requires size > 0
  {
    x % size
  }

  /** How far beat k is above the boundary, before the wrap. */
  function Offset(start: bv8, base: bv8, k: bv8): bv8 { start - base + 4 * k }

  function WrapBoundary(start: Addr, len: bv8): Addr
    requires LegalWrap(start, len)
  {
    AlignDown(start, WrapSize(len))
  }

  /** The specified address of beat k: up from the start, and around at the upper boundary. */
  function WrapAddr(start: Addr, len: bv8, k: bv8): Addr
    requires LegalWrap(start, len)
  {
    WrapBoundary(start, len) + Remainder(Offset(start, WrapBoundary(start, len), k), WrapSize(len))
  }

  /** The same with masks: the low bits count within the window, the high bits stay. */
  function MaskedAddr(start: Addr, len: bv8, k: bv8): Addr {
    var mask := 4 * len + 3;
    (start & !mask) | ((start + 4 * k) & mask)
  }

  lemma PowerOfTwo(x: bv8, size: bv8)
    requires size in {8, 16, 32, 64}
    ensures Remainder(x, size) == x & (size - 1)
    ensures AlignDown(x, size) == x & !(size - 1)
  {
    if size == 8 {
      assert x % 8 == x & 7 && x / 8 * 8 == x & 0xF8;
    } else if size == 16 {
      assert x % 16 == x & 15 && x / 16 * 16 == x & 0xF0;
    } else if size == 32 {
      assert x % 32 == x & 31 && x / 32 * 32 == x & 0xE0;
    } else {
      assert x % 64 == x & 63 && x / 64 * 64 == x & 0xC0;
    }
  }

  lemma MaskedSum(start: bv8, mask: bv8, k: bv8)
    requires mask in {7, 15, 31, 63}
    ensures (start & !mask) + (Offset(start, start & !mask, k) & mask) == (start & !mask) | ((start + 4 * k) & mask)
  {
  }

  lemma MasksAgree(start: Addr, len: bv8, k: bv8)
    requires LegalWrap(start, len)
    ensures WrapAddr(start, len, k) == MaskedAddr(start, len, k)
    ensures WrapBoundary(start, len) == start & !(4 * len + 3)
  {
    hide AlignDown, Remainder, Offset;
    var size := WrapSize(len);
    assert size in {8, 16, 32, 64} && 4 * len + 3 == size - 1;
    PowerOfTwo(start, size);
    var base := start & !(size - 1);
    assert WrapBoundary(start, len) == base;
    PowerOfTwo(Offset(start, base, k), size);
    MaskedSum(start, size - 1, k);
  }

  /** The mask test fires exactly at the last word of the window. */
  lemma MaskedStep(start: Addr, len: bv8, k: bv8)
    requires LegalWrap(start, len)
    ensures NextAddr(MaskedAddr(start, len, k), WRAP, len) == MaskedAddr(start, len, k + 1)
  {
  }

  lemma MaskedStart(start: Addr, len: bv8)
    ensures MaskedAddr(start, len, 0) == start
  {
  }

  /** A beat number as the eight bits of the counter. */
  function BeatIndex(k: nat): bv8 { if k == 0 then 0 else BeatIndex(k - 1) + 1 }

  lemma {:induction false} BeatIndexIs(k: nat)
    requires k <= 0xFF
    ensures BeatIndex(k) as int == k
  {
    if k > 0 {
      BeatIndexIs(k - 1);
      assert forall x: bv8 {:trigger x as int} :: x as int < 0xFF ==> (x + 1) as int == x as int + 1;
    }
  }

  lemma BitsInOrder(x: bv8, y: bv8)
    ensures x <= y <==> x as int <= y as int
  {
  }

  lemma BeatIndexBelow(k: nat, bound: bv8)
    requires k <= 0xFF
    ensures BeatIndex(k) <= bound <==> k <= bound as int
    ensures BeatIndex(k) == bound <==> k == bound as int
  {
    hide BeatIndex;
    BeatIndexIs(k);
    BitsInOrder(BeatIndex(k), bound);
    BitsInOrder(bound, BeatIndex(k));
  }

  /** A wrapping burst visits the specified addresses. */
  lemma {:induction false} WrapFollowsAxi(start: Addr, len: bv8, k: nat)
    requires LegalWrap(start, len)
    ensures BeatAddr(start, WRAP, len, k) == WrapAddr(start, len, BeatIndex(k))
  {
    hide WrapAddr, WrapBoundary, NextAddr, LegalWrap, MaskedAddr;
    if k == 0 {
      MaskedStart(start, len);
    } else {
      WrapFollowsAxi(start, len, k - 1);
      MasksAgree(start, len, BeatIndex(k - 1));
      MaskedStep(start, len, BeatIndex(k - 1));
    }
    MasksAgree(start, len, BeatIndex(k));
  }

  predicate InWindow(start: Addr, len: bv8, addr: Addr)
    requires LegalWrap(start, len)
  {
    addr & 3 == 0 && WrapBoundary(start, len) <= addr && addr - WrapBoundary(start, len) < WrapSize(len)
  }

  /** The beat that visits a given word of the window. */
  function BeatOf(start: Addr, len: bv8, addr: Addr): bv8
    requires LegalWrap(start, len)
  {
    ((addr - start) / 4) & len
  }

  lemma MaskedInWindow(start: Addr, len: bv8, k: bv8)
    requires LegalWrap(start, len)
    ensures MaskedAddr(start, len, k) & 3 == 0
    ensures MaskedAddr(start, len, k) & !(4 * len + 3) == start & !(4 * len + 3)
  {
  }

  /** Being in the window is a matter of the high bits. */
  lemma WindowByMask(start: Addr, len: bv8, addr: Addr)
    requires LegalWrap(start, len)
    ensures InWindow(start, len, addr) <==> addr & 3 == 0 && addr & !(4 * len + 3) == start & !(4 * len + 3)
  {
    hide WrapBoundary, AlignDown, Remainder;
    MasksAgree(start, len, 0);
    WindowBounds(start & !(4 * len + 3), 4 * len + 3, addr);
    assert WrapSize(len) == 4 * len + 3 + 1;
  }

  lemma WindowBounds(base: bv8, mask: bv8, addr: bv8)
    requires mask in {7, 15, 31, 63} && base & mask == 0
    ensures base <= addr && addr - base < mask + 1 <==> addr & !mask == base
  {
  }

  lemma MaskedVisitsOnce(start: Addr, len: bv8, k: bv8, addr: Addr)
    requires LegalWrap(start, len) && k <= len
    requires addr & 3 == 0 && addr & !(4 * len + 3) == start & !(4 * len + 3)
    ensures MaskedAddr(start, len, k) == addr <==> k == BeatOf(start, len, addr)
    ensures BeatOf(start, len, addr) <= len
  {
  }

  /** The specified addresses stay in the window and visit each word once. */
  lemma WrapAddrVisitsOnce(start: Addr, len: bv8, k: bv8, addr: Addr)
    requires LegalWrap(start, len) && k <= len && InWindow(start, len, addr)
    ensures InWindow(start, len, WrapAddr(start, len, k))
    ensures WrapAddr(start, len, k) == addr <==> k == BeatOf(start, len, addr)
    ensures BeatOf(start, len, addr) <= len
  {
    hide WrapAddr, InWindow, BeatOf, MaskedAddr, LegalWrap;
    MasksAgree(start, len, k);
    MaskedInWindow(start, len, k);
    WindowByMask(start, len, addr);
    WindowByMask(start, len, MaskedAddr(start, len, k));
    MaskedVisitsOnce(start, len, k, addr);
  }

  /**
   * Every beat of the slave's wrapping burst stays in the aligned window, and every word of the window
   * is visited by exactly one beat.
   */
  lemma WrapVisitsEachWordOnce(start: Addr, len: bv8, k: nat, addr: Addr)
    requires LegalWrap(start, len) && k <= len as int && InWindow(start, len, addr)
    ensures InWindow(start, len, BeatAddr(start, WRAP, len, k))
    ensures BeatAddr(start, WRAP, len, k) == addr <==> k == BeatOf(start, len, addr) as int
    ensures BeatOf(start, len, addr) as int <= len as int
  {
    hide WrapAddr, InWindow, BeatOf, LegalWrap, BeatAddr, BeatIndex;
    WrapFollowsAxi(start, len, k);
    BeatIndexBelow(k, len);
    WrapAddrVisitsOnce(start, len, BeatIndex(k), addr);
    BeatIndexBelow(k, BeatOf(start, len, addr));
    BitsInOrder(BeatOf(start, len, addr), len);
  }

  // ---- The other kinds of burst ----

  /** A fixed burst stays where it starts. */
  lemma {:induction false} FixedStays(start: Addr, len: bv8, k: nat)
    ensures BeatAddr(start, FIXED, len, k) == start
  {
    if k > 0 {
      FixedStays(start, len, k - 1);
    }
  }

  lemma WordAboveIs(start: Addr, k: bv8)
    ensures WordAbove((start & 0xFC) + 4 * k) == (start & 0xFC) + 4 * (k + 1)
    ensures WordAbove(start) == (start & 0xFC) + 4
  {
  }

  /** After its first beat, an incrementing burst goes on from word to word, whatever its length. */
  lemma {:induction false} IncrCounts(start: Addr, len: bv8, k: nat)
    ensures k > 0 ==> BeatAddr(start, INCR, len, k) == (start & 0xFC) + 4 * BeatIndex(k)
    ensures k <= 0xFF ==> BeatIndex(k) as int == k
  {
    hide WordAbove, BeatIndex;
    if k <= 0xFF {
      BeatIndexIs(k);
    }
    if k > 0 {
      IncrCounts(start, len, k - 1);
      IndexStep(k);
      WordAboveIs(start, BeatIndex(k - 1));
    }
  }

  lemma IndexStep(k: nat)
    requires k > 0
    ensures BeatIndex(k) == BeatIndex(k - 1) + 1 && BeatIndex(0) == 0
  {
  }

  /** A burst of the reserved type goes down by quarters, and from its sixth beat on it is at the status register. */
  lemma {:induction false} ReservedSettles(start: Addr, len: bv8, k: nat)
    ensures k == 1 ==> BeatAddr(start, RESERVED, len, k) == start / 4 + 1
    ensures k == 2 ==> BeatAddr(start, RESERVED, len, k) == (start / 4 + 1) / 4 + 1
    ensures k == 3 ==> BeatAddr(start, RESERVED, len, k) <= 5
    ensures k == 4 ==> BeatAddr(start, RESERVED, len, k) <= 2
    ensures k >= 5 ==> BeatAddr(start, RESERVED, len, k) == 1
  {
    if k > 0 {
      ReservedSettles(start, len, k - 1);
      Quarter(BeatAddr(start, RESERVED, len, k - 1));
    }
  }

  lemma Quarter(addr: Addr)
    ensures NextAddr(addr, RESERVED, 0) == addr / 4 + 1
    ensures (addr >> 2) + 1 <= 64
    ensures addr <= 64 ==> (addr >> 2) + 1 <= 17
    ensures addr <= 17 ==> (addr >> 2) + 1 <= 5
    ensures addr <= 5 ==> (addr >> 2) + 1 <= 2
    ensures addr <= 2 ==> (addr >> 2) + 1 == 1
  {
  }

  /** The address that the protocol gives beat k, from the number of bytes before it. */
  function AxiAddr(start: Addr, burst: BurstType, len: bv8, k: bv8): Addr
    requires burst == WRAP ==> LegalWrap(start, len)
  {
    match burst
    case FIXED => start
    case INCR => if k == 0 then start else start / 4 * 4 + 4 * k
    case WRAP => WrapAddr(start, len, k)
    case RESERVED => 1
  }

  lemma AlignIsMask(start: Addr)
    ensures start / 4 * 4 == start & 0xFC
  {
  }

  /** Every burst of a defined type visits the specified addresses; a wrapping one must be legal. */
  lemma BurstFollowsAxi(start: Addr, burst: BurstType, len: bv8, k: nat)
    requires burst != RESERVED && (burst == WRAP ==> LegalWrap(start, len)) && k <= 0xFF
    ensures BeatAddr(start, burst, len, k) == AxiAddr(start, burst, len, BeatIndex(k)) && BeatIndex(k) as int == k
  {
    hide BeatAddr, BeatIndex, WrapAddr, LegalWrap;
    BeatIndexIs(k);
    match burst
    case FIXED => FixedStays(start, len, k);
    case INCR =>
      IncrCounts(start, len, k);
      AlignIsMask(start);
      BeatIndexBelow(k, 0);
      if k == 0 {
        FirstBeat(start, len);
      }
    case WRAP => WrapFollowsAxi(start, len, k);
  }

  lemma FirstBeat(start: Addr, len: bv8)
    ensures BeatAddr(start, INCR, len, 0) == start
  {
  }
}
