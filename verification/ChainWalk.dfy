/** The engine's side of a chain: block by block through the ring, led by next pointers and adjacent counts. */
module ChainWalk {
  import opened Division
  import opened PageMap
  import opened SwDesc
  import opened DescControl
  import opened DescRing

  /** Descriptors fetched in one go. */
  datatype Block = Block(first: nat, count: nat)

  datatype Option<T> = None | Some(value: T)

  /** The engine works through a block up to and including the first descriptor that stops it. */
  function Processed(ring: seq<Desc>, first: nat, count: nat): (n: nat)
    requires 0 < count && first + count <= |ring|
    ensures 0 < n <= count
    ensures Stopped(ring[first + n - 1].control) || n == count
    decreases count
  {
    if Stopped(ring[first].control) || count == 1 then 1 else 1 + Processed(ring, first + 1, count - 1)
  }

  /**
   * From a bus address and an adjacent count, the blocks that the engine fetches until it stops; none if
   * it would leave the ring or needs more blocks than the fuel allows.
   */
  function Walk(ring: seq<Desc>, base: nat, addr: nat, adjacent: nat, fuel: nat): Option<seq<Block>>
    decreases fuel
  {
    if fuel == 0 || addr < base || (addr - base) % DESC_SIZE != 0 || (addr - base) / DESC_SIZE + adjacent + 1 > |ring|
    then None
    else
      var first := (addr - base) / DESC_SIZE;
      var last := ring[first + Processed(ring, first, adjacent + 1) - 1];
      if Stopped(last.control) then Some([Block(first, adjacent + 1)])
      else
        match Walk(ring, base, last.next, Adjacent(last.control), fuel - 1)
        case None => None
        case Some(blocks) => Some([Block(first, adjacent + 1)] + blocks)
  }

  /** The blocks name the slots from lo up to hi, once each and in order. */
  predicate Covers(blocks: seq<Block>, lo: nat, hi: nat) {
    if |blocks| == 0 then lo == hi
    else blocks[0].first == lo && blocks[0].count > 0 && Covers(blocks[1..], lo + blocks[0].count, hi)
  }

  /** The bytes of the block lie in one window of 64 descriptors. */
  predicate InWindow(base: nat, b: Block)
    requires b.count > 0
  {
    (base + DESC_SIZE * b.first) / 2048 == (base + DESC_SIZE * (b.first + b.count) - 1) / 2048
  }

  predicate AllInWindow(base: nat, blocks: seq<Block>) {
    forall k :: 0 <= k < |blocks| ==> blocks[k].count > 0 && InWindow(base, blocks[k])
  }

  lemma {:induction false} RunsWholeBlock(ring: seq<Desc>, first: nat, count: nat)
    requires 0 < count && first + count <= |ring|
    requires forall k :: first <= k < first + count - 1 ==> !Stopped(ring[k].control)
    ensures Processed(ring, first, count) == count
    decreases count
  {
    hide Stopped;
    if count > 1 {
      RunsWholeBlock(ring, first + 1, count - 1);
    }
  }

  /** An adjacent count never leads out of the window that the block starts in. */
  lemma BlockStaysInWindow(base: nat, first: nat, remaining: nat)
    requires base % DESC_SIZE == 0 && remaining > 0
    ensures InWindow(base, Block(first, NextAdj(remaining, (base + DESC_SIZE * first) % U32) + 1))
  {
    var unit := base / DESC_SIZE + first;
    var adj := NextAdj(remaining, (base + DESC_SIZE * first) % U32);
    assert base + DESC_SIZE * first == DESC_SIZE * unit;
    LowBits(unit);
    assert adj <= 63 - unit % 64;
    assert DESC_SIZE * unit == 2048 * (unit / 64) + DESC_SIZE * (unit % 64);
    QuotientIs(DESC_SIZE * unit, 2048, unit / 64, DESC_SIZE * (unit % 64));
    QuotientIs(DESC_SIZE * unit + DESC_SIZE * (adj + 1) - 1, 2048, unit / 64,
      DESC_SIZE * (unit % 64) + DESC_SIZE * (adj + 1) - 1);
  }

  /** The index within a window survives the cut to 32 bits and to a page. */
  lemma LowBits(unit: nat)
    ensures DESC_SIZE * unit % U32 % XDMA_PAGE_SIZE / DESC_SIZE % XDMA_MAX_ADJ_BLOCK_SIZE == unit % 64
  {
    var a := unit % 0x800_0000;
    assert DESC_SIZE * unit == unit / 0x800_0000 * U32 + DESC_SIZE * a;
    RemainderIs(DESC_SIZE * unit, U32, unit / 0x800_0000, DESC_SIZE * a);
    var c := a % 128;
    assert DESC_SIZE * a == a / 128 * XDMA_PAGE_SIZE + DESC_SIZE * c;
    RemainderIs(DESC_SIZE * a, XDMA_PAGE_SIZE, a / 128, DESC_SIZE * c);
    QuotientIs(DESC_SIZE * c, DESC_SIZE, c, 0);
    assert unit == (unit / 0x800_0000 * 0x20_0000 + a / 128 * 2 + c / 64) * 64 + c % 64;
    RemainderIs(unit, 64, unit / 0x800_0000 * 0x20_0000 + a / 128 * 2 + c / 64, c % 64);
  }

  /** What the engine finds in slot start + i of a chain. */
  lemma ChainSlot(ring: seq<Desc>, start: nat, spans: seq<Span>, ep: nat, mode: Mode, bus: nat, i: nat)
    requires HoldsChain(ring, start, spans, ep, mode, bus) && i < |spans|
    ensures var d := ring[start + i];
            && (Stopped(d.control) <==> i == |spans| - 1)
            && d.next == Link(bus, |spans|, i)
            && Adjacent(d.control) == NextAdj(|spans| - i - 1, d.next % U32)
  {
    hide NextAdj, ControlWord, Adjacent, Stopped, EpAt;
    assert ring[start + i] == ChainDesc(spans, ep, mode, bus, start + i - start);
    ControlFields(i == |spans| - 1, NextAdj(|spans| - i - 1, Link(bus, |spans|, i) % U32));
  }

  /** The low byte of every control word of a chain: bits 0, 1 and 4 in the last one, and nothing else. */
  lemma ChainFlags(ring: seq<Desc>, start: nat, spans: seq<Span>, ep: nat, mode: Mode, bus: nat, i: nat, n: nat)
    requires HoldsChain(ring, start, spans, ep, mode, bus) && i < |spans| && n < 8
    ensures Bit(ring[start + i].control, n) <==> i == |spans| - 1 && n in {0, 1, 4}
    ensures ring[start + i].control / 0x1_0000 == 0xAD4B
  {
    hide NextAdj, ControlWord, EpAt, Bit;
    assert ring[start + i] == ChainDesc(spans, ep, mode, bus, start + i - start);
    var last, adj := i == |spans| - 1, NextAdj(|spans| - i - 1, Link(bus, |spans|, i) % U32);
    FinishedWord(last, adj);
    LowByte(0xAD4B00 + adj, if last then 0x13 else 0, n);
  }

  /** The adjacent count is the largest that keeps the block among the remaining descriptors and in its window. */
  lemma NextAdjIsLargest(base: nat, first: nat, remaining: nat, a: nat)
    requires base % DESC_SIZE == 0 && remaining > 0
    ensures a <= NextAdj(remaining, (base + DESC_SIZE * first) % U32) <==>
      a < remaining && InWindow(base, Block(first, a + 1))
  {
    var unit := base / DESC_SIZE + first;
    assert base + DESC_SIZE * first == DESC_SIZE * unit;
    LowBits(unit);
    var low := unit % 64;
    QuotientIs(DESC_SIZE * unit, 2048, unit / 64, DESC_SIZE * low);
    var end := DESC_SIZE * unit + DESC_SIZE * (a + 1) - 1;
    if low + a < 64 {
      QuotientIs(end, 2048, unit / 64, DESC_SIZE * low + DESC_SIZE * (a + 1) - 1);
    } else {
      QuotientGrows((unit / 64 + 1) * 2048, end, 2048);
      QuotientIs((unit / 64 + 1) * 2048, 2048, unit / 64 + 1, 0);
    }
  }

  /** The count of the block that the engine fetches at descriptor i of a chain. */
  function CountAt(base: nat, start: nat, n: nat, i: nat): nat
    requires i < n
  {
    NextAdj(n - i, (base + DESC_SIZE * (start + i)) % U32) + 1
  }

  lemma OneBlock(ring: seq<Desc>, base: nat, start: nat, spans: seq<Span>, ep: nat, mode: Mode, i: nat)
    requires base % DESC_SIZE == 0 && i < |spans|
    requires HoldsChain(ring, start, spans, ep, mode, base + DESC_SIZE * start)
    ensures var n, first, count := |spans|, start + i, CountAt(base, start, |spans|, i);
            && first + count <= start + n <= |ring| && Processed(ring, first, count) == count
            && InWindow(base, Block(first, count))
            && var last := ring[first + count - 1];
               && (Stopped(last.control) <==> i + count == n)
               && (i + count < n ==>
                     && last.next == base + DESC_SIZE * (start + (i + count))
                     && Adjacent(last.control) == CountAt(base, start, n, i + count) - 1)
  {
    hide NextAdj, HoldsChain, InWindow, Stopped, Adjacent, Processed;
    var n, first, count := |spans|, start + i, CountAt(base, start, |spans|, i);
    var bus := base + DESC_SIZE * start;
    ChainInRing(ring, start, spans, ep, mode, bus);
    forall k | first <= k < first + count
      ensures Stopped(ring[k].control) <==> k == start + n - 1
    {
      ChainSlot(ring, start, spans, ep, mode, bus, k - start);
    }
    RunsWholeBlock(ring, first, count);
    BlockStaysInWindow(base, first, n - i);
    ChainSlot(ring, start, spans, ep, mode, bus, i + count - 1);
  }

  /** From slot start + i, with n - i descriptors to go, the engine fetches the slots up to start + n. */
  predicate WalksOn(ring: seq<Desc>, base: nat, start: nat, n: nat, i: nat, fuel: nat)
    requires i < n
  {
    var addr := base + DESC_SIZE * (start + i);
    var walk := Walk(ring, base, addr, NextAdj(n - i, addr % U32), fuel);
    walk.Some? && Covers(walk.value, start + i, start + n) && AllInWindow(base, walk.value)
  }

  /** One block, and the walk from there on. */
  lemma WalkOneBlock(ring: seq<Desc>, base: nat, start: nat, spans: seq<Span>, ep: nat, mode: Mode, i: nat, fuel: nat)
    requires base % DESC_SIZE == 0 && i < |spans| && fuel >= |spans| - i
    requires HoldsChain(ring, start, spans, ep, mode, base + DESC_SIZE * start)
    requires var next := i + CountAt(base, start, |spans|, i);
             next < |spans| ==> WalksOn(ring, base, start, |spans|, next, fuel - 1)
    ensures WalksOn(ring, base, start, |spans|, i, fuel)
  {
    hide NextAdj, HoldsChain, InWindow, Stopped, Adjacent, Processed;
    var n, first, count := |spans|, start + i, CountAt(base, start, |spans|, i);
    OneBlock(ring, base, start, spans, ep, mode, i);
    assert (base + DESC_SIZE * first - base) / DESC_SIZE == first;
    if i + count < n {
      var addr := base + DESC_SIZE * (start + (i + count));
      var rest := Walk(ring, base, addr, NextAdj(n - (i + count), addr % U32), fuel - 1).value;
      assert ([Block(first, count)] + rest)[1..] == rest;
    } else {
      assert [Block(first, count)][1..] == [];
      assert Covers([], start + n, start + n);
    }
  }

  /**
   * From descriptor i of a chain, with the count that xdma_get_next_adj gives for it, the engine fetches
   * the rest of the chain, every descriptor once and in order, and stops after the last.
   */
  lemma {:induction false} WalkFollowsChain(ring: seq<Desc>, base: nat, start: nat, spans: seq<Span>, ep: nat,
                                            mode: Mode, i: nat, fuel: nat)
    requires base % DESC_SIZE == 0 && i < |spans| && fuel >= |spans| - i
    requires HoldsChain(ring, start, spans, ep, mode, base + DESC_SIZE * start)
    ensures WalksOn(ring, base, start, |spans|, i, fuel)
    decreases |spans| - i
  {
    hide WalksOn, HoldsChain, NextAdj;
    var next := i + CountAt(base, start, |spans|, i);
    if next < |spans| {
      WalkFollowsChain(ring, base, start, spans, ep, mode, next, fuel - 1);
    }
    WalkOneBlock(ring, base, start, spans, ep, mode, i, fuel);
  }

  lemma ChainInRing(ring: seq<Desc>, start: nat, spans: seq<Span>, ep: nat, mode: Mode, bus: nat)
    requires HoldsChain(ring, start, spans, ep, mode, bus)
    ensures start + |spans| <= |ring|
  {
  }
}
