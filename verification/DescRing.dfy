/** The descriptor ring of an engine, and the chains that libxdma.c builds in it. */
module DescRing {
  import opened Division
  import opened PageMap
  import opened SwDesc
  import opened DescControl

  /** sizeof(struct xdma_desc) */
  const DESC_SIZE := 32
  const XDMA_PAGE_SIZE := 0x1000
  const XDMA_MAX_ADJ_BLOCK_SIZE := 64

  /** A hardware descriptor; the address fields join their low and high halves. */
  datatype Desc = Desc(control: Control, bytes: nat, src: nat, dst: nat, next: nat)

  /** Whether the engine writes to the device, and whether its endpoint address stands still. */
  datatype Mode = Mode(toDevice: bool, nonIncrAddr: bool)

  /** xdma_get_next_adj */
  function NextAdj(remaining: nat, nextLo: nat): (adj: nat)
    ensures adj < XDMA_MAX_ADJ_BLOCK_SIZE
    ensures remaining > 0 ==> adj < remaining
  {
    if remaining <= 1 then 0
    else
      var nextIndex := nextLo % XDMA_PAGE_SIZE / DESC_SIZE % XDMA_MAX_ADJ_BLOCK_SIZE;
      if XDMA_MAX_ADJ_BLOCK_SIZE - nextIndex - 1 < remaining - 1
      then XDMA_MAX_ADJ_BLOCK_SIZE - nextIndex - 1
      else remaining - 1
  }

  /** xdma_desc_set */
  function DescSet(d: Desc, host: nat, ep: nat, len: nat, toDevice: bool): Desc {
    d.(bytes := len, src := if toDevice then host else ep, dst := if toDevice then ep else host)
  }

  function Add32(x: nat, y: nat): nat { (x + y) % U32 }

  function Add64(x: nat, y: nat): nat { (x + y) % U64 }

  // ---- What a chain should look like ----

  /** The endpoint address of descriptor i. */
  function EpAt(spans: seq<Span>, ep: nat, mode: Mode, i: nat): nat
    requires i <= |spans|
  {
    if mode.nonIncrAddr then ep else (ep + TotalLen(spans[..i])) % U64
  }

  /** The sum of the lengths, in 32 bits. */
  function Length32(spans: seq<Span>, i: nat): nat
    requires i <= |spans|
  {
    TotalLen(spans[..i]) % U32
  }

  /** Each descriptor moves the endpoint address by its length, unless the address stands still. */
  lemma EpSteps(spans: seq<Span>, ep: nat, mode: Mode, i: nat)
    requires i < |spans| && ep < U64
    ensures EpAt(spans, ep, mode, i + 1) == if mode.nonIncrAddr then EpAt(spans, ep, mode, i)
      else Add64(EpAt(spans, ep, mode, i), spans[i].len)
    ensures EpAt(spans, ep, mode, i + 1) < U64
    ensures Length32(spans, i + 1) == Add32(Length32(spans, i), spans[i].len)
  {
    assert spans[..i + 1][..i] == spans[..i];
    var before, len := TotalLen(spans[..i]), spans[i].len;
    assert TotalLen(spans[..i + 1]) == before + len;
    hide TotalLen;
    ModSum(U64, ep + before, len);
    ModSum(U32, before, len);
  }

  lemma EpStarts(spans: seq<Span>, ep: nat, mode: Mode)
    requires ep < U64
    ensures EpAt(spans, ep, mode, 0) == ep && Length32(spans, 0) == 0
  {
  }

  function Link(bus: nat, n: nat, i: nat): nat { if i + 1 < n then bus + DESC_SIZE * (i + 1) else 0 }

  function ChainDesc(spans: seq<Span>, ep: nat, mode: Mode, bus: nat, i: nat): Desc
    requires i < |spans|
  {
    var n, next := |spans|, Link(bus, |spans|, i);
    DescSet(Desc(ControlWord(i == n - 1, NextAdj(n - i - 1, next % U32)), 0, 0, 0, next),
            spans[i].addr, EpAt(spans, ep, mode, i), spans[i].len, mode.toDevice)
  }

  /** Slots start, start + 1, ... of the ring hold the chain for these spans. */
  predicate HoldsChain(ring: seq<Desc>, start: nat, spans: seq<Span>, ep: nat, mode: Mode, bus: nat) {
    start + |spans| <= |ring|
    && forall i :: start <= i < start + |spans| ==> ring[i] == ChainDesc(spans, ep, mode, bus, i - start)
  }

  /** The slots from start to start + n hold something new, the others what they held. */
  predicate OnlyWindow(before: seq<Desc>, after: seq<Desc>, start: nat, n: nat) {
    |after| == |before| && forall i :: 0 <= i < |after| && !(start <= i < start + n) ==> after[i] == before[i]
  }

  /** How many descriptors the next transfer of a request gets. */
  function WindowSize(descMax: nat, descIdx: nat, remaining: nat): nat
    requires descIdx < descMax
  {
    var n := if remaining < descMax then remaining else descMax;
    if descIdx + n >= descMax then descMax - descIdx else n
  }

  // ---- Where the transfers of a request lie ----

  datatype Transfer = Transfer(descIndex: nat, descBus: nat, descNum: nat, descAdjacent: nat, len: nat,
                               lastInRequest: bool)

  /** The first software descriptor of transfer k. */
  function Offset(tfer: seq<Transfer>, k: nat): nat
    requires k <= |tfer|
  {
    if k == 0 then 0 else Offset(tfer, k - 1) + tfer[k - 1].descNum
  }

  /** Transfer k takes the next software descriptors, in the window that starts where it found the ring index. */
  predicate Takes(descMax: nat, sdesc: seq<Span>, tfer: seq<Transfer>, done: nat, k: nat)
    requires k < |tfer| && done <= |sdesc|
  {
    var from, x := Offset(tfer, k), tfer[k];
    && x.descIndex < descMax && from + x.descNum <= done
    && x.descAdjacent == x.descNum == WindowSize(descMax, x.descIndex, |sdesc| - from)
    && x.descNum > 0
  }

  /** The transfers so far take the first software descriptors, each of them once and in order. */
  predicate TakenSoFar(descMax: nat, sdesc: seq<Span>, tfer: seq<Transfer>, done: nat) {
    && done <= |sdesc| && Offset(tfer, |tfer|) == done
    && forall k :: 0 <= k < |tfer| ==> Takes(descMax, sdesc, tfer, done, k)
  }

  /** Wherever in the ring they lie, the transfers take the whole request. */
  predicate TakesAll(descMax: nat, sdesc: seq<Span>, tfer: seq<Transfer>) {
    TakenSoFar(descMax, sdesc, tfer, |sdesc|)
  }

  /** No call of another request came between: each transfer starts in the ring where the one before it ends. */
  predicate InARow(descMax: nat, p: nat, tfer: seq<Transfer>)
    requires p < descMax
  {
    forall k :: 0 <= k < |tfer| ==> tfer[k].descIndex == Slot(descMax, p + Offset(tfer, k))
  }

  /** What a submit loop makes of a request when no other one interrupts it. */
  predicate Partition(descMax: nat, p: nat, sdesc: seq<Span>, tfer: seq<Transfer>)
    requires p < descMax
  {
    TakesAll(descMax, sdesc, tfer) && InARow(descMax, p, tfer)
  }

  /** The chain of transfer k is in the ring. */
  predicate Stands(ring: seq<Desc>, descBus: nat, mode: Mode, sdesc: seq<Span>, ep: nat, tfer: seq<Transfer>, k: nat)
    requires k < |tfer|
  {
    var from := Offset(tfer, k);
    && from + tfer[k].descNum <= |sdesc|
    && tfer[k].descBus == descBus + DESC_SIZE * tfer[k].descIndex
    && HoldsChain(ring, tfer[k].descIndex, sdesc[from..from + tfer[k].descNum], EpAt(sdesc, ep, mode, from), mode,
                  tfer[k].descBus)
  }

  /**
   * rings[k] is the ring before transfer k was built. When it has been built its chain is in the ring, and
   * nothing outside its window has changed.
   */
  predicate BuiltAt(rings: seq<seq<Desc>>, descBus: nat, mode: Mode, sdesc: seq<Span>, ep: nat, tfer: seq<Transfer>,
                    k: nat)
    requires k < |tfer| && |rings| == |tfer| + 1
  {
    && Stands(rings[k + 1], descBus, mode, sdesc, ep, tfer, k)
    && OnlyWindow(rings[k], rings[k + 1], tfer[k].descIndex, tfer[k].descNum)
  }

  predicate Built(rings: seq<seq<Desc>>, descBus: nat, mode: Mode, sdesc: seq<Span>, ep: nat, tfer: seq<Transfer>) {
    |rings| == |tfer| + 1 && forall k :: 0 <= k < |tfer| ==> BuiltAt(rings, descBus, mode, sdesc, ep, tfer, k)
  }

  /** When the engine comes to transfer j, the chain of transfer j stands; rings[j] is the ring at that time. */
  predicate StandsInTurn(rings: seq<seq<Desc>>, base: nat, mode: Mode, sdesc: seq<Span>, ep: nat, tfer: seq<Transfer>) {
    |rings| == |tfer| && forall j :: 0 <= j < |tfer| ==> Stands(rings[j], base, mode, sdesc, ep, tfer, j)
  }

  /** The mark for the last transfer of a request, while so many descriptors are still to be handed out. */
  predicate Marked(tfer: seq<Transfer>, nents: nat) {
    forall k :: 0 <= k < |tfer| ==> (tfer[k].lastInRequest <==> nents == 0 && k == |tfer| - 1)
  }

  lemma ChainSurvives(before: seq<Desc>, after: seq<Desc>, start: nat, spans: seq<Span>, ep: nat, mode: Mode, bus: nat,
                      start': nat, n: nat)
    requires HoldsChain(before, start, spans, ep, mode, bus) && OnlyWindow(before, after, start', n)
    requires start + |spans| <= start' || start' + n <= start
    ensures HoldsChain(after, start, spans, ep, mode, bus)
  {
  }

  lemma WindowFits(descMax: nat, descIdx: nat, remaining: nat)
    requires descIdx < descMax && 0 < remaining
    ensures var n := WindowSize(descMax, descIdx, remaining);
            0 < n <= remaining && descIdx + n <= descMax && (n < remaining ==> descIdx + n == descMax)
  {
  }

  lemma {:induction false} OffsetPrefix(tfer: seq<Transfer>, x: Transfer, k: nat)
    requires k <= |tfer|
    ensures Offset(tfer + [x], k) == Offset(tfer, k)
  {
    if k > 0 {
      OffsetPrefix(tfer, x, k - 1);
    }
  }

  lemma NoTransfers(ring: seq<Desc>, p: nat, descBus: nat, mode: Mode, sdesc: seq<Span>, ep: nat)
    requires p < |ring| && ep < U64
    ensures TakenSoFar(|ring|, sdesc, [], 0) && InARow(|ring|, p, []) && Built([ring], descBus, mode, sdesc, ep, [])
    ensures EpAt(sdesc, ep, mode, 0) == ep && Slot(|ring|, p) == p && Marked([], |sdesc|)
    ensures StandsInTurn([ring][1..], descBus, mode, sdesc, ep, [])
  {
    SlotSum(|ring|, p, 0);
  }

  lemma AddsSome(before: seq<Desc>, after: seq<Desc>, descBus: nat, mode: Mode, sdesc: seq<Span>, epNow: nat,
    x: Transfer, done: nat)
    requires done <= |sdesc| && Adds(before, after, descBus, mode, sdesc, epNow, x, done)
    ensures x.descIndex < |before| && x.len == Length32(sdesc[done..][..x.descNum], x.descNum)
    ensures 0 < x.descNum == WindowSize(|before|, x.descIndex, |sdesc| - done) == x.descAdjacent <= |sdesc| - done
  {
  }

  /** How many transfers completed, when every one but the last did. */
  function CompletedFirst(tfer: seq<Transfer>, completed: nat -> bool): (k: nat)
    ensures k <= |tfer|
  {
    if |tfer| > 0 && !completed(|tfer| - 1) then |tfer| - 1 else |tfer|
  }

  /** The bytes of the first i software descriptors, in a request that is short enough to be counted in 32 bits. */
  predicate CountsBytes(sdesc: seq<Span>, i: nat, done: nat) {
    i <= |sdesc| && (TotalLen(sdesc) < 0x1_0000_0000 ==> done == TotalLen(sdesc[..i]))
  }

  lemma PartsAdd(sdesc: seq<Span>, from: nat, n: nat)
    requires from + n <= |sdesc|
    ensures TotalLen(sdesc[..from + n]) == TotalLen(sdesc[..from]) + TotalLen(sdesc[from..][..n])
    ensures TotalLen(sdesc[..from + n]) <= TotalLen(sdesc)
  {
    hide TotalLen;
    assert sdesc[..from + n] == sdesc[..from] + sdesc[from..][..n];
    BytesAppend(sdesc[..from], sdesc[from..][..n]);
    assert sdesc == sdesc[..from + n] + sdesc[from + n..];
    BytesAppend(sdesc[..from + n], sdesc[from + n..]);
  }

  /** The length of a transfer is that of its software descriptors, in 32 bits. */
  lemma AddsBytes(sdesc: seq<Span>, from: nat, n: nat)
    requires from + n <= |sdesc|
    ensures Length32(sdesc[from..][..n], n) ==
      (TotalLen(sdesc[..from + n]) - TotalLen(sdesc[..from])) % 0x1_0000_0000
    ensures TotalLen(sdesc[..from]) <= TotalLen(sdesc[..from + n]) <= TotalLen(sdesc)
  {
    hide TotalLen;
    assert sdesc[from..][..n][..n] == sdesc[from..][..n];
    PartsAdd(sdesc, from, n);
  }

  lemma CountsOn(sdesc: seq<Span>, tfer: seq<Transfer>, from: nat, x: Transfer, completed: nat -> bool, done: nat)
    requires Offset(tfer, |tfer|) == from && forall k :: 0 <= k < |tfer| ==> completed(k)
    requires from + x.descNum <= |sdesc| && x.len == Length32(sdesc[from..][..x.descNum], x.descNum)
    requires CountsBytes(sdesc, Offset(tfer, CompletedFirst(tfer, completed)), done)
    ensures CountsBytes(sdesc, Offset(tfer + [x], CompletedFirst(tfer + [x], completed)),
                        done + if completed(|tfer|) then x.len else 0)
  {
    hide TotalLen, Length32;
    AddsBytes(sdesc, from, x.descNum);
    OffsetPrefix(tfer, x, |tfer|);
  }

  lemma NoneCounted(sdesc: seq<Span>, completed: nat -> bool)
    ensures CountsBytes(sdesc, Offset([], CompletedFirst([], completed)), 0)
  {
  }

  lemma AllCounted(descMax: nat, sdesc: seq<Span>, tfer: seq<Transfer>, completed: nat -> bool, done: nat)
    requires TakenSoFar(descMax, sdesc, tfer, |sdesc|) && forall k :: 0 <= k < |tfer| ==> completed(k)
    requires CountsBytes(sdesc, Offset(tfer, CompletedFirst(tfer, completed)), done)
    ensures TotalLen(sdesc) < 0x1_0000_0000 ==> done == TotalLen(sdesc)
  {
    assert sdesc[..|sdesc|] == sdesc;
  }

  lemma EpContinues(sdesc: seq<Span>, ep: nat, mode: Mode, done: nat, n: nat)
    requires done + n <= |sdesc| && ep < U64
    ensures EpAt(sdesc[done..][..n], EpAt(sdesc, ep, mode, done), mode, n) == EpAt(sdesc, ep, mode, done + n) < U64
  {
    assert sdesc[..done + n] == sdesc[..done] + sdesc[done..][..n];
    BytesAppend(sdesc[..done], sdesc[done..][..n]);
    assert sdesc[done..][..n][..n] == sdesc[done..][..n];
    ModSum(U64, ep + TotalLen(sdesc[..done]), TotalLen(sdesc[done..][..n]));
  }

  /** One transfer adds the chain for the next software descriptors, and changes nothing else in the ring. */
  predicate Adds(before: seq<Desc>, after: seq<Desc>, descBus: nat, mode: Mode, sdesc: seq<Span>, epNow: nat,
    x: Transfer, done: nat)
    requires done <= |sdesc|
  {
    && x.descIndex < |before| && x.descNum == WindowSize(|before|, x.descIndex, |sdesc| - done) == x.descAdjacent
    && 0 < x.descNum <= |sdesc| - done
    && x.len == Length32(sdesc[done..][..x.descNum], x.descNum)
    && x.descBus == descBus + DESC_SIZE * x.descIndex
    && HoldsChain(after, x.descIndex, sdesc[done..][..x.descNum], epNow, mode, x.descBus)
    && OnlyWindow(before, after, x.descIndex, x.descNum)
  }

  /** The mark is no part of what the hardware sees. */
  lemma AddsMarked(before: seq<Desc>, after: seq<Desc>, descBus: nat, mode: Mode, sdesc: seq<Span>, epNow: nat,
                   x: Transfer, done: nat, last: bool)
    requires done <= |sdesc|
    ensures Adds(before, after, descBus, mode, sdesc, epNow, x, done)
         == Adds(before, after, descBus, mode, sdesc, epNow, x.(lastInRequest := last), done)
  {
    hide HoldsChain, WindowSize, OnlyWindow, Length32;
  }

  /** One transfer more, wherever it lies. */
  lemma TakesOneMore(descMax: nat, sdesc: seq<Span>, tfer: seq<Transfer>, x: Transfer, done: nat)
    requires TakenSoFar(descMax, sdesc, tfer, done) && x.descIndex < descMax
    requires 0 < x.descNum == WindowSize(descMax, x.descIndex, |sdesc| - done) == x.descAdjacent <= |sdesc| - done
    ensures TakenSoFar(descMax, sdesc, tfer + [x], done + x.descNum) && Offset(tfer, |tfer|) == done
  {
    hide WindowSize, Offset;
    var tfer', done' := tfer + [x], done + x.descNum;
    OffsetsStay(tfer, x);
    OffsetLast(tfer');
    forall k | 0 <= k <= |tfer|
      ensures Takes(descMax, sdesc, tfer', done', k)
    {
      assert k < |tfer| ==> Takes(descMax, sdesc, tfer, done, k);
    }
  }

  /** Its chain stands in the ring that it leaves. */
  lemma OneMore(before: seq<Desc>, after: seq<Desc>, rings: seq<seq<Desc>>, descBus: nat, mode: Mode, sdesc: seq<Span>,
                ep: nat, tfer: seq<Transfer>, x: Transfer, done: nat)
    requires StandsInTurn(rings, descBus, mode, sdesc, ep, tfer) && done == Offset(tfer, |tfer|) <= |sdesc|
    requires Adds(before, after, descBus, mode, sdesc, EpAt(sdesc, ep, mode, done), x, done)
    ensures StandsInTurn(rings + [after], descBus, mode, sdesc, ep, tfer + [x])
  {
    hide EpAt, WindowSize, HoldsChain, Offset, OnlyWindow;
    var tfer', rings' := tfer + [x], rings + [after];
    OffsetsStay(tfer, x);
    assert sdesc[done..][..x.descNum] == sdesc[done..done + x.descNum];
    forall k | 0 <= k <= |tfer|
      ensures Stands(rings'[k], descBus, mode, sdesc, ep, tfer', k)
    {
      assert k < |tfer| ==> Stands(rings[k], descBus, mode, sdesc, ep, tfer, k);
    }
  }

  lemma OffsetsStay(tfer: seq<Transfer>, x: Transfer)
    ensures forall k :: 0 <= k <= |tfer| ==> Offset(tfer + [x], k) == Offset(tfer, k)
  {
    forall k | 0 <= k <= |tfer|
      ensures Offset(tfer + [x], k) == Offset(tfer, k)
    {
      OffsetPrefix(tfer, x, k);
    }
  }

  lemma OneMoreIndex(descMax: nat, p: nat, tfer: seq<Transfer>, x: Transfer, done: nat)
    requires p < descMax && InARow(descMax, p, tfer) && done == Offset(tfer, |tfer|)
    requires x.descIndex == Slot(descMax, p + done)
    ensures InARow(descMax, p, tfer + [x])
  {
    hide Offset, Slot;
    OffsetsStay(tfer, x);
  }

  lemma ClearsAgain(before: seq<Desc>, after: seq<Desc>, descBus: nat, mode: Mode, sdesc: seq<Span>, epNow: nat,
                    x: Transfer, done: nat)
    requires done <= |sdesc| && Adds(before, after, descBus, mode, sdesc, epNow, x, done)
    ensures Cleared(after, [x]) == Cleared(before, [x])
    ensures x.descIndex + x.descNum <= |before|
  {
    hide HoldsChain, Length32, Cleared;
    WindowFits(|before|, x.descIndex, |sdesc| - done);
    ClearedWindow(before, after, x);
  }

  /** One transfer more that follows the one before it in the ring. */
  lemma OneMoreInARow(rings: seq<seq<Desc>>, after: seq<Desc>, descBus: nat, mode: Mode, sdesc: seq<Span>, ep: nat,
                      tfer: seq<Transfer>, x: Transfer, p: nat, done: nat)
    requires Built(rings, descBus, mode, sdesc, ep, tfer) && done == Offset(tfer, |tfer|)
    requires var before := rings[|tfer|];
             && p < |before| && InARow(|before|, p, tfer) && x.descIndex == Slot(|before|, p + done)
             && done <= |sdesc| && Adds(before, after, descBus, mode, sdesc, EpAt(sdesc, ep, mode, done), x, done)
    ensures InARow(|rings[|tfer|]|, p, tfer + [x])
    ensures Built(rings + [after], descBus, mode, sdesc, ep, tfer + [x])
  {
    hide EpAt, WindowSize, HoldsChain, Offset, Slot, OnlyWindow;
    var before, tfer', rings' := rings[|tfer|], tfer + [x], rings + [after];
    OffsetsStay(tfer, x);
    assert sdesc[done..][..x.descNum] == sdesc[done..done + x.descNum];
    forall k | 0 <= k <= |tfer|
      ensures BuiltAt(rings', descBus, mode, sdesc, ep, tfer', k)
    {
      assert k < |tfer| ==> BuiltAt(rings, descBus, mode, sdesc, ep, tfer, k);
    }
  }

  lemma OffsetLast(tfer: seq<Transfer>)
    requires |tfer| > 0
    ensures Offset(tfer, |tfer|) == Offset(tfer, |tfer| - 1) + tfer[|tfer| - 1].descNum
  {
  }

  // ---- What is left of finished chains ----

  /** A descriptor after memset with zeros. */
  const BLANK := Desc(0, 0, 0, 0, 0)

  predicate InWindow(x: Transfer, i: nat) { x.descIndex <= i < x.descIndex + x.descNum }

  predicate Hit(tfer: seq<Transfer>, i: nat) { exists k :: 0 <= k < |tfer| && InWindow(tfer[k], i) }

  /** The ring with the windows of these transfers zeroed. */
  function Cleared(ring: seq<Desc>, tfer: seq<Transfer>): (after: seq<Desc>)
    ensures |after| == |ring|
  {
    seq(|ring|, i requires 0 <= i < |ring| => if Hit(tfer, i) then BLANK else ring[i])
  }

  lemma HitOneMore(tfer: seq<Transfer>, x: Transfer, i: nat)
    ensures Hit(tfer + [x], i) <==> Hit(tfer, i) || InWindow(x, i)
  {
    if Hit(tfer, i) {
      var k :| 0 <= k < |tfer| && InWindow(tfer[k], i);
      assert InWindow((tfer + [x])[k], i);
    }
    if InWindow(x, i) {
      assert InWindow((tfer + [x])[|tfer|], i);
    }
  }

  lemma ClearedOneMore(ring: seq<Desc>, tfer: seq<Transfer>, x: Transfer)
    ensures Cleared(Cleared(ring, tfer), [x]) == Cleared(ring, tfer + [x])
    ensures Cleared(ring, []) == ring
  {
    hide Hit;
    forall i | 0 <= i < |ring|
      ensures Cleared(Cleared(ring, tfer), [x])[i] == Cleared(ring, tfer + [x])[i]
    {
      HitOneMore(tfer, x, i);
      HitOneMore([], x, i);
      NoHit(i);
      assert [] + [x] == [x];
    }
    forall i | 0 <= i < |ring|
      ensures Cleared(ring, [])[i] == ring[i]
    {
      NoHit(i);
    }
  }

  lemma NoHit(i: nat)
    ensures !Hit([], i)
  {
  }

  /** Of a chain that was only just built, clearing leaves nothing. */
  lemma ClearedWindow(before: seq<Desc>, after: seq<Desc>, x: Transfer)
    requires OnlyWindow(before, after, x.descIndex, x.descNum)
    ensures Cleared(after, [x]) == Cleared(before, [x])
  {
    hide Hit;
    forall i | 0 <= i < |before|
      ensures Cleared(after, [x])[i] == Cleared(before, [x])[i]
    {
      HitOneMore([], x, i);
      assert [] + [x] == [x];
    }
  }

  /** A chain survives the clearing of windows that have no slot in common with it. */
  lemma ChainSurvivesClearing(ring: seq<Desc>, tfer: seq<Transfer>, start: nat, spans: seq<Span>, ep: nat, mode: Mode,
                              bus: nat)
    requires HoldsChain(ring, start, spans, ep, mode, bus)
    requires forall k :: 0 <= k < |tfer| ==>
      start + |spans| <= tfer[k].descIndex || tfer[k].descIndex + tfer[k].descNum <= start
    ensures HoldsChain(Cleared(ring, tfer), start, spans, ep, mode, bus)
  {
    hide ChainDesc;
  }

  /** How many transfers a loop deals with that ends after the first failed one. */
  predicate StopsAfter(completed: seq<bool>, n: nat) {
    && n <= |completed| && (n == |completed| || (n > 0 && !completed[n - 1]))
    && forall k :: 0 <= k < n - 1 ==> completed[k]
  }

  // ---- The imperative form ----

  /** What transfer_desc_init leaves in a window. */
  predicate Linked(before: seq<Desc>, after: seq<Desc>, first: nat, n: nat, bus: nat) {
    && first + n <= |before| && OnlyWindow(before, after, first, n)
    && forall i :: first <= i < first + n ==>
      after[i] == before[i].(next := Link(bus, n, i - first), bytes := 0, control := MAGIC)
  }

  /** What transfer_build adds. */
  predicate Filled(before: seq<Desc>, after: seq<Desc>, first: nat, spans: seq<Span>, ep: nat, mode: Mode) {
    && first + |spans| <= |before| && OnlyWindow(before, after, first, |spans|)
    && forall i :: first <= i < first + |spans| ==>
      after[i] == DescSet(before[i], spans[i - first].addr, EpAt(spans, ep, mode, i - first), spans[i - first].len,
                          mode.toDevice)
  }

  /** What the loop over the adjacent numbers adds. */
  predicate Counted(before: seq<Desc>, after: seq<Desc>, first: nat, n: nat) {
    && first + n <= |before| && OnlyWindow(before, after, first, n)
    && forall i :: first <= i < first + n ==>
      after[i] == before[i].(control := SetAdjacent(before[i].control, NextAdj(n - (i - first) - 1,
        before[i].next % U32)))
  }

  /** One after the other, with the mark on the last descriptor, they build the chain. */
  lemma PassesBuildChain(d0: seq<Desc>, d1: seq<Desc>, d2: seq<Desc>, d3: seq<Desc>, d4: seq<Desc>, first: nat,
                         spans: seq<Span>, ep: nat, mode: Mode, bus: nat)
    requires |spans| > 0 && Linked(d0, d1, first, |spans|, bus) && Filled(d1, d2, first, spans, ep, mode)
    requires var last := first + |spans| - 1;
             d3 == d2[last := d2[last].(control := SetFlags(d2[last].control, LAST_FLAGS))]
    requires Counted(d3, d4, first, |spans|)
    ensures HoldsChain(d4, first, spans, ep, mode, bus) && OnlyWindow(d0, d4, first, |spans|)
  {
    hide EpAt, NextAdj, SetAdjacent, SetFlags, Link;
  }

  /** The requests of other submit loops. */
  function Callers(others: seq<seq<Request>>): set<Request> { set c, r | c in others && r in c :: r }

  lemma CallersAt(others: seq<seq<Request>>, k: nat)
    requires k < |others|
    ensures forall r :: r in others[k] ==> r in Callers(others)
    ensures Callers(others) == {} ==> others[k] == []
  {
    assert others[k] in others;
    if others[k] != [] {
      assert others[k] in others && others[k][0] in others[k];
      assert others[k][0] in Callers(others);
    }
  }

  class Request {
    const sdesc: seq<Span>
    var swDescIdx: nat
    var epAddr: nat

    constructor (sdesc: seq<Span>, epAddr: nat)
      ensures this.sdesc == sdesc && swDescIdx == 0 && this.epAddr == epAddr
    {
      this.sdesc, this.swDescIdx, this.epAddr := sdesc, 0, epAddr;
    }
  }

  class Engine {
    const desc: array<Desc>
    const descBus: nat
    const mode: Mode
    var descIdx: nat
    var descUsed: int

    /** The ring lies in the 64-bit bus address space. */
    predicate Valid()
      reads this
    {
      descIdx < desc.Length && descBus + DESC_SIZE * desc.Length <= U64
    }

    constructor (desc: array<Desc>, descBus: nat, mode: Mode)
      requires 0 < desc.Length && descBus + DESC_SIZE * desc.Length <= U64
      ensures Valid() && this.desc == desc && this.descBus == descBus && this.mode == mode
      ensures descIdx == 0 && descUsed == 0
    {
      this.desc, this.descBus, this.mode := desc, descBus, mode;
      descIdx, descUsed := 0, 0;
    }

    /** transfer_desc_init: a singly linked list without contents. */
    method DescInit(first: nat, bus: nat, count: nat)
      requires 0 < count && first + count <= desc.Length
      modifies desc
      ensures Linked(old(desc[..]), desc[..], first, count, bus)
    {
      var descBus' := bus;
      var i := 0;
      while i < count - 1
        invariant 0 <= i <= count - 1 && descBus' == bus + DESC_SIZE * i
        invariant forall k :: 0 <= k < desc.Length && !(first <= k < first + i) ==> desc[k] == old(desc[k])
        invariant forall k :: first <= k < first + i ==>
          desc[k] == old(desc[k]).(next := Link(bus, count, k - first), bytes := 0, control := MAGIC)
      {
        descBus' := descBus' + DESC_SIZE;
        desc[first + i] := desc[first + i].(next := descBus', bytes := 0, control := MAGIC);
        i := i + 1;
      }
      desc[first + i] := desc[first + i].(next := 0, bytes := 0, control := MAGIC);
    }

    /** transfer_build: the contents of the list. */
    method Build(req: Request, first: nat, count: nat) returns (len: nat)
      requires first + count <= desc.Length && req.swDescIdx + count <= |req.sdesc| && req.epAddr < U64
      modifies desc, req
      ensures var spans := req.sdesc[old(req.swDescIdx)..][..count];
              && Filled(old(desc[..]), desc[..], first, spans, old(req.epAddr), mode)
              && req.epAddr == EpAt(spans, old(req.epAddr), mode, count) < U64
              && len == Length32(spans, count)
      ensures req.swDescIdx == old(req.swDescIdx) + count
    {
      hide EpAt, Length32, DescSet, Add32, Add64;
      var sdesc := req.sdesc[req.swDescIdx..][..count];
      ghost var ep := req.epAddr;
      len := 0;
      EpStarts(sdesc, ep, mode);
      var i := 0;
      while i < count
        invariant 0 <= i <= count && req.swDescIdx == old(req.swDescIdx)
        invariant req.epAddr == EpAt(sdesc, ep, mode, i) < U64 && len == Length32(sdesc, i)
        invariant forall k :: 0 <= k < desc.Length && !(first <= k < first + i) ==> desc[k] == old(desc[k])
        invariant forall k :: first <= k < first + i ==>
          desc[k] == DescSet(old(desc[k]), sdesc[k - first].addr, EpAt(sdesc, ep, mode, k - first),
                             sdesc[k - first].len, mode.toDevice)
      {
        EpSteps(sdesc, ep, mode, i);
        desc[first + i] := DescSet(desc[first + i], sdesc[i].addr, req.epAddr, sdesc[i].len, mode.toDevice);
        len := Add32(len, sdesc[i].len);
        if !mode.nonIncrAddr {
          req.epAddr := Add64(req.epAddr, sdesc[i].len);
        }
        i := i + 1;
      }
      req.swDescIdx := req.swDescIdx + count;
    }

    /** The loop that fills in the adjacent numbers. */
    method FillAdjacent(first: nat, count: nat)
      requires first + count <= desc.Length
      modifies desc
      ensures Counted(old(desc[..]), desc[..], first, count)
    {
      var i := 0;
      while i < count
        invariant 0 <= i <= count
        invariant forall k :: 0 <= k < desc.Length && !(first <= k < first + i) ==> desc[k] == old(desc[k])
        invariant forall k :: first <= k < first + i ==>
          desc[k] == old(desc[k]).(control := SetAdjacent(old(desc[k].control),
                                   NextAdj(count - (k - first) - 1, old(desc[k].next) % U32)))
      {
        var nextAdj := NextAdj(count - i - 1, desc[first + i].next % U32);
        desc[first + i] := desc[first + i].(control := SetAdjacent(desc[first + i].control, nextAdj));
        i := i + 1;
      }
    }

    /** transfer_init: takes the next window of the ring and builds a chain in it. */
    method TransferInit(req: Request) returns (xfer: Transfer)
      requires Valid() && req.swDescIdx < |req.sdesc| && req.epAddr < U64
      modifies this, desc, req
      ensures Valid() && xfer.descIndex == old(descIdx) && !xfer.lastInRequest
      ensures Adds(old(desc[..]), desc[..], descBus, mode, req.sdesc, old(req.epAddr), xfer, old(req.swDescIdx))
      ensures descIdx == Slot(desc.Length, old(descIdx) + xfer.descNum) && descUsed == old(descUsed) + xfer.descNum
      ensures req.swDescIdx == old(req.swDescIdx) + xfer.descNum
      ensures req.epAddr == EpAt(req.sdesc[old(req.swDescIdx)..][..xfer.descNum], old(req.epAddr), mode, xfer.descNum)
      ensures req.epAddr < U64
    {
      hide EpAt, Length32, NextAdj, SetAdjacent, SetFlags, Link, DescSet, HoldsChain;
      var remaining := |req.sdesc| - req.swDescIdx;
      var descMax := if remaining < desc.Length then remaining else desc.Length;
      if descIdx + descMax >= desc.Length {
        descMax := desc.Length - descIdx;
      }
      var first, bus := descIdx, descBus + DESC_SIZE * descIdx;
      ghost var d0, spans, ep := desc[..], req.sdesc[req.swDescIdx..][..descMax], req.epAddr;
      DescInit(first, bus, descMax);
      ghost var d1 := desc[..];
      var len := Build(req, first, descMax);
      ghost var d2 := desc[..];
      var last := first + descMax - 1;
      desc[last] := desc[last].(control := SetFlags(desc[last].control, LAST_FLAGS));
      ghost var d3 := desc[..];
      descIdx, descUsed := (descIdx + descMax) % desc.Length, descUsed + descMax;
      FillAdjacent(first, descMax);
      xfer := Transfer(first, bus, descMax, descMax, len, false);
      assert descMax == WindowSize(desc.Length, old(descIdx), remaining);
      PassesBuildChain(d0, d1, d2, d3, desc[..], first, spans, ep, mode, bus);
      hide OnlyWindow, WindowSize, Linked, Filled, Counted;
    }

    /** What the submit loops have in common: the next transfer of a request, marked if it is the last one. */
    method NextTransfer(req: Request, nents: nat, tfer: seq<Transfer>, ghost rings: seq<seq<Desc>>, ghost ep: nat)
      returns (xfer: Transfer)
      requires Valid() && 0 < nents <= |req.sdesc| && req.swDescIdx == |req.sdesc| - nents && ep < U64
      requires req.epAddr == EpAt(req.sdesc, ep, mode, req.swDescIdx) < U64
      requires TakenSoFar(desc.Length, req.sdesc, tfer, req.swDescIdx) && Marked(tfer, nents)
      requires StandsInTurn(rings, descBus, mode, req.sdesc, ep, tfer)
      modifies this, desc, req
      ensures Valid() && xfer.descIndex == old(descIdx) && descIdx == Slot(desc.Length, old(descIdx) + xfer.descNum)
      ensures 0 < xfer.descNum <= nents && xfer.descIndex + xfer.descNum <= desc.Length
      ensures req.swDescIdx == old(req.swDescIdx) + xfer.descNum && descUsed == old(descUsed) + xfer.descNum
      ensures req.epAddr == EpAt(req.sdesc, ep, mode, req.swDescIdx) < U64
      ensures Offset(tfer, |tfer|) == old(req.swDescIdx)
      ensures TakenSoFar(desc.Length, req.sdesc, tfer + [xfer], req.swDescIdx)
      ensures Marked(tfer + [xfer], nents - xfer.descNum)
      ensures StandsInTurn(rings + [desc[..]], descBus, mode, req.sdesc, ep, tfer + [xfer])
      ensures var done := old(req.swDescIdx);
              Adds(old(desc[..]), desc[..], descBus, mode, req.sdesc, EpAt(req.sdesc, ep, mode, done), xfer, done)
      ensures Cleared(desc[..], [xfer]) == Cleared(old(desc[..]), [xfer])
      ensures xfer.len == Length32(req.sdesc[old(req.swDescIdx)..][..xfer.descNum], xfer.descNum)
    {
      hide EpAt, Adds, TakenSoFar, StandsInTurn, WindowSize, Slot, Offset, Cleared;
      ghost var done, before := req.swDescIdx, desc[..];
      xfer := TransferInit(req);
      ghost var epNow := EpAt(req.sdesc, ep, mode, done);
      AddsSome(before, desc[..], descBus, mode, req.sdesc, epNow, xfer, done);
      AddsMarked(before, desc[..], descBus, mode, req.sdesc, epNow, xfer, done, true);
      if nents == xfer.descNum {
        xfer := xfer.(lastInRequest := true);
      }
      TakesOneMore(desc.Length, req.sdesc, tfer, xfer, done);
      OneMore(before, desc[..], rings, descBus, mode, req.sdesc, ep, tfer, xfer, done);
      EpContinues(req.sdesc, ep, mode, done, xfer.descNum);
      ClearsAgain(before, desc[..], descBus, mode, req.sdesc, epNow, xfer, done);
    }

    /** Calls of transfer_init by other submit loops. */
    method Interrupt(others: seq<Request>)
      requires Valid() && forall r :: r in others ==> r.epAddr < U64
      modifies this, desc, others
      ensures Valid() && forall r :: r in others ==> r.epAddr < U64
      ensures |others| == 0 ==> descIdx == old(descIdx) && descUsed == old(descUsed) && desc[..] == old(desc[..])
    {
      for i := 0 to |others|
        invariant Valid() && forall r :: r in others ==> r.epAddr < U64
        invariant i == 0 ==> descIdx == old(descIdx) && descUsed == old(descUsed) && desc[..] == old(desc[..])
      {
        if others[i].swDescIdx < |others[i].sdesc| {
          var _ := TransferInit(others[i]);
        }
      }
    }

    /** Those of them that come at time k. */
    method LetIn(others: seq<seq<Request>>, k: nat)
      requires Valid() && forall r :: r in Callers(others) ==> r.epAddr < U64
      modifies this, desc, Callers(others)
      ensures Valid() && forall r :: r in Callers(others) ==> r.epAddr < U64
      ensures Callers(others) == {} ==>
        descIdx == old(descIdx) && descUsed == old(descUsed) && desc[..] == old(desc[..])
    {
      if k < |others| {
        CallersAt(others, k);
        Interrupt(others[k]);
      }
    }

    /**
     * The loop of xdma_xfer_submit_nowait: transfers until the request is used up. The engine lock is free between
     * them: others[k] are the requests for which transfer_init is called before transfer k of this one. The ghost
     * result keeps the ring as it was at first and right after each transfer of this request was built.
     */
    method Submit(req: Request, others: seq<seq<Request>>) returns (tfer: seq<Transfer>, ghost rings: seq<seq<Desc>>)
      requires Valid() && req.swDescIdx == 0 && req.epAddr < U64
      requires forall r :: r in Callers(others) ==> r != req && r.epAddr < U64
      modifies this, desc, req, Callers(others)
      ensures Valid() && TakesAll(desc.Length, req.sdesc, tfer) && Marked(tfer, 0)
      ensures |rings| == |tfer| + 1 && StandsInTurn(rings[1..], descBus, mode, req.sdesc, old(req.epAddr), tfer)
      ensures Callers(others) == {} ==>
        && InARow(desc.Length, old(descIdx), tfer) && descIdx == Slot(desc.Length, old(descIdx) + |req.sdesc|)
        && descUsed == old(descUsed) + |req.sdesc|
        && Built(rings, descBus, mode, req.sdesc, old(req.epAddr), tfer)
        && rings[0] == old(desc[..]) && rings[|tfer|] == desc[..]
    {
      hide EpAt, Adds, TakenSoFar, Built, StandsInTurn, WindowSize, Slot, InARow, Offset;
      ghost var p, ep := descIdx, req.epAddr;
      tfer, rings := [], [desc[..]];
      var nents := |req.sdesc|;
      NoTransfers(desc[..], p, descBus, mode, req.sdesc, ep);
      while nents > 0
        invariant Valid() && 0 <= nents <= |req.sdesc| && req.swDescIdx == |req.sdesc| - nents
        invariant forall r :: r in Callers(others) ==> r.epAddr < U64
        invariant req.epAddr == EpAt(req.sdesc, ep, mode, req.swDescIdx) < U64
        invariant TakenSoFar(desc.Length, req.sdesc, tfer, req.swDescIdx) && Marked(tfer, nents)
        invariant |rings| == |tfer| + 1 && StandsInTurn(rings[1..], descBus, mode, req.sdesc, ep, tfer)
        invariant Callers(others) == {} ==>
          && InARow(desc.Length, p, tfer) && descIdx == Slot(desc.Length, p + req.swDescIdx)
          && descUsed == old(descUsed) + req.swDescIdx
          && Built(rings, descBus, mode, req.sdesc, ep, tfer)
          && rings[0] == old(desc[..]) && rings[|tfer|] == desc[..]
      {
        ghost var done, earlier := req.swDescIdx, tfer;
        LetIn(others, |tfer|);
        var xfer := NextTransfer(req, nents, tfer, rings[1..], ep);
        nents := nents - xfer.descNum;
        tfer := tfer + [xfer];
        SlotSum(desc.Length, p + done, xfer.descNum);
        if Callers(others) == {} {
          OneMoreInARow(rings, desc[..], descBus, mode, req.sdesc, ep, earlier, xfer, p, done);
        }
        rings := rings + [desc[..]];
        assert rings[1..] == rings[..|earlier| + 1][1..] + [desc[..]];
      }
    }

    /** transfer_destroy, as far as the ring goes. */
    method TransferDestroy(xfer: Transfer)
      requires xfer.descIndex + xfer.descNum <= desc.Length
      modifies desc
      ensures desc[..] == Cleared(old(desc[..]), [xfer])
      ensures forall i :: xfer.descIndex <= i < xfer.descIndex + xfer.descNum ==> desc[i] == Desc(0, 0, 0, 0, 0)
    {
      hide Hit;
      forall i | 0 <= i < desc.Length
        ensures Hit([xfer], i) <==> InWindow(xfer, i)
      {
        HitOneMore([], xfer, i);
        NoHit(i);
        assert [] + [xfer] == [xfer];
      }
      forall i | xfer.descIndex <= i < xfer.descIndex + xfer.descNum {
        desc[i] := BLANK;
      }
    }

    /**
     * xdma_xfer_completion, called from io_done when the last transfer of a request is finished: it destroys the
     * transfers of the request in order, up to and including the first one that failed.
     */
    method XferCompletion(tfer: seq<Transfer>, completed: seq<bool>) returns (n: nat)
      requires |completed| == |tfer|
      requires forall k :: 0 <= k < |tfer| ==> tfer[k].descIndex + tfer[k].descNum <= desc.Length
      modifies desc, `descUsed
      ensures StopsAfter(completed, n)
      ensures desc[..] == Cleared(old(desc[..]), tfer[..n])
      ensures descUsed == old(descUsed) - Offset(tfer, n)
    {
      hide Cleared;
      n := 0;
      ClearedOneMore(desc[..], [], Transfer(0, 0, 0, 0, 0, false));
      while n < |tfer|
        invariant n <= |tfer| && forall k :: 0 <= k < n ==> completed[k]
        invariant desc[..] == Cleared(old(desc[..]), tfer[..n])
        invariant descUsed == old(descUsed) - Offset(tfer, n)
      {
        TransferDestroy(tfer[n]);
        ClearedOneMore(old(desc[..]), tfer[..n], tfer[n]);
        assert tfer[..n] + [tfer[n]] == tfer[..n + 1];
        descUsed := descUsed - tfer[n].descNum;
        n := n + 1;
        if !completed[n - 1] {
          return;
        }
      }
    }

    /**
     * The loop of xdma_xfer_submit: it waits for each transfer and destroys it before it builds the next one, and ends
     * early if one fails. others[2 * k] are the requests for which transfer_init is called before transfer k, and
     * others[2 * k + 1] while it is waited for. The result counts the bytes of the completed transfers; the ghost one
     * keeps the ring right after each transfer was built.
     */
    method SubmitAndWait(req: Request, others: seq<seq<Request>>, completed: nat -> bool)
      returns (ok: bool, done: nat, tfer: seq<Transfer>, ghost rings: seq<seq<Desc>>)
      requires Valid() && req.swDescIdx == 0 && req.epAddr < U64
      requires forall r :: r in Callers(others) ==> r != req && r.epAddr < U64
      modifies this, desc, req, Callers(others)
      ensures Valid() && TakenSoFar(desc.Length, req.sdesc, tfer, req.swDescIdx) && req.swDescIdx <= |req.sdesc|
      ensures StandsInTurn(rings, descBus, mode, req.sdesc, old(req.epAddr), tfer)
      ensures ok <==> forall k :: 0 <= k < |tfer| ==> completed(k)
      ensures forall k :: 0 <= k < |tfer| - 1 ==> completed(k)
      ensures ok ==> TakesAll(desc.Length, req.sdesc, tfer) && Marked(tfer, 0)
      ensures CountsBytes(req.sdesc, Offset(tfer, CompletedFirst(tfer, completed)), done)
      ensures ok && TotalLen(req.sdesc) < 0x1_0000_0000 ==> done == TotalLen(req.sdesc)
      ensures Callers(others) == {} ==>
        && desc[..] == Cleared(old(desc[..]), tfer) && descUsed == old(descUsed)
        && InARow(desc.Length, old(descIdx), tfer) && descIdx == Slot(desc.Length, old(descIdx) + req.swDescIdx)
    {
      hide EpAt, Adds, TakenSoFar, StandsInTurn, WindowSize, Slot, InARow, Offset, Cleared, Marked, TotalLen, Length32,
        CountsBytes, CompletedFirst;
      ghost var p, ep, first := descIdx, req.epAddr, desc[..];
      ok, done, tfer, rings := true, 0, [], [];
      NoneCounted(req.sdesc, completed);
      var nents := |req.sdesc|;
      NoTransfers(desc[..], p, descBus, mode, req.sdesc, ep);
      ClearedOneMore(first, [], Transfer(0, 0, 0, 0, 0, false));
      while nents > 0 && ok
        invariant Valid() && 0 <= nents <= |req.sdesc| && req.swDescIdx == |req.sdesc| - nents
        invariant forall r :: r in Callers(others) ==> r.epAddr < U64
        invariant req.epAddr == EpAt(req.sdesc, ep, mode, req.swDescIdx) < U64
        invariant TakenSoFar(desc.Length, req.sdesc, tfer, req.swDescIdx) && Marked(tfer, nents)
        invariant StandsInTurn(rings, descBus, mode, req.sdesc, ep, tfer)
        invariant ok <==> forall k :: 0 <= k < |tfer| ==> completed(k)
        invariant forall k :: 0 <= k < |tfer| - 1 ==> completed(k)
        invariant CountsBytes(req.sdesc, Offset(tfer, CompletedFirst(tfer, completed)), done)
        invariant Callers(others) == {} ==>
          && InARow(desc.Length, p, tfer) && descIdx == Slot(desc.Length, p + req.swDescIdx)
          && desc[..] == Cleared(first, tfer) && descUsed == old(descUsed)
      {
        ghost var from, earlier := req.swDescIdx, tfer;
        LetIn(others, 2 * |tfer|);
        var xfer := NextTransfer(req, nents, tfer, rings, ep);
        nents := nents - xfer.descNum;
        ok := completed(|tfer|);
        tfer := tfer + [xfer];
        rings := rings + [desc[..]];
        SlotSum(desc.Length, p + from, xfer.descNum);
        CountsOn(req.sdesc, earlier, from, xfer, completed, done);
        if ok {
          done := done + xfer.len;
        }
        LetIn(others, 2 * |tfer| - 1);
        TransferDestroy(xfer);
        descUsed := descUsed - xfer.descNum;
        ClearedOneMore(first, earlier, xfer);
        if Callers(others) == {} {
          OneMoreIndex(desc.Length, p, earlier, xfer, from);
        }
      }
      if ok {
        AllCounted(desc.Length, req.sdesc, tfer, completed, done);
      }
    }
  }
}
