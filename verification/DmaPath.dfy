/** From a user buffer to the bytes that the engine moves. */
module DmaPath {
  import opened PageMap
  import opened SwDesc
  import opened DescControl
  import opened DescRing
  import opened ChainWalk
  import opened RingWindows

  // ---- What the engine moves ----

  function Executed(ring: seq<Desc>, blocks: seq<Block>): seq<Desc>
    requires forall b :: b in blocks ==> b.first + b.count <= |ring|
  {
    if |blocks| == 0 then []
    else ring[blocks[0].first..blocks[0].first + blocks[0].count] + Executed(ring, blocks[1..])
  }

  lemma {:induction false} ExecutedInOrder(ring: seq<Desc>, blocks: seq<Block>, lo: nat, hi: nat)
    requires Covers(blocks, lo, hi) && hi <= |ring|
    ensures lo <= hi && forall b :: b in blocks ==> b.first + b.count <= |ring|
    ensures Executed(ring, blocks) == ring[lo..hi]
  {
    if |blocks| > 0 {
      ExecutedInOrder(ring, blocks[1..], lo + blocks[0].count, hi);
      assert forall b :: b in blocks ==> b == blocks[0] || b in blocks[1..];
    }
  }

  /** The descriptors that the engine executes when engine_start hands it this transfer. */
  function EngineRun(ring: seq<Desc>, base: nat, x: Transfer): seq<Desc> {
    match Walk(ring, base, x.descBus, NextAdj(x.descAdjacent, x.descBus % U32), |ring|)
    case None => []
    case Some(blocks) =>
      if forall b :: b in blocks ==> b.first + b.count <= |ring| then Executed(ring, blocks) else []
  }

  /** The host side and the device side of a descriptor. */
  function HostSpan(d: Desc, mode: Mode): Span { Span(if mode.toDevice then d.src else d.dst, d.bytes) }

  function EpSpan(d: Desc, mode: Mode): Span { Span(if mode.toDevice then d.dst else d.src, d.bytes) }

  /** Descriptor d moves span i, to or from the endpoint address that is its turn. */
  predicate MovesOne(d: Desc, spans: seq<Span>, ep: nat, mode: Mode, i: nat)
    requires i < |spans|
  {
    HostSpan(d, mode) == spans[i] && EpSpan(d, mode) == Span(EpAt(spans, ep, mode, i), spans[i].len)
  }

  predicate Moves(descs: seq<Desc>, spans: seq<Span>, ep: nat, mode: Mode) {
    |descs| == |spans| && forall i :: 0 <= i < |descs| ==> MovesOne(descs[i], spans, ep, mode, i)
  }

  /** Started on a chain, the engine executes exactly that chain. */
  lemma EngineRunsChain(ring: seq<Desc>, base: nat, mode: Mode, spans: seq<Span>, ep: nat, x: Transfer)
    requires base % DESC_SIZE == 0 && x.descAdjacent == |spans| > 0 && x.descBus == base + DESC_SIZE * x.descIndex
    requires HoldsChain(ring, x.descIndex, spans, ep, mode, x.descBus)
    ensures Moves(EngineRun(ring, base, x), spans, ep, mode)
  {
    hide EpAt, Walk, NextAdj, HoldsChain, ChainDesc;
    var start, n := x.descIndex, |spans|;
    ChainInRing(ring, start, spans, ep, mode, x.descBus);
    WalkFollowsChain(ring, base, start, spans, ep, mode, 0, |ring|);
    var blocks := Walk(ring, base, x.descBus, NextAdj(n, x.descBus % U32), |ring|).value;
    ExecutedInOrder(ring, blocks, start, start + n);
    assert EngineRun(ring, base, x) == ring[start..start + n];
    ChainMoves(ring, start, spans, ep, mode, x.descBus);
  }

  lemma ChainMoves(ring: seq<Desc>, start: nat, spans: seq<Span>, ep: nat, mode: Mode, bus: nat)
    requires HoldsChain(ring, start, spans, ep, mode, bus)
    ensures start + |spans| <= |ring| && Moves(ring[start..start + |spans|], spans, ep, mode)
  {
    hide EpAt, NextAdj, ControlWord;
  }

  /**
   * The descriptors that the engine executes for the first k transfers of a request, when rings[j] is the
   * ring at the time of transfer j.
   */
  function RequestRun(rings: seq<seq<Desc>>, base: nat, tfer: seq<Transfer>, k: nat): seq<Desc>
    requires k <= |tfer| == |rings|
  {
    if k == 0 then [] else RequestRun(rings, base, tfer, k - 1) + EngineRun(rings[k - 1], base, tfer[k - 1])
  }

  lemma EpRunsOn(sdesc: seq<Span>, ep: nat, mode: Mode, from: nat, n: nat, i: nat)
    requires from + n <= |sdesc| && i <= n && ep < U64
    ensures EpAt(sdesc[from..from + n], EpAt(sdesc, ep, mode, from), mode, i) == EpAt(sdesc, ep, mode, from + i)
  {
    EpContinues(sdesc, ep, mode, from, i);
    assert sdesc[from..from + n][..i] == sdesc[from..][..i];
    assert sdesc[from..][..i][..i] == sdesc[from..][..i];
  }

  /**
   * Transfer by transfer, the engine works off the software descriptors of a request in order, once each. The transfers
   * may lie anywhere in the ring.
   */
  lemma {:induction false} RequestMoves(rings: seq<seq<Desc>>, base: nat, mode: Mode, descMax: nat, sdesc: seq<Span>,
                                        ep: nat, tfer: seq<Transfer>, taken: nat, k: nat)
    requires base % DESC_SIZE == 0 && ep < U64 && k <= |tfer|
    requires TakenSoFar(descMax, sdesc, tfer, taken) && StandsInTurn(rings, base, mode, sdesc, ep, tfer)
    ensures Offset(tfer, k) <= |sdesc|
    ensures Moves(RequestRun(rings, base, tfer, k), sdesc[..Offset(tfer, k)], ep, mode)
  {
    hide EngineRun, EpAt, HoldsChain, TakenSoFar, Offset;
    assert Offset(tfer, 0) == 0 by {
      hide *;
      NothingBefore(tfer);
    }
    if k > 0 {
      hide Moves;
      TakesSoFarAt(descMax, sdesc, tfer, taken, k - 1);
      RequestMoves(rings, base, mode, descMax, sdesc, ep, tfer, taken, k - 1);
      var from, n := Offset(tfer, k - 1), tfer[k - 1].descNum;
      assert Stands(rings[k - 1], base, mode, sdesc, ep, tfer, k - 1);
      EngineRunsChain(rings[k - 1], base, mode, sdesc[from..from + n], EpAt(sdesc, ep, mode, from), tfer[k - 1]);
      MovesOn(RequestRun(rings, base, tfer, k - 1), EngineRun(rings[k - 1], base, tfer[k - 1]), sdesc, ep, mode, from,
        n);
    }
  }

  lemma NothingBefore(tfer: seq<Transfer>)
    ensures Offset(tfer, 0) == 0
  {
  }

  lemma MovesOn(descs: seq<Desc>, more: seq<Desc>, sdesc: seq<Span>, ep: nat, mode: Mode, from: nat, n: nat)
    requires from + n <= |sdesc| && ep < U64
    requires Moves(descs, sdesc[..from], ep, mode) && Moves(more, sdesc[from..from + n], EpAt(sdesc, ep, mode, from),
      mode)
    ensures Moves(descs + more, sdesc[..from + n], ep, mode)
  {
    hide EpAt, MovesOne;
    forall i | 0 <= i < from + n
      ensures MovesOne((descs + more)[i], sdesc[..from + n], ep, mode, i)
    {
      EpOfPrefix(sdesc, from + n, ep, mode, i);
      if i < from {
        assert MovesOne(descs[i], sdesc[..from], ep, mode, i);
        EpOfPrefix(sdesc, from, ep, mode, i);
        SameMove(descs[i], sdesc[..from], ep, i, sdesc[..from + n], ep, i, mode);
      } else {
        var e := EpAt(sdesc, ep, mode, from);
        assert MovesOne(more[i - from], sdesc[from..from + n], e, mode, i - from);
        EpRunsOn(sdesc, ep, mode, from, n, i - from);
        SameMove(more[i - from], sdesc[from..from + n], e, i - from, sdesc[..from + n], ep, i, mode);
      }
    }
  }

  lemma SameMove(d: Desc, spans: seq<Span>, ep: nat, i: nat, spans': seq<Span>, ep': nat, i': nat, mode: Mode)
    requires i < |spans| && i' < |spans'| && spans[i] == spans'[i']
    requires EpAt(spans, ep, mode, i) == EpAt(spans', ep', mode, i')
    ensures MovesOne(d, spans, ep, mode, i) == MovesOne(d, spans', ep', mode, i')
  {
    hide EpAt;
  }

  lemma EpOfPrefix(sdesc: seq<Span>, n: nat, ep: nat, mode: Mode, i: nat)
    requires i <= n <= |sdesc|
    ensures EpAt(sdesc[..n], ep, mode, i) == EpAt(sdesc, ep, mode, i)
  {
    assert sdesc[..n][..i] == sdesc[..i];
  }

  // ---- The bytes ----

  function HostSpans(descs: seq<Desc>, mode: Mode): seq<Span> {
    seq(|descs|, i requires 0 <= i < |descs| => HostSpan(descs[i], mode))
  }

  function EpSpans(descs: seq<Desc>, mode: Mode): seq<Span> {
    seq(|descs|, i requires 0 <= i < |descs| => EpSpan(descs[i], mode))
  }

  function Consecutive(ep: nat, n: nat): seq<nat> { seq(n, k => ep + k) }

  /**
   * In incremental mode the endpoint addresses are consecutive; in the other mode each descriptor starts again at the
   * first.
   */
  lemma {:induction false} EndpointAddresses(descs: seq<Desc>, spans: seq<Span>, ep: nat, mode: Mode)
    requires Moves(descs, spans, ep, mode) && ep + TotalLen(spans) < U64
    ensures !mode.nonIncrAddr ==> Bytes(EpSpans(descs, mode)) == Consecutive(ep, TotalLen(spans))
    ensures mode.nonIncrAddr ==> forall i :: 0 <= i < |descs| ==> EpSpans(descs, mode)[i] == Span(ep, spans[i].len)
  {
    hide Consecutive, SpanBytes;
    if mode.nonIncrAddr {
      forall i | 0 <= i < |descs|
        ensures EpSpans(descs, mode)[i] == Span(ep, spans[i].len)
      {
        assert MovesOne(descs[i], spans, ep, mode, i);
      }
    } else if |descs| > 0 {
      var n := |descs| - 1;
      MovesPrefix(descs, spans, ep, mode);
      EndpointAddresses(descs[..n], spans[..n], ep, mode);
      hide Moves, EpAt, Bytes, TotalLen, EpSpan;
      EpSpansGrow(descs, mode);
      OneSpanMore(EpSpans(descs[..n], mode), EpSpan(descs[n], mode));
      OneSpanMore(spans[..n], spans[n]);
      assert spans[..n] + [spans[n]] == spans;
      ConsecutiveGrows(ep, TotalLen(spans[..n]), spans[n].len);
    } else {
      NothingConsecutive(ep);
    }
  }

  lemma NothingConsecutive(ep: nat)
    ensures Consecutive(ep, 0) == []
  {
  }

  lemma EpSpansGrow(descs: seq<Desc>, mode: Mode)
    requires |descs| > 0
    ensures var n := |descs| - 1;
            EpSpans(descs, mode) == EpSpans(descs[..n], mode) + [EpSpan(descs[n], mode)]
  {
  }

  lemma ConsecutiveGrows(ep: nat, n: nat, len: nat)
    ensures Consecutive(ep, n + len) == Consecutive(ep, n) + SpanBytes(Span(ep + n, len))
  {
  }

  lemma MovesPrefix(descs: seq<Desc>, spans: seq<Span>, ep: nat, mode: Mode)
    requires Moves(descs, spans, ep, mode) && |descs| > 0
    ensures var n := |descs| - 1;
            && Moves(descs[..n], spans[..n], ep, mode)
            && (!mode.nonIncrAddr && ep + TotalLen(spans) < U64 ==>
                  EpSpan(descs[n], mode) == Span(ep + TotalLen(spans[..n]), spans[n].len))
  {
    var n := |descs| - 1;
    forall i | 0 <= i < n
      ensures MovesOne(descs[..n][i], spans[..n], ep, mode, i)
    {
      hide EpAt, MovesOne;
      assert MovesOne(descs[i], spans, ep, mode, i);
      EpOfPrefix(spans, n, ep, mode, i);
      SameMove(descs[i], spans, ep, i, spans[..n], ep, i, mode);
    }
    assert MovesOne(descs[n], spans, ep, mode, n);
  }

  /** The bus addresses of memory locations, for a mapping that keeps every page in one piece. */
  function OnBus(bytes: seq<Location>, frame: nat -> nat): (addrs: seq<nat>)
    ensures |addrs| == |bytes| && forall k :: 0 <= k < |bytes| ==> addrs[k] == frame(bytes[k].0) + bytes[k].1
  {
    if |bytes| == 0 then [] else [frame(bytes[0].0) + bytes[0].1] + OnBus(bytes[1..], frame)
  }

  /**
   * The whole path: the pages of a user buffer, mapped to any bus spans with the same bytes, cut into
   * bounded software descriptors and built into chains, are moved by the engine byte for byte, in order,
   * each byte once, provided that each chain stands when its turn comes.
   */
  lemma BufferIsMoved(buf: nat, len: nat, pages: seq<nat>, entries: seq<SgEntry>, frame: nat -> nat, mapped: seq<Span>,
                      blenMax: nat, rings: seq<seq<Desc>>, base: nat, mode: Mode, descMax: nat, ep: nat,
                      tfer: seq<Transfer>)
    requires len < U32 && PageCount(buf, len) <= |pages| && BytesOf(entries) == UserBytes(buf, len, pages)
    requires Bytes(mapped) == OnBus(BytesOf(entries), frame) && 0 < blenMax
    requires base % DESC_SIZE == 0 && ep < U64
    requires TakesAll(descMax, Cuts(mapped, blenMax), tfer)
    requires StandsInTurn(rings, base, mode, Cuts(mapped, blenMax), ep, tfer)
    ensures var moved := HostSpans(RequestRun(rings, base, tfer, |tfer|), mode);
            Bytes(moved) == OnBus(UserBytes(buf, len, pages), frame)
  {
    hide TakenSoFar, RequestRun, OnBus, UserBytes, BytesOf, PageCount, Cuts, Bytes, EpAt;
    var sdesc := Cuts(mapped, blenMax);
    CutsKeepBytes(mapped, blenMax);
    RequestMoves(rings, base, mode, descMax, sdesc, ep, tfer, |sdesc|, |tfer|);
    AllTaken(descMax, sdesc, tfer);
    assert sdesc[..|sdesc|] == sdesc;
    assert HostSpans(RequestRun(rings, base, tfer, |tfer|), mode) == sdesc;
  }

  // ---- When the engine comes late ----

  /** No later software descriptor reads like the first one: bytes from the same place to or from the same place. */
  predicate FirstIsUnique(sdesc: seq<Span>, ep: nat, mode: Mode) {
    forall g :: 0 < g < |sdesc| ==> sdesc[g] != sdesc[0] || EpAt(sdesc, ep, mode, g) != EpAt(sdesc, ep, mode, 0)
  }

  /** In incremental mode the endpoint addresses tell the descriptors apart. */
  lemma EndpointsTellApart(sdesc: seq<Span>, ep: nat, mode: Mode)
    requires !mode.nonIncrAddr && ep + TotalLen(sdesc) < U64
    requires forall i :: 0 <= i < |sdesc| ==> sdesc[i].len > 0
    ensures FirstIsUnique(sdesc, ep, mode)
  {
    hide TotalLen;
    forall g | 0 < g < |sdesc|
      ensures EpAt(sdesc, ep, mode, g) != EpAt(sdesc, ep, mode, 0)
    {
      TotalGrows(sdesc, 0, g);
      TotalGrows(sdesc, g, |sdesc|);
      assert sdesc[..|sdesc|] == sdesc;
    }
  }

  lemma {:induction false} TotalGrows(sdesc: seq<Span>, i: nat, j: nat)
    requires i <= j <= |sdesc| && forall k :: 0 <= k < |sdesc| ==> sdesc[k].len > 0
    ensures TotalLen(sdesc[..i]) + (j - i) <= TotalLen(sdesc[..j])
  {
    if i < j {
      TotalGrows(sdesc, i, j - 1);
      assert sdesc[..j][..j - 1] == sdesc[..j - 1];
    }
  }

  /** The descriptor in this slot belongs to some software descriptor after the first. */
  predicate HoldsLater(d: Desc, sdesc: seq<Span>, ep: nat, mode: Mode) {
    exists g :: 0 < g < |sdesc| && MovesOne(d, sdesc, ep, mode, g)
  }

  /** What slot i of transfer k holds once it has been built. */
  lemma BuiltSlot(ring: seq<Desc>, base: nat, mode: Mode, sdesc: seq<Span>, ep: nat, tfer: seq<Transfer>, k: nat,
                  i: nat)
    requires k < |tfer| && Stands(ring, base, mode, sdesc, ep, tfer, k) && i < tfer[k].descNum && ep < U64
    ensures tfer[k].descIndex + i < |ring| && Offset(tfer, k) + i < |sdesc|
    ensures MovesOne(ring[tfer[k].descIndex + i], sdesc, ep, mode, Offset(tfer, k) + i)
  {
    hide EpAt, NextAdj, ControlWord, Offset;
    var from, n, start := Offset(tfer, k), tfer[k].descNum, tfer[k].descIndex;
    var spans, e := sdesc[from..from + n], EpAt(sdesc, ep, mode, from);
    assert ring[start + i] == ChainDesc(spans, e, mode, tfer[k].descBus, start + i - start);
    EpRunsOn(sdesc, ep, mode, from, n, i);
    SameMove(ring[start + i], spans, e, i, sdesc, ep, from + i, mode);
  }

  /** From the second transfer on, the first slot of the first chain holds a later descriptor. */
  lemma {:induction false} FirstSlotIsLost(rings: seq<seq<Desc>>, descMax: nat, base: nat, mode: Mode, p: nat,
                                           sdesc: seq<Span>, ep: nat, tfer: seq<Transfer>, j: nat)
    requires p < descMax < |sdesc| && ep < U64 && 1 < j <= |tfer|
    requires Partition(descMax, p, sdesc, tfer) && Built(rings, base, mode, sdesc, ep, tfer)
    requires |rings[0]| == descMax
    ensures |rings[j]| == descMax && HoldsLater(rings[j][p], sdesc, ep, mode)
    decreases j
  {
    hide Partition, BuiltAt, MovesOne, Offset;
    SecondChainOverwritesFirst(descMax, p, sdesc, tfer);
    RingKeepsSize(rings, base, mode, sdesc, ep, tfer, j);
    var x := tfer[j - 1];
    var i := p - x.descIndex;
    if 0 <= i < x.descNum {
      assert BuiltAt(rings, base, mode, sdesc, ep, tfer, j - 1);
      StandsWhenBuilt(rings, base, mode, sdesc, ep, tfer, j - 1);
      BuiltSlot(rings[j], base, mode, sdesc, ep, tfer, j - 1, i);
      LaterOffset(descMax, p, sdesc, tfer, j - 1);
    } else {
      FirstSlotIsLost(rings, descMax, base, mode, p, sdesc, ep, tfer, j - 1);
      OutsideStays(rings, base, mode, sdesc, ep, tfer, j - 1, p);
    }
  }

  lemma StandsWhenBuilt(rings: seq<seq<Desc>>, base: nat, mode: Mode, sdesc: seq<Span>, ep: nat, tfer: seq<Transfer>,
                        k: nat)
    requires Built(rings, base, mode, sdesc, ep, tfer) && k < |tfer|
    ensures Stands(rings[k + 1], base, mode, sdesc, ep, tfer, k)
  {
    hide Stands, OnlyWindow;
    assert BuiltAt(rings, base, mode, sdesc, ep, tfer, k);
  }

  lemma OutsideStays(rings: seq<seq<Desc>>, base: nat, mode: Mode, sdesc: seq<Span>, ep: nat, tfer: seq<Transfer>,
                     k: nat, slot: nat)
    requires Built(rings, base, mode, sdesc, ep, tfer) && k < |tfer| && slot < |rings[k]|
    requires !(tfer[k].descIndex <= slot < tfer[k].descIndex + tfer[k].descNum)
    ensures slot < |rings[k + 1]| && rings[k + 1][slot] == rings[k][slot]
  {
    hide Stands;
    assert BuiltAt(rings, base, mode, sdesc, ep, tfer, k);
  }

  lemma {:induction false} RingKeepsSize(rings: seq<seq<Desc>>, base: nat, mode: Mode, sdesc: seq<Span>, ep: nat,
                                         tfer: seq<Transfer>, j: nat)
    requires Built(rings, base, mode, sdesc, ep, tfer) && j <= |tfer|
    ensures |rings[j]| == |rings[0]|
  {
    hide Stands;
    if j > 0 {
      assert BuiltAt(rings, base, mode, sdesc, ep, tfer, j - 1);
      RingKeepsSize(rings, base, mode, sdesc, ep, tfer, j - 1);
    }
  }

  lemma LaterOffset(descMax: nat, p: nat, sdesc: seq<Span>, tfer: seq<Transfer>, k: nat)
    requires p < descMax && Partition(descMax, p, sdesc, tfer) && 0 < k < |tfer|
    ensures Offset(tfer, k) > 0
  {
    hide TakesAll, Offset;
    TakesAt(descMax, sdesc, tfer, 0);
    OffsetsGrow(descMax, sdesc, tfer, 0, k);
  }

  /** If the request is longer than the ring, its first chain no longer stands at the end. */
  lemma FirstChainIsLost(rings: seq<seq<Desc>>, descMax: nat, base: nat, mode: Mode, p: nat, sdesc: seq<Span>, ep: nat,
                         tfer: seq<Transfer>)
    requires p < descMax < |sdesc| && Partition(descMax, p, sdesc, tfer) && Built(rings, base, mode, sdesc, ep, tfer)
    requires |rings[0]| == descMax && ep < U64 && FirstIsUnique(sdesc, ep, mode)
    ensures |tfer| > 0 && !Stands(rings[|tfer|], base, mode, sdesc, ep, tfer, 0)
  {
    hide Stands, BuiltAt, Partition, Offset, FirstIsUnique, MovesOne, HoldsLater;
    OuterOffsets(descMax, p, sdesc, tfer);
    SecondChainOverwritesFirst(descMax, p, sdesc, tfer);
    FirstSlotIsLost(rings, descMax, base, mode, p, sdesc, ep, tfer, |tfer|);
    if Stands(rings[|tfer|], base, mode, sdesc, ep, tfer, 0) {
      BuiltSlot(rings[|tfer|], base, mode, sdesc, ep, tfer, 0, 0);
      OnlyFirst(rings[|tfer|][p], sdesc, ep, mode);
      assert false;
    }
  }

  /**
   * After an uninterrupted submit loop all chains stand, and the engine may be started that late, exactly when the
   * request fits the ring.
   */
  lemma AllStandAtTheEnd(rings: seq<seq<Desc>>, descMax: nat, base: nat, mode: Mode, p: nat, sdesc: seq<Span>, ep: nat,
                         tfer: seq<Transfer>)
    requires p < descMax && Partition(descMax, p, sdesc, tfer) && Built(rings, base, mode, sdesc, ep, tfer)
    requires |rings[0]| == descMax && ep < U64 && FirstIsUnique(sdesc, ep, mode)
    ensures StandsInTurn(seq(|tfer|, _ => rings[|tfer|]), base, mode, sdesc, ep, tfer) <==> |sdesc| <= descMax
  {
    hide Stands, BuiltAt, Partition, Offset, FirstIsUnique;
    var late := seq(|tfer|, _ => rings[|tfer|]);
    if |sdesc| <= descMax {
      OuterOffsets(descMax, p, sdesc, tfer);
      forall k | 0 <= k < |tfer|
        ensures Stands(late[k], base, mode, sdesc, ep, tfer, k)
      {
        ChainStandsLater(rings, descMax, base, mode, p, sdesc, ep, tfer, k, |tfer|);
      }
    } else {
      FirstChainIsLost(rings, descMax, base, mode, p, sdesc, ep, tfer);
      assert late[0] == rings[|tfer|];
    }
  }

  lemma OuterOffsets(descMax: nat, p: nat, sdesc: seq<Span>, tfer: seq<Transfer>)
    requires p < descMax && Partition(descMax, p, sdesc, tfer)
    ensures Offset(tfer, |tfer|) == |sdesc| && Offset(tfer, 0) == 0
  {
    AllTaken(descMax, sdesc, tfer);
  }

  /** A descriptor that reads like the first one is not a later one. */
  lemma OnlyFirst(d: Desc, sdesc: seq<Span>, ep: nat, mode: Mode)
    requires |sdesc| > 0 && FirstIsUnique(sdesc, ep, mode) && MovesOne(d, sdesc, ep, mode, 0)
    ensures !HoldsLater(d, sdesc, ep, mode)
  {
    hide EpAt;
  }

  // ---- Chain by chain ----

  /** The call of transfer_init for transfer k; befores[k] and afters[k] are the ring before and after it. */
  predicate BuiltBetween(befores: seq<seq<Desc>>, afters: seq<seq<Desc>>, descMax: nat, base: nat, mode: Mode,
                         sdesc: seq<Span>, ep: nat, tfer: seq<Transfer>, k: nat)
    requires |befores| == |afters| == |tfer| && k < |tfer|
  {
    var from := Offset(tfer, k);
    && |befores[k]| == descMax && from <= |sdesc|
    && Adds(befores[k], afters[k], base, mode, sdesc, EpAt(sdesc, ep, mode, from), tfer[k], from)
  }

  /** One transfer is built after the other; whatever happens to the ring in between. */
  predicate BuiltOneByOne(befores: seq<seq<Desc>>, afters: seq<seq<Desc>>, descMax: nat, base: nat, mode: Mode,
                          sdesc: seq<Span>, ep: nat, tfer: seq<Transfer>)
  {
    && |befores| == |afters| == |tfer| && Offset(tfer, |tfer|) == |sdesc|
    && forall k :: 0 <= k < |tfer| ==> BuiltBetween(befores, afters, descMax, base, mode, sdesc, ep, tfer, k)
  }

  lemma OneByOneTakes(befores: seq<seq<Desc>>, afters: seq<seq<Desc>>, descMax: nat, base: nat, mode: Mode,
                      sdesc: seq<Span>, ep: nat, tfer: seq<Transfer>)
    requires BuiltOneByOne(befores, afters, descMax, base, mode, sdesc, ep, tfer)
    ensures TakesAll(descMax, sdesc, tfer) && StandsInTurn(afters, base, mode, sdesc, ep, tfer)
  {
    hide EpAt, WindowSize, HoldsChain, Offset, OnlyWindow, Length32;
    forall k | 0 <= k < |tfer|
      ensures Takes(descMax, sdesc, tfer, |sdesc|, k) && Stands(afters[k], base, mode, sdesc, ep, tfer, k)
    {
      assert BuiltBetween(befores, afters, descMax, base, mode, sdesc, ep, tfer, k);
      var from := Offset(tfer, k);
      assert sdesc[from..][..tfer[k].descNum] == sdesc[from..from + tfer[k].descNum];
    }
  }

  /** For every buffer: chains that are executed one by one as they are built move it. */
  lemma BufferIsMovedChainByChain(buf: nat, len: nat, pages: seq<nat>, entries: seq<SgEntry>, frame: nat -> nat,
                                  mapped: seq<Span>, blenMax: nat, befores: seq<seq<Desc>>, afters: seq<seq<Desc>>,
                                  base: nat, mode: Mode, descMax: nat, ep: nat, tfer: seq<Transfer>)
    requires len < U32 && PageCount(buf, len) <= |pages| && BytesOf(entries) == UserBytes(buf, len, pages)
    requires Bytes(mapped) == OnBus(BytesOf(entries), frame) && 0 < blenMax
    requires base % DESC_SIZE == 0 && ep < U64
    requires BuiltOneByOne(befores, afters, descMax, base, mode, Cuts(mapped, blenMax), ep, tfer)
    ensures var moved := HostSpans(RequestRun(afters, base, tfer, |tfer|), mode);
            Bytes(moved) == OnBus(UserBytes(buf, len, pages), frame)
  {
    hide TakesAll, BuiltBetween, Stands, RequestRun, OnBus, UserBytes, BytesOf, PageCount, Cuts, Bytes;
    OneByOneTakes(befores, afters, descMax, base, mode, Cuts(mapped, blenMax), ep, tfer);
    BufferIsMoved(buf, len, pages, entries, frame, mapped, blenMax, afters, base, mode, descMax, ep, tfer);
  }

  // ---- The calls in order ----

  /** DMA mapping keeps the bytes, and its table fits a request. */
  predicate MapsTable(entries: seq<SgEntry>, mapped: seq<Span>, frame: nat -> nat, blenMax: nat, header: nat) {
    && Bytes(mapped) == OnBus(BytesOf(entries), frame)
    && Widths(mapped, blenMax) && NoneEmpty(mapped) && Fits(mapped, blenMax, header)
  }

  /** It does so with any table for this buffer. */
  ghost predicate MapsBuffer(buf: nat, len: nat, pages: seq<nat>, dma: seq<SgEntry> -> seq<Span>, frame: nat -> nat,
                             blenMax: nat, header: nat)
    requires len < U32 && PageCount(buf, len) <= |pages|
  {
    forall entries :: |entries| == PageCount(buf, len) && BytesOf(entries) == UserBytes(buf, len, pages) ==>
      MapsTable(entries, dma(entries), frame, blenMax, header)
  }

  /**
   * The blocking path from the user buffer to the moved bytes, with any calls of other submit loops in between: the
   * engine executes each chain when it has been built, and the call returns n if the transfers up to the first failed
   * one have moved the first n bytes of the buffer, in order. It is an error if none was moved and a transfer failed.
   * With no calls in between, the ring is then as it was but for the cleared windows.
   */
  method SubmitBuffer(engine: Engine, buf: nat, len: nat, kernel: Kernel, dma: seq<SgEntry> -> seq<Span>,
                      ghost frame: nat -> nat, blenMax: nat, header: nat, epAddr: nat, others: seq<seq<Request>>,
                      completed: nat -> bool)
    returns (r: Result<nat>, tfer: seq<Transfer>, ghost rings: seq<seq<Desc>>)
    requires engine.Valid() && engine.descBus % DESC_SIZE == 0 && buf + len <= U64 && epAddr < U64
    requires forall q :: q in Callers(others) ==> q.epAddr < U64
    requires len < U32 && Pins(kernel, PageCount(buf, len)) ==>
      MapsBuffer(buf, len, kernel.pinned.value, dma, frame, blenMax, header)
    modifies engine, engine.desc, Callers(others)
    ensures |rings| == |tfer|
    ensures !Mappable(buf, len, kernel) ==> r == Err(Fault(kernel, PageCount(buf, len)))
    ensures Mappable(buf, len, kernel) ==>
      var n := if r.Ok? then r.value else 0;
      var moved := HostSpans(RequestRun(rings, engine.descBus, tfer, CompletedFirst(tfer, completed)), engine.mode);
      n <= len && Bytes(moved) == OnBus(UserBytes(buf, len, kernel.pinned.value), frame)[..n]
    ensures Mappable(buf, len, kernel) ==>
      if forall k :: 0 <= k < |tfer| ==> completed(k) then r == Ok(len)
      else if r.Ok? then 0 < r.value else r == Err(EIO)
    ensures Callers(others) == {} ==>
      engine.desc[..] == Cleared(old(engine.desc[..]), tfer) && engine.descUsed == old(engine.descUsed)
  {
    hide PageCount, Pins, BytesOf, UserBytes, Bytes, OnBus, Fits, NoneEmpty, Widths, Cuts, TakesAll, TakenSoFar,
      Stands, RequestRun, HostSpans, InARow, Marked, Cleared, TotalLen;
    tfer, rings := [], [];
    ClearedOneMore(engine.desc[..], [], Transfer(0, 0, 0, 0, 0, false));
    var sgl := MapUserBuf(buf, len, kernel);
    if sgl.Err? {
      return Err(sgl.errno), tfer, rings;
    }
    var mapped := dma(sgl.value);
    PinsEnough(kernel, PageCount(buf, len));
    assert MapsTable(sgl.value, mapped, frame, blenMax, header);
    LimitIsPositive(mapped, blenMax);
    var ok, sdesc, swDescCnt, _ := InitRequest(mapped, blenMax, header);
    assert ok;
    var req := new Request(sdesc[..swDescCnt], epAddr);
    var done: nat;
    ok, done, tfer, rings := engine.SubmitAndWait(req, others, completed);
    r := if done > 0 || ok then Ok(done) else Err(EIO);
    AllBytes(mapped, blenMax, frame, sgl.value, len);
    CompletedMove(mapped, blenMax, rings, engine.descBus, engine.mode, engine.desc.Length, epAddr, tfer, req.swDescIdx,
                  CompletedFirst(tfer, completed), done);
  }

  predicate Mappable(buf: nat, len: nat, kernel: Kernel) {
    0 < PageCount(buf, len) && Pins(kernel, PageCount(buf, len)) && len < U32
  }

  /** The first k transfers move the first bytes of the buffer. */
  lemma CompletedMove(mapped: seq<Span>, blenMax: nat, rings: seq<seq<Desc>>, base: nat, mode: Mode, descMax: nat,
                      ep: nat, tfer: seq<Transfer>, taken: nat, k: nat, done: nat)
    requires 0 < blenMax && base % DESC_SIZE == 0 && ep < U64 && k <= |tfer|
    requires TakenSoFar(descMax, Cuts(mapped, blenMax), tfer, taken)
    requires StandsInTurn(rings, base, mode, Cuts(mapped, blenMax), ep, tfer)
    requires CountsBytes(Cuts(mapped, blenMax), Offset(tfer, k), done) && TotalLen(Cuts(mapped, blenMax)) < U32
    ensures done <= |Bytes(mapped)|
    ensures Bytes(HostSpans(RequestRun(rings, base, tfer, k), mode)) == Bytes(mapped)[..done]
  {
    hide TakenSoFar, Stands, RequestRun, Cuts, Bytes, EpAt, Offset, TotalLen;
    var sdesc, i := Cuts(mapped, blenMax), Offset(tfer, k);
    CutsKeepBytes(mapped, blenMax);
    RequestMoves(rings, base, mode, descMax, sdesc, ep, tfer, taken, k);
    assert HostSpans(RequestRun(rings, base, tfer, k), mode) == sdesc[..i];
    assert sdesc == sdesc[..i] + sdesc[i..];
    BytesAppend(sdesc[..i], sdesc[i..]);
    BytesCount(sdesc[..i]);
  }

  /** The software descriptors together have the length of the buffer. */
  lemma AllBytes(mapped: seq<Span>, blenMax: nat, frame: nat -> nat, entries: seq<SgEntry>, len: nat)
    requires 0 < blenMax && Bytes(mapped) == OnBus(BytesOf(entries), frame) && |BytesOf(entries)| == len
    ensures TotalLen(Cuts(mapped, blenMax)) == len
  {
    hide Bytes, TotalLen, Cuts, BytesOf;
    CutsKeepBytes(mapped, blenMax);
    BytesCount(Cuts(mapped, blenMax));
  }

  lemma PinsEnough(kernel: Kernel, n: nat)
    requires Pins(kernel, n)
    ensures kernel.pinned.Ok? && |kernel.pinned.value| == n
  {
  }

  lemma LimitIsPositive(sgl: seq<Span>, blenMax: nat)
    requires Widths(sgl, blenMax)
    ensures 0 < blenMax
  {
  }
}
