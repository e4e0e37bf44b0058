/** Which windows of the ring the transfers of a request get, when they overlap, and what keeps a chain alive. */
module RingWindows {
  import opened Division
  import opened SwDesc
  import opened DescRing

  // ---- How many transfers a request takes ----

  /** The windows that the submit loop takes for this many descriptors. */
  function Windows(descMax: nat, descIdx: nat, count: nat): seq<nat>
    requires descIdx < descMax
    decreases count
  {
    if count == 0 then []
    else
      var n := WindowSize(descMax, descIdx, count);
      WindowFits(descMax, descIdx, count);
      [n] + Windows(descMax, Slot(descMax, descIdx + n), count - n)
  }

  lemma WindowsStep(descMax: nat, descIdx: nat, count: nat)
    requires descIdx < descMax && 0 < count
    ensures var n := WindowSize(descMax, descIdx, count);
            n <= count && Windows(descMax, descIdx, count) == [n] + Windows(descMax, Slot(descMax, descIdx + n),
              count - n)
  {
    hide WindowSize, Slot;
    WindowFits(descMax, descIdx, count);
  }

  lemma TwoWindowsSuffice(descMax: nat, descIdx: nat, count: nat)
    requires descIdx < descMax
    ensures |Windows(descMax, descIdx, count)| <= 2 <==> count <= 2 * descMax - descIdx
  {
    hide Windows, Slot;
    SlotSum(descMax, 0, descMax);
    NoWindows(descMax, descIdx);
    NoWindows(descMax, 0);
    if count > 0 {
      WindowsStep(descMax, descIdx, count);
      var n := WindowSize(descMax, descIdx, count);
      if n < count {
        assert Slot(descMax, descIdx + n) == 0;
        WindowsStep(descMax, 0, count - n);
        var m := WindowSize(descMax, 0, count - n);
        if m < count - n {
          assert Slot(descMax, m) == 0;
          WindowsStep(descMax, 0, count - n - m);
        }
        NoWindows(descMax, Slot(descMax, m));
      }
      NoWindows(descMax, Slot(descMax, descIdx + n));
    }
  }

  lemma NoWindows(descMax: nat, descIdx: nat)
    requires descIdx < descMax
    ensures Windows(descMax, descIdx, 0) == []
  {
  }

  lemma TakesAt(descMax: nat, sdesc: seq<Span>, tfer: seq<Transfer>, k: nat)
    requires TakesAll(descMax, sdesc, tfer) && k < |tfer|
    ensures tfer[k].descIndex < descMax && Offset(tfer, k) + tfer[k].descNum == Offset(tfer, k + 1) <= |sdesc|
    ensures tfer[k].descNum == WindowSize(descMax, tfer[k].descIndex, |sdesc| - Offset(tfer, k)) > 0
    ensures tfer[k].descAdjacent == tfer[k].descNum
  {
    TakesSoFarAt(descMax, sdesc, tfer, |sdesc|, k);
  }

  lemma TakesSoFarAt(descMax: nat, sdesc: seq<Span>, tfer: seq<Transfer>, taken: nat, k: nat)
    requires TakenSoFar(descMax, sdesc, tfer, taken) && k < |tfer|
    ensures tfer[k].descIndex < descMax && Offset(tfer, k) + tfer[k].descNum == Offset(tfer, k + 1) <= |sdesc|
    ensures tfer[k].descNum == WindowSize(descMax, tfer[k].descIndex, |sdesc| - Offset(tfer, k)) > 0
    ensures tfer[k].descAdjacent == tfer[k].descNum
  {
    hide WindowSize;
    assert Takes(descMax, sdesc, tfer, taken, k);
  }

  lemma IndexAt(descMax: nat, p: nat, tfer: seq<Transfer>, k: nat)
    requires p < descMax && InARow(descMax, p, tfer) && k < |tfer|
    ensures tfer[k].descIndex == Slot(descMax, p + Offset(tfer, k))
  {
    hide Slot, Offset;
  }

  lemma AllTaken(descMax: nat, sdesc: seq<Span>, tfer: seq<Transfer>)
    requires TakesAll(descMax, sdesc, tfer)
    ensures Offset(tfer, |tfer|) == |sdesc| && Offset(tfer, 0) == 0
  {
  }

  lemma {:induction false} TransfersAreWindows(descMax: nat, p: nat, sdesc: seq<Span>, tfer: seq<Transfer>, k: nat)
    requires p < descMax && Partition(descMax, p, sdesc, tfer) && k <= |tfer|
    ensures Offset(tfer, k) <= |sdesc|
    ensures |tfer| - k == |Windows(descMax, Slot(descMax, p + Offset(tfer, k)), |sdesc| - Offset(tfer, k))|
    decreases |tfer| - k
  {
    hide WindowSize, Windows, TakesAll, InARow, Offset, Slot;
    if k < |tfer| {
      TakesAt(descMax, sdesc, tfer, k);
      IndexAt(descMax, p, tfer, k);
      TransfersAreWindows(descMax, p, sdesc, tfer, k + 1);
      SlotSum(descMax, p + Offset(tfer, k), tfer[k].descNum);
      WindowsStep(descMax, tfer[k].descIndex, |sdesc| - Offset(tfer, k));
    } else {
      AllTaken(descMax, sdesc, tfer);
      NoWindows(descMax, Slot(descMax, p + |sdesc|));
    }
  }

  /** In an uninterrupted loop, the room for two transfers is enough exactly when the request is no longer than this. */
  lemma TwoTransfersSuffice(descMax: nat, p: nat, sdesc: seq<Span>, tfer: seq<Transfer>)
    requires p < descMax && Partition(descMax, p, sdesc, tfer)
    ensures |tfer| <= 2 <==> |sdesc| <= 2 * descMax - p
  {
    hide Windows, TakenSoFar, Slot;
    TransfersAreWindows(descMax, p, sdesc, tfer, 0);
    AllTaken(descMax, sdesc, tfer);
    SlotSum(descMax, p, 0);
    TwoWindowsSuffice(descMax, p, |sdesc|);
  }

  // ---- When the chains of one request get in each other's way ----

  predicate Apart(x: Transfer, y: Transfer) {
    x.descIndex + x.descNum <= y.descIndex || y.descIndex + y.descNum <= x.descIndex
  }

  /** No two transfers of the request have a slot of the ring in common. */
  predicate NoSharedSlot(tfer: seq<Transfer>) {
    forall j, k :: 0 <= j < k < |tfer| ==> Apart(tfer[j], tfer[k])
  }

  lemma {:induction false} OffsetsGrow(descMax: nat, sdesc: seq<Span>, tfer: seq<Transfer>, j: nat, k: nat)
    requires TakesAll(descMax, sdesc, tfer) && j < k <= |tfer|
    ensures Offset(tfer, j) + tfer[j].descNum <= Offset(tfer, k) <= |sdesc|
  {
    hide WindowSize, TakenSoFar, Offset;
    TakesAt(descMax, sdesc, tfer, k - 1);
    if j < k - 1 {
      OffsetsGrow(descMax, sdesc, tfer, j, k - 1);
    }
  }

  /** In an uninterrupted loop, transfers lie apart while what they and those between them take fits the ring. */
  lemma TransfersApart(descMax: nat, p: nat, sdesc: seq<Span>, tfer: seq<Transfer>, j: nat, k: nat)
    requires p < descMax && Partition(descMax, p, sdesc, tfer) && j < k < |tfer|
    requires Offset(tfer, k + 1) - Offset(tfer, j) <= descMax
    ensures Apart(tfer[j], tfer[k])
  {
    hide WindowSize, TakenSoFar, Offset, Slot;
    TakesAt(descMax, sdesc, tfer, j);
    TakesAt(descMax, sdesc, tfer, k);
    OffsetsGrow(descMax, sdesc, tfer, j, k);
    WindowFits(descMax, tfer[j].descIndex, |sdesc| - Offset(tfer, j));
    WindowFits(descMax, tfer[k].descIndex, |sdesc| - Offset(tfer, k));
    WindowsApart(descMax, p + Offset(tfer, j), tfer[j].descNum, p + Offset(tfer, k), tfer[k].descNum);
  }

  /** In an uninterrupted loop over a longer request, the second chain runs over the first slot of the first one. */
  lemma SecondChainOverwritesFirst(descMax: nat, p: nat, sdesc: seq<Span>, tfer: seq<Transfer>)
    requires p < descMax < |sdesc| && Partition(descMax, p, sdesc, tfer)
    ensures |tfer| >= 2
    ensures tfer[0].descIndex == p && tfer[0].descNum == descMax - p
    ensures tfer[1].descIndex == 0 && tfer[1].descNum > p
  {
    hide TakenSoFar, Offset, Slot;
    AllTaken(descMax, sdesc, tfer);
    TakesAt(descMax, sdesc, tfer, 0);
    SlotSum(descMax, p, descMax - p);
    AllTaken(descMax, sdesc, tfer);
    TakesAt(descMax, sdesc, tfer, 1);
  }

  /** An uninterrupted loop keeps the chains of a request apart exactly when the request fits the ring. */
  lemma ChainsApartExactly(descMax: nat, p: nat, sdesc: seq<Span>, tfer: seq<Transfer>)
    requires p < descMax && Partition(descMax, p, sdesc, tfer)
    ensures NoSharedSlot(tfer) <==> |sdesc| <= descMax
  {
    hide TakenSoFar, Offset;
    if |sdesc| <= descMax {
      forall j, k | 0 <= j < k < |tfer|
        ensures Apart(tfer[j], tfer[k])
      {
        OffsetsGrow(descMax, sdesc, tfer, k, k + 1);
        TransfersApart(descMax, p, sdesc, tfer, j, k);
      }
    } else {
      SecondChainOverwritesFirst(descMax, p, sdesc, tfer);
      assert !Apart(tfer[0], tfer[1]);
    }
  }

  function Interval(from: nat, n: nat): set<nat> {
    if n == 0 then {} else Interval(from, n - 1) + {from + n - 1}
  }

  lemma {:induction false} IntervalOf(from: nat, n: nat)
    ensures forall i :: i in Interval(from, n) <==> from <= i < from + n
    ensures |Interval(from, n)| == n
  {
    if n > 0 {
      IntervalOf(from, n - 1);
    }
  }

  /** The slots of the first k transfers. */
  function Slots(tfer: seq<Transfer>, k: nat): set<nat>
    requires k <= |tfer|
  {
    if k == 0 then {} else Slots(tfer, k - 1) + Interval(tfer[k - 1].descIndex, tfer[k - 1].descNum)
  }

  lemma {:induction false} SlotsOf(tfer: seq<Transfer>, k: nat, slot: nat)
    requires k <= |tfer| && slot in Slots(tfer, k)
    ensures exists j :: 0 <= j < k && slot in Interval(tfer[j].descIndex, tfer[j].descNum)
  {
    hide Interval;
    if slot !in Interval(tfer[k - 1].descIndex, tfer[k - 1].descNum) {
      SlotsOf(tfer, k - 1, slot);
    }
  }

  /** A transfer that lies apart adds new slots only. */
  lemma NewSlots(tfer: seq<Transfer>, k: nat)
    requires NoSharedSlot(tfer) && k < |tfer|
    ensures Slots(tfer, k) !! Interval(tfer[k].descIndex, tfer[k].descNum)
  {
    hide Interval, Slots;
    IntervalOf(tfer[k].descIndex, tfer[k].descNum);
    forall slot | slot in Slots(tfer, k)
      ensures slot !in Interval(tfer[k].descIndex, tfer[k].descNum)
    {
      SlotsOf(tfer, k, slot);
      var j :| 0 <= j < k && slot in Interval(tfer[j].descIndex, tfer[j].descNum);
      IntervalOf(tfer[j].descIndex, tfer[j].descNum);
      assert Apart(tfer[j], tfer[k]);
    }
  }

  lemma WindowInRing(descMax: nat, sdesc: seq<Span>, tfer: seq<Transfer>, k: nat)
    requires TakesAll(descMax, sdesc, tfer) && k < |tfer|
    ensures Interval(tfer[k].descIndex, tfer[k].descNum) <= Interval(0, descMax)
    ensures |Interval(tfer[k].descIndex, tfer[k].descNum)| == tfer[k].descNum
  {
    hide Interval, WindowSize, TakesAll, Offset;
    AllTaken(descMax, sdesc, tfer);
    TakesAt(descMax, sdesc, tfer, k);
    WindowFits(descMax, tfer[k].descIndex, |sdesc| - Offset(tfer, k));
    IntervalOf(tfer[k].descIndex, tfer[k].descNum);
    IntervalOf(0, descMax);
  }

  /** Transfers that lie apart have as many slots as descriptors, all of them in the ring. */
  lemma {:induction false} SlotsCount(descMax: nat, sdesc: seq<Span>, tfer: seq<Transfer>, k: nat)
    requires TakesAll(descMax, sdesc, tfer) && NoSharedSlot(tfer) && k <= |tfer|
    ensures |Slots(tfer, k)| == Offset(tfer, k) && Slots(tfer, k) <= Interval(0, descMax)
  {
    hide Interval, TakesAll, NoSharedSlot;
    if k > 0 {
      var x := tfer[k - 1];
      SlotsCount(descMax, sdesc, tfer, k - 1);
      NewSlots(tfer, k - 1);
      WindowInRing(descMax, sdesc, tfer, k - 1);
      assert |Slots(tfer, k)| == |Slots(tfer, k - 1)| + |Interval(x.descIndex, x.descNum)|;
    }
  }

  /** A request longer than the ring has two chains that share a slot, wherever its transfers lie. */
  lemma LongRequestsOverlap(descMax: nat, sdesc: seq<Span>, tfer: seq<Transfer>)
    requires TakesAll(descMax, sdesc, tfer) && descMax < |sdesc|
    ensures exists j, k :: 0 <= j < k < |tfer| && !Apart(tfer[j], tfer[k])
  {
    hide TakesAll, Offset, Slots;
    AllTaken(descMax, sdesc, tfer);
    if NoSharedSlot(tfer) {
      SlotsCount(descMax, sdesc, tfer, |tfer|);
      IntervalOf(0, descMax);
      SmallerSet(Slots(tfer, |tfer|), Interval(0, descMax));
      assert false;
    }
  }

  lemma {:induction false} SmallerSet(a: set<nat>, b: set<nat>)
    requires a <= b
    ensures |a| <= |b|
  {
    if a != {} {
      var x :| x in a;
      SmallerSet(a - {x}, b - {x});
    }
  }

  /** A chain stands as it was built while the transfers up to then fit the ring. */
  lemma {:induction false} ChainStandsLater(rings: seq<seq<Desc>>, descMax: nat, base: nat, mode: Mode, p: nat,
                                            sdesc: seq<Span>, ep: nat, tfer: seq<Transfer>, k: nat, j: nat)
    requires p < descMax && Partition(descMax, p, sdesc, tfer) && Built(rings, base, mode, sdesc, ep, tfer)
    requires k < j <= |tfer| && Offset(tfer, j) - Offset(tfer, k) <= descMax
    ensures Stands(rings[j], base, mode, sdesc, ep, tfer, k)
  {
    hide WindowSize, TakenSoFar, Offset, Slot, HoldsChain, EpAt, OnlyWindow;
    assert BuiltAt(rings, base, mode, sdesc, ep, tfer, j - 1);
    if k < j - 1 {
      TakesAt(descMax, sdesc, tfer, j - 1);
      ChainStandsLater(rings, descMax, base, mode, p, sdesc, ep, tfer, k, j - 1);
      TransfersApart(descMax, p, sdesc, tfer, k, j - 1);
      var from, x := Offset(tfer, k), tfer[k];
      ChainSurvives(rings[j - 1], rings[j], x.descIndex, sdesc[from..from + x.descNum], EpAt(sdesc, ep, mode, from),
                    mode, x.descBus, tfer[j - 1].descIndex, tfer[j - 1].descNum);
    }
  }

  // ---- Any run of transfer_init calls ----

  /** Descriptors handed out before call k, counted from the start of the ring. */
  function Position(descMax: nat, p: nat, asked: seq<nat>, k: nat): nat
    requires 0 < descMax && k <= |asked|
  {
    if k == 0 then p
    else
      var before := Position(descMax, p, asked, k - 1);
      before + WindowSize(descMax, Slot(descMax, before), asked[k - 1])
  }

  predicate AllAsk(asked: seq<nat>) { forall k :: 0 <= k < |asked| ==> asked[k] > 0 }

  lemma {:induction false} PositionsGrow(descMax: nat, p: nat, asked: seq<nat>, j: nat, k: nat)
    requires 0 < descMax && AllAsk(asked) && j <= k <= |asked|
    ensures Position(descMax, p, asked, j) <= Position(descMax, p, asked, k)
  {
    hide WindowSize, Slot;
    if j < k {
      PositionsGrow(descMax, p, asked, j, k - 1);
    }
  }

  /**
   * Every call takes a window that is not empty and does not cross the end of the ring. Two windows have no
   * slot in common while the descriptors handed out from the first to the last of them fit the ring.
   */
  lemma RingAllocation(descMax: nat, p: nat, asked: seq<nat>, j: nat, k: nat)
    requires 0 < descMax && AllAsk(asked) && j < k < |asked|
    ensures var from, n := Slot(descMax, Position(descMax, p, asked, j)),
      Position(descMax, p, asked, j + 1) - Position(descMax, p, asked, j);
            var from', n' := Slot(descMax, Position(descMax, p, asked, k)),
              Position(descMax, p, asked, k + 1) - Position(descMax, p, asked, k);
            && 0 < n && from + n <= descMax && 0 < n' && from' + n' <= descMax
            && (Position(descMax, p, asked, k + 1) - Position(descMax, p, asked, j) <= descMax ==>
                  from + n <= from' || from' + n' <= from)
  {
    hide WindowSize, Slot, Position;
    OneAllocation(descMax, p, asked, j);
    OneAllocation(descMax, p, asked, k);
    PositionsGrow(descMax, p, asked, j + 1, k);
    var pj, pk := Position(descMax, p, asked, j), Position(descMax, p, asked, k);
    if Position(descMax, p, asked, k + 1) - pj <= descMax {
      WindowsApart(descMax, pj, Position(descMax, p, asked, j + 1) - pj, pk, Position(descMax, p, asked, k + 1) - pk);
    }
  }

  lemma OneAllocation(descMax: nat, p: nat, asked: seq<nat>, k: nat)
    requires 0 < descMax && AllAsk(asked) && k < |asked|
    ensures var n := Position(descMax, p, asked, k + 1) - Position(descMax, p, asked, k);
            && n == WindowSize(descMax, Slot(descMax, Position(descMax, p, asked, k)), asked[k])
            && 0 < n && Slot(descMax, Position(descMax, p, asked, k)) + n <= descMax
  {
    hide WindowSize, Slot;
    WindowFits(descMax, Slot(descMax, Position(descMax, p, asked, k)), asked[k]);
  }

  /** The ring after each call: call k writes its own window and nothing else. */
  predicate RingRun(rings: seq<seq<Desc>>, descMax: nat, p: nat, asked: seq<nat>)
    requires 0 < descMax
  {
    && AllAsk(asked) && |rings| == |asked| + 1
    && forall k :: 0 <= k < |asked| ==> RingStep(rings, descMax, p, asked, k)
  }

  predicate RingStep(rings: seq<seq<Desc>>, descMax: nat, p: nat, asked: seq<nat>, k: nat)
    requires 0 < descMax && k < |asked| && |rings| == |asked| + 1
  {
    var from := Position(descMax, p, asked, k);
    OnlyWindow(rings[k], rings[k + 1], Slot(descMax, from), WindowSize(descMax, Slot(descMax, from), asked[k]))
  }

  /** A chain stays as it was built until the ring has been handed out once around. */
  lemma {:induction false} LiveChainStands(rings: seq<seq<Desc>>, descMax: nat, p: nat, asked: seq<nat>, j: nat, k: nat,
                                           spans: seq<Span>, ep: nat, mode: Mode, bus: nat)
    requires 0 < descMax && RingRun(rings, descMax, p, asked) && j < k <= |asked|
    requires |spans| == Position(descMax, p, asked, j + 1) - Position(descMax, p, asked, j)
    requires HoldsChain(rings[j + 1], Slot(descMax, Position(descMax, p, asked, j)), spans, ep, mode, bus)
    requires Position(descMax, p, asked, k) - Position(descMax, p, asked, j) <= descMax
    ensures HoldsChain(rings[k], Slot(descMax, Position(descMax, p, asked, j)), spans, ep, mode, bus)
  {
    hide WindowSize, Slot, Position, HoldsChain, OnlyWindow;
    if j + 1 < k {
      PositionsGrow(descMax, p, asked, k - 1, k);
      LiveChainStands(rings, descMax, p, asked, j, k - 1, spans, ep, mode, bus);
      assert RingStep(rings, descMax, p, asked, k - 1);
      RingAllocation(descMax, p, asked, j, k - 1);
      OneAllocation(descMax, p, asked, k - 1);
      var from := Slot(descMax, Position(descMax, p, asked, k - 1));
      ChainSurvives(rings[k - 1], rings[k], Slot(descMax, Position(descMax, p, asked, j)), spans, ep, mode, bus,
                    from, WindowSize(descMax, from, asked[k - 1]));
    }
  }

  // ---- When other submit loops get in between ----

  predicate StartsAt(tfer: seq<Transfer>, p: nat) { |tfer| > 0 ==> tfer[0].descIndex == p }

  /** A transfer that takes the window at index q. */
  function Take(descMax: nat, sdesc: seq<Span>, done: nat, q: nat): Transfer
    requires q < descMax && done <= |sdesc|
  {
    var n := WindowSize(descMax, q, |sdesc| - done);
    Transfer(q, 0, n, n, 0, false)
  }

  lemma TakeFits(descMax: nat, sdesc: seq<Span>, tfer: seq<Transfer>, done: nat, q: nat)
    requires q < descMax && done < |sdesc| && TakenSoFar(descMax, sdesc, tfer, done)
    ensures var x := Take(descMax, sdesc, done, q);
            && 0 < x.descNum <= |sdesc| - done && x.descNum == WindowSize(descMax, q, |sdesc| - done)
            && TakenSoFar(descMax, sdesc, tfer + [x], done + x.descNum)
  {
    hide WindowSize, TakenSoFar;
    WindowFits(descMax, q, |sdesc| - done);
    TakesOneMore(descMax, sdesc, tfer, Take(descMax, sdesc, done, q), done);
  }

  /** What was begun can be completed. */
  lemma {:induction false} Completes(descMax: nat, sdesc: seq<Span>, tfer: seq<Transfer>, done: nat)
    returns (all: seq<Transfer>)
    requires 0 < descMax && TakenSoFar(descMax, sdesc, tfer, done)
    ensures TakesAll(descMax, sdesc, all) && |tfer| <= |all| && all[..|tfer|] == tfer
    ensures done < |sdesc| ==> |tfer| < |all|
    decreases |sdesc| - done
  {
    hide WindowSize;
    if done == |sdesc| {
      all := tfer;
    } else {
      TakeFits(descMax, sdesc, tfer, done, 0);
      var x := Take(descMax, sdesc, done, 0);
      all := Completes(descMax, sdesc, tfer + [x], done + x.descNum);
      assert (tfer + [x])[..|tfer|] == tfer && all[..|tfer|] == all[..|tfer| + 1][..|tfer|];
    }
  }

  /** The transfers of a request that does not fit the end of the ring, when the second one finds index q. */
  lemma SecondAt(descMax: nat, p: nat, sdesc: seq<Span>, q: nat) returns (tfer: seq<Transfer>)
    requires p < descMax && q < descMax && descMax - p < |sdesc|
    ensures TakesAll(descMax, sdesc, tfer) && |tfer| >= 2
    ensures tfer[0].descIndex == p && tfer[0].descNum == descMax - p && tfer[1].descIndex == q && tfer[1].descNum > 0
    ensures descMax - p + WindowSize(descMax, q, |sdesc| - (descMax - p)) < |sdesc| ==> |tfer| > 2
  {
    hide WindowSize, TakenSoFar, TakesAll, Take;
    assert TakenSoFar(descMax, sdesc, [], 0) && WindowSize(descMax, p, |sdesc|) == descMax - p by {
      hide *;
      FirstWindow(descMax, p, sdesc);
    }
    TakeFits(descMax, sdesc, [], 0, p);
    var x, done := Take(descMax, sdesc, 0, p), descMax - p;
    TakeFits(descMax, sdesc, [] + [x], done, q);
    var y := Take(descMax, sdesc, done, q);
    IndexOfTake(descMax, sdesc, 0, p);
    IndexOfTake(descMax, sdesc, done, q);
    tfer := Completes(descMax, sdesc, [] + [x] + [y], done + y.descNum);
    assert tfer[..2][0] == x && tfer[..2][1] == y;
  }

  lemma FirstWindow(descMax: nat, p: nat, sdesc: seq<Span>)
    requires p < descMax && descMax - p < |sdesc|
    ensures TakenSoFar(descMax, sdesc, [], 0) && WindowSize(descMax, p, |sdesc|) == descMax - p
  {
  }

  lemma IndexOfTake(descMax: nat, sdesc: seq<Span>, done: nat, q: nat)
    requires q < descMax && done <= |sdesc|
    ensures Take(descMax, sdesc, done, q).descIndex == q
  {
  }

  /** A request that fits the end of the ring is one transfer, whoever gets in between. */
  lemma OneTransfer(descMax: nat, p: nat, sdesc: seq<Span>, tfer: seq<Transfer>)
    requires p < descMax && TakesAll(descMax, sdesc, tfer) && StartsAt(tfer, p) && |tfer| > 0
    ensures |sdesc| <= descMax - p ==> |tfer| == 1
    ensures |sdesc| > descMax - p ==> |tfer| > 1 && Offset(tfer, 1) == descMax - p
  {
    hide TakesAll, Offset;
    AllTaken(descMax, sdesc, tfer);
    TakesAt(descMax, sdesc, tfer, 0);
    if |tfer| > 1 {
      TakesAt(descMax, sdesc, tfer, 1);
    }
  }

  /** However the calls of others fall between its own, the request needs at most two transfers. */
  ghost predicate TwoAlwaysSuffice(descMax: nat, p: nat, sdesc: seq<Span>) {
    forall tfer :: TakesAll(descMax, sdesc, tfer) && StartsAt(tfer, p) ==> |tfer| <= 2
  }

  /** That is so exactly for requests that leave at most one descriptor over at the end of the ring. */
  lemma TwoSufficeInterrupted(descMax: nat, p: nat, sdesc: seq<Span>)
    requires p < descMax
    ensures TwoAlwaysSuffice(descMax, p, sdesc) <==> |sdesc| <= descMax - p + 1
  {
    hide TakesAll, StartsAt, Offset, WindowSize;
    if |sdesc| <= descMax - p + 1 {
      forall tfer | TakesAll(descMax, sdesc, tfer) && StartsAt(tfer, p)
        ensures |tfer| <= 2
      {
        if |tfer| > 2 {
          OneTransfer(descMax, p, sdesc, tfer);
          TakesAt(descMax, sdesc, tfer, 1);
          TakesAt(descMax, sdesc, tfer, 2);
        }
      }
    } else {
      var tfer := SecondAt(descMax, p, sdesc, descMax - 1);
      LastSlot(descMax, |sdesc| - (descMax - p));
      assert StartsAt(tfer, p) by {
        hide *;
        Starting(tfer, p);
      }
    }
  }

  lemma LastSlot(descMax: nat, remaining: nat)
    requires 0 < descMax && 0 < remaining
    ensures WindowSize(descMax, descMax - 1, remaining) == 1
  {
  }

  lemma Starting(tfer: seq<Transfer>, p: nat)
    requires |tfer| > 0 ==> tfer[0].descIndex == p
    ensures StartsAt(tfer, p)
  {
  }

  /** However the calls of others fall between its own, the chains of the request lie apart. */
  ghost predicate AlwaysApart(descMax: nat, p: nat, sdesc: seq<Span>) {
    forall tfer :: TakesAll(descMax, sdesc, tfer) && StartsAt(tfer, p) ==> NoSharedSlot(tfer)
  }

  /** That is so exactly for requests that are a single chain. */
  lemma ApartInterrupted(descMax: nat, p: nat, sdesc: seq<Span>)
    requires p < descMax
    ensures AlwaysApart(descMax, p, sdesc) <==> |sdesc| <= descMax - p
  {
    hide TakesAll, StartsAt, Offset, WindowSize;
    if |sdesc| <= descMax - p {
      forall tfer | TakesAll(descMax, sdesc, tfer) && StartsAt(tfer, p)
        ensures NoSharedSlot(tfer)
      {
        if |tfer| > 0 {
          OneTransfer(descMax, p, sdesc, tfer);
        }
      }
    } else {
      var tfer := SecondAt(descMax, p, sdesc, p);
      assert StartsAt(tfer, p) by {
        hide *;
        Starting(tfer, p);
      }
      assert !Apart(tfer[0], tfer[1]);
    }
  }

  // ---- Every such sequence of transfers comes from some run ----

  /** Call c of the run is transfer k of this request. */
  predicate CallOf(descMax: nat, p: nat, asked: seq<nat>, c: nat, sdesc: seq<Span>, tfer: seq<Transfer>, k: nat)
    requires 0 < descMax && k < |tfer|
  {
    && c < |asked| && Offset(tfer, k) <= |sdesc| && asked[c] == |sdesc| - Offset(tfer, k)
    && tfer[k].descIndex == Slot(descMax, Position(descMax, p, asked, c))
    && tfer[k].descNum == Position(descMax, p, asked, c + 1) - Position(descMax, p, asked, c) == tfer[k].descAdjacent
  }

  /** The first transfers of the request are these calls of the run, in order; the other calls are those of others. */
  predicate ArisesIn(descMax: nat, p: nat, asked: seq<nat>, calls: seq<nat>, sdesc: seq<Span>, tfer: seq<Transfer>)
    requires 0 < descMax
  {
    && AllAsk(asked) && |calls| <= |tfer|
    && (forall j, k :: 0 <= j < k < |calls| ==> calls[j] < calls[k])
    && forall k :: 0 <= k < |calls| ==> CallOf(descMax, p, asked, calls[k], sdesc, tfer, k)
  }

  lemma {:induction false} PositionPrefix(descMax: nat, p: nat, asked: seq<nat>, more: seq<nat>, k: nat)
    requires 0 < descMax && k <= |asked|
    ensures Position(descMax, p, asked + more, k) == Position(descMax, p, asked, k)
  {
    hide WindowSize, Slot;
    if k > 0 {
      PositionPrefix(descMax, p, asked, more, k - 1);
    }
  }

  /** Where the ring index stands after all calls. */
  function IndexAfter(descMax: nat, p: nat, asked: seq<nat>): (q: nat)
    requires 0 < descMax
    ensures q < descMax
  {
    Slot(descMax, Position(descMax, p, asked, |asked|))
  }

  /** One call more. */
  lemma AskOnceMore(descMax: nat, p: nat, asked: seq<nat>, n: nat)
    requires 0 < descMax
    ensures var q := IndexAfter(descMax, p, asked);
            && Position(descMax, p, asked + [n], |asked|) == Position(descMax, p, asked, |asked|)
            && Position(descMax, p, asked + [n], |asked| + 1)
               == Position(descMax, p, asked, |asked|) + WindowSize(descMax, q, n)
            && IndexAfter(descMax, p, asked + [n]) == Slot(descMax, q + WindowSize(descMax, q, n))
  {
    hide WindowSize, Slot;
    PositionPrefix(descMax, p, asked, [n], |asked|);
    assert |asked + [n]| == |asked| + 1;
    SlotSum(descMax, Position(descMax, p, asked, |asked|), WindowSize(descMax, IndexAfter(descMax, p, asked), n));
  }

  /** Others can move the ring index to any place. */
  lemma Detour(descMax: nat, p: nat, asked: seq<nat>, q: nat) returns (more: seq<nat>)
    requires 0 < descMax && AllAsk(asked) && q < descMax
    ensures AllAsk(asked + more) && IndexAfter(descMax, p, asked + more) == q
  {
    hide Slot, Position, IndexAfter, WindowSize;
    var r := IndexAfter(descMax, p, asked);
    more := [];
    assert asked + more == asked;
    if q < r {
      AskOnceMore(descMax, p, asked, descMax - r);
      WindowUpTo(descMax, r, descMax);
      SlotSum(descMax, 0, descMax);
      more := [descMax - r];
      r := 0;
    }
    AskOnceMore(descMax, p, asked + more, q - r);
    if r < q {
      WindowUpTo(descMax, r, q);
      SlotSum(descMax, q, 0);
      assert asked + (more + [q - r]) == asked + more + [q - r];
      more := more + [q - r];
    }
  }

  lemma WindowUpTo(descMax: nat, r: nat, q: nat)
    requires r < descMax && r < q <= descMax
    ensures WindowSize(descMax, r, q - r) == q - r
  {
  }

  lemma CallStays(descMax: nat, p: nat, asked: seq<nat>, more: seq<nat>, c: nat, sdesc: seq<Span>, tfer: seq<Transfer>,
                  k: nat)
    requires 0 < descMax && k < |tfer| && CallOf(descMax, p, asked, c, sdesc, tfer, k)
    ensures CallOf(descMax, p, asked + more, c, sdesc, tfer, k)
  {
    hide Slot, Position, Offset;
    PositionPrefix(descMax, p, asked, more, c);
    PositionPrefix(descMax, p, asked, more, c + 1);
  }

  /** Whatever indices the transfers found, some calls of others lead there. */
  lemma {:induction false} SomeRunGives(descMax: nat, p: nat, sdesc: seq<Span>, tfer: seq<Transfer>, k: nat)
    returns (asked: seq<nat>, calls: seq<nat>)
    requires p < descMax && TakesAll(descMax, sdesc, tfer) && k <= |tfer|
    ensures |calls| == k && ArisesIn(descMax, p, asked, calls, sdesc, tfer)
  {
    if k == 0 {
      asked, calls := [], [];
    } else {
      hide Slot, Position, Offset, WindowSize, TakesAll, CallOf, IndexAfter;
      var asked0, calls0 := SomeRunGives(descMax, p, sdesc, tfer, k - 1);
      TakesAt(descMax, sdesc, tfer, k - 1);
      var more := Detour(descMax, p, asked0, tfer[k - 1].descIndex);
      var n := |sdesc| - Offset(tfer, k - 1);
      asked, calls := asked0 + more + [n], calls0 + [|asked0 + more|];
      forall j | 0 <= j < k - 1
        ensures calls[j] < |asked0 + more| && CallOf(descMax, p, asked, calls[j], sdesc, tfer, j)
      {
        assert CallOf(descMax, p, asked0, calls0[j], sdesc, tfer, j);
        CallInRun(descMax, p, asked0, calls0[j], sdesc, tfer, j);
        CallStays(descMax, p, asked0, more + [n], calls0[j], sdesc, tfer, j);
        assert asked0 + (more + [n]) == asked;
      }
      NewCall(descMax, p, asked0 + more, sdesc, tfer, k - 1);
    }
  }

  lemma CallInRun(descMax: nat, p: nat, asked: seq<nat>, c: nat, sdesc: seq<Span>, tfer: seq<Transfer>, k: nat)
    requires 0 < descMax && k < |tfer| && CallOf(descMax, p, asked, c, sdesc, tfer, k)
    ensures c < |asked|
  {
  }

  lemma NewCall(descMax: nat, p: nat, asked: seq<nat>, sdesc: seq<Span>, tfer: seq<Transfer>, k: nat)
    requires 0 < descMax && TakesAll(descMax, sdesc, tfer) && k < |tfer|
    requires IndexAfter(descMax, p, asked) == tfer[k].descIndex
    ensures Offset(tfer, k) < |sdesc|
    ensures CallOf(descMax, p, asked + [|sdesc| - Offset(tfer, k)], |asked|, sdesc, tfer, k)
  {
    hide Slot, Position, Offset, WindowSize, TakesAll;
    TakesAt(descMax, sdesc, tfer, k);
    AskOnceMore(descMax, p, asked, |sdesc| - Offset(tfer, k));
  }

  /** And no run gives anything else. */
  lemma RunTakesAll(descMax: nat, p: nat, asked: seq<nat>, calls: seq<nat>, sdesc: seq<Span>, tfer: seq<Transfer>)
    requires 0 < descMax && ArisesIn(descMax, p, asked, calls, sdesc, tfer) && |calls| == |tfer|
    requires Offset(tfer, |tfer|) == |sdesc|
    ensures TakesAll(descMax, sdesc, tfer)
  {
    hide Slot, Position, Offset, WindowSize;
    forall k | 0 <= k < |tfer|
      ensures Takes(descMax, sdesc, tfer, |sdesc|, k)
    {
      assert CallOf(descMax, p, asked, calls[k], sdesc, tfer, k);
      OneAllocation(descMax, p, asked, calls[k]);
      WindowFits(descMax, tfer[k].descIndex, asked[calls[k]]);
    }
  }

  function OneSlot(q: nat): Transfer { Transfer(q, 0, 1, 1, 0, false) }

  /** Calls for 3, 2047, 2 and 1 descriptors on a ring of 2048 whose index is 2047. */
  lemma FourCalls()
    ensures var asked, p := [3, 2047, 2, 1], 2047;
            && Position(2048, p, asked, 0) == 2047 && Position(2048, p, asked, 1) == 2048
            && Position(2048, p, asked, 2) == 4095 && Position(2048, p, asked, 3) == 4096
            && Position(2048, p, asked, 4) == 4097
  {
    var asked, p := [3, 2047, 2, 1], 2047;
    assert Position(2048, p, asked, 0) == 2047;
    assert Position(2048, p, asked, 1) == 2048;
    assert Position(2048, p, asked, 2) == 4095;
    assert Position(2048, p, asked, 3) == 4096;
  }

  /**
   * With the second call made by another submit loop, a request of only three descriptors gets three transfers, and the
   * first two have the same slot.
   */
  lemma InterruptedRun(sdesc: seq<Span>)
    requires |sdesc| == 3
    ensures var tfer := [OneSlot(2047), OneSlot(2047), OneSlot(0)];
            && ArisesIn(2048, 2047, [3, 2047, 2, 1], [0, 2, 3], sdesc, tfer)
            && TakesAll(2048, sdesc, tfer) && StartsAt(tfer, 2047) && |tfer| > 2 && !NoSharedSlot(tfer)
    ensures |sdesc| <= 2 * 2048 - 2047 && |sdesc| <= 2048
  {
    hide Position, TakesAll;
    var tfer := [OneSlot(2047), OneSlot(2047), OneSlot(0)];
    FourCalls();
    assert Offset(tfer, 1) == 1 && Offset(tfer, 2) == 2;
    var asked, calls := [3, 2047, 2, 1], [0, 2, 3];
    forall k | 0 <= k < 3
      ensures CallOf(2048, 2047, asked, calls[k], sdesc, tfer, k)
    {
      assert k == 0 || k == 1 || k == 2;
    }
    RunTakesAll(2048, 2047, asked, calls, sdesc, tfer);
    assert !Apart(tfer[0], tfer[1]);
  }
}
