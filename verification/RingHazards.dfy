/** Runs in which the driver builds a chain where another one still is, or where it has still to clear. */
module RingHazards {
  import opened PageMap
  import opened SwDesc
  import opened DescControl
  import opened DescRing
  import opened Division
  import opened ChainWalk
  import opened DmaPath
  import opened EngineRing
  import opened EngineRuns
  import E = EngineService

  lemma RunOn(x: Fixed, ring: seq<Desc>, p: nat, events: seq<Event>, e: Event)
    requires |ring| > 0
    ensures Run(x, ring, p, events + [e]) == After(x, Run(x, ring, p, events), e)
  {
    hide After;
    assert (events + [e])[..|events|] == events;
  }

  // ---- A chain built over one that is still queued ----

  lemma WholeRing(x: Fixed, s: State, r: nat)
    requires |s.ring| > 0 && CanInit(s, r) && Slot(|s.ring|, s.pos) == 0
    requires !s.jobs[r].waits && s.jobs[r].done == 0 && |s.jobs[r].sdesc| == |s.ring|
    ensures var job := s.jobs[r];
            NextChain(x, s, r) == Chain(r, 0, s.pos, job.sdesc, EpAt(job.sdesc, job.ep, x.mode, 0),
                                        E.Xfer(r, |job.sdesc|, true))
  {
    var sdesc := s.jobs[r].sdesc;
    assert sdesc[0..|sdesc|] == sdesc;
  }

  /** Two requests as long as the ring, one after the other. */
  function TwoRequests(a: seq<Span>, epA: Address, b: seq<Span>, epB: Address): seq<Event> {
    [Submit(a, epA, false)] + [Init(0)] + [Queue(0)] + [Submit(b, epB, false)] + [Init(1)]
  }

  /**
   * Nothing in the code waits for room. A second request that is built while the first one, as long as the ring, is
   * still queued takes its place: the engine then moves the second request when it should move the first.
   */
  lemma WithoutRoom(x: Fixed, ring: seq<Desc>, a: seq<Span>, epA: Address, b: seq<Span>, epB: Address)
    requires |a| == |b| == |ring| > 0 && x.base % DESC_SIZE == 0
    ensures var s := Run(x, ring, 0, TwoRequests(a, epA, b, epB));
            && |s.chains| == 2 && s.chains[0].spans == a && s.engine.running && s.engine.queue == [s.chains[0].xfer]
            && Moves(EngineRun(s.ring, x.base, TransferOf(x, s, s.chains[0])), b, EpAt(b, epB, x.mode, 0), x.mode)
  {
    hide Slot, HoldsChain, Moves, EngineRun, Length32, Written, NextChain, EpAt;
    SlotSum(|ring|, 0, 0);
    var s0 := Fresh(ring, 0);
    assert Run(x, ring, 0, []) == s0;
    assert [] + [Submit(a, epA, false)] == [Submit(a, epA, false)];
    RunOn(x, ring, 0, [], Submit(a, epA, false));
    var s1 := After(x, s0, Submit(a, epA, false));
    WholeRing(x, s1, 0);
    RunOn(x, ring, 0, [Submit(a, epA, false)], Init(0));
    var s2 := After(x, s1, Init(0));
    RunOn(x, ring, 0, [Submit(a, epA, false)] + [Init(0)], Queue(0));
    var s3 := After(x, s2, Queue(0));
    RunOn(x, ring, 0, [Submit(a, epA, false)] + [Init(0)] + [Queue(0)], Submit(b, epB, false));
    var s4 := After(x, s3, Submit(b, epB, false));
    WholeRing(x, s4, 1);
    RunOn(x, ring, 0, [Submit(a, epA, false)] + [Init(0)] + [Queue(0)] + [Submit(b, epB, false)], Init(1));
    var s5 := After(x, s4, Init(1));
    InitStands(x, s4, s5.chains[1]);
    EngineRunsChain(s5.ring, x.base, x.mode, b, EpAt(b, epB, x.mode, 0), TransferOf(x, s5, s5.chains[0]));
  }

  // ---- A chain built over one that is finished, but not yet cleared ----

  /** The weaker guard: room next to what is not finished. */
  predicate RoomForUnfinished(s: State, n: nat) {
    forall c :: 0 <= c < |s.chains| && Unfinished(s, c) ==> s.pos + n - s.chains[c].pos <= |s.ring|
  }

  predicate FindsSome(s: State, e: Event)
    requires |s.ring| > 0
  {
    e.Init? && CanInit(s, e.job) ==> RoomForUnfinished(s, NextSize(s, e.job))
  }

  predicate RoomyForUnfinished(x: Fixed, ring: seq<Desc>, p: nat, events: seq<Event>)
    requires |ring| > 0
  {
    forall k :: 0 <= k < |events| ==> FindsSome(Run(x, ring, p, events[..k]), events[k])
  }

  lemma OneEventMore(x: Fixed, ring: seq<Desc>, p: nat, events: seq<Event>, e: Event)
    requires |ring| > 0 && RoomyForUnfinished(x, ring, p, events) && FindsSome(Run(x, ring, p, events), e)
    ensures RoomyForUnfinished(x, ring, p, events + [e])
    ensures Run(x, ring, p, events + [e]) == After(x, Run(x, ring, p, events), e)
  {
    hide FindsSome, Run;
    RunOn(x, ring, p, events, e);
    var all := events + [e];
    forall k | 0 <= k < |all|
      ensures FindsSome(Run(x, ring, p, all[..k]), all[k])
    {
      assert all[..k] == events[..k];
      assert k == |events| ==> events[..k] == events;
    }
  }

  /** The hardware reports one descriptor and has stopped. */
  function OneDone(): E.Hardware { E.Hardware(1, 0, false, false) }

  lemma ServesOne(s: E.State)
    requires s.running && s.descDequeued == 0 && |s.queue| > 1 && s.queue[0].descNum == 1
    ensures E.Service(s, OneDone()) ==
      E.State(true, 0, s.queue[1..], s.finished + [E.Finished(s.queue[0], E.COMPLETED, 1)],
              if s.queue[0].last then s.ioDone + [s.queue[0].request] else s.ioDone)
  {
  }

  /** The first chain of a request of two, in the last slot of the ring, is finished, and the second one runs. */
  predicate HalfDone(s: State, m: nat, a: Span, b: Span) {
    && |s.ring| == m && s.pos == m + 1 && |s.chains| == 2 && s.handed == [0, 1] && |s.jobs| == 1
    && !s.jobs[0].waits && s.chains[0].job == 0 && s.chains[1].job == 0
    && s.chains[0].pos == m - 1 && s.chains[0].spans == [a] && s.chains[1].pos == m && s.chains[1].spans == [b]
    && s.chains[1].xfer == E.Xfer(0, 1, true)
    && s.engine.running && s.engine.descDequeued == 0 && s.engine.queue == [s.chains[1].xfer]
    && |s.engine.finished| == 1 && s.engine.finished[0].state == E.COMPLETED && s.engine.ioDone == []
  }

  lemma NextOfTwo(x: Fixed, s: State, k: nat, n: nat)
    requires |s.ring| > 0 && CanInit(s, k) && !s.jobs[k].waits
    requires n == NextSize(s, k) && s.jobs[k].done + n <= |s.jobs[k].sdesc|
    ensures var job, c := s.jobs[k], NextChain(x, s, k);
            && c.job == k && c.from == job.done && c.pos == s.pos && c.spans == job.sdesc[job.done..job.done + n]
            && c.ep == EpAt(job.sdesc, job.ep, x.mode, job.done)
            && c.xfer == E.Xfer(k, n, job.done + n == |job.sdesc|)
  {
    hide NextSize, EpAt;
  }

  function FirstEvents(a: Span, b: Span, ep: Address): seq<Event> {
    [] + [Submit([a, b], ep, false)] + [Init(0)] + [Queue(0)] + [Init(0)] + [Queue(0)]
  }

  lemma SlotsOfTwo(m: nat)
    requires m > 1
    ensures Slot(m, m - 1) == m - 1 && Slot(m, m) == 0 && Slot(m, m + 1) == 1
    ensures WindowSize(m, m - 1, 2) == 1 && WindowSize(m, 0, 1) == 1 && WindowSize(m, 1, m - 1) == m - 1
  {
    SlotSum(m, m - 1, 0);
    SlotSum(m, m, 1);
    SlotSum(m, 1, 0);
    assert Slot(m, Slot(m, m) + 1) == Slot(m, m + 1);
  }

  lemma TwoChains(x: Fixed, ring: seq<Desc>, a: Span, b: Span, ep: Address)
    requires |ring| > 1
    ensures var m, events := |ring|, FirstEvents(a, b, ep);
            && RoomyForUnfinished(x, ring, m - 1, events + [Service(OneDone())])
            && HalfDone(Run(x, ring, m - 1, events + [Service(OneDone())]), m, a, b)
  {
    hide Run, Written, NextChain, EpAt, Slot, RoomyForUnfinished, WindowSize, Cleared, ToClear, E.Service;
    var m := |ring|;
    var p := m - 1;
    SlotsOfTwo(m);
    assert Run(x, ring, p, []) == Fresh(ring, p) && RoomyForUnfinished(x, ring, p, []) by {
      hide *;
      AtFirst(x, ring, p);
    }
    var s0 := Fresh(ring, p);
    OneEventMore(x, ring, p, [], Submit([a, b], ep, false));
    var s1 := After(x, s0, Submit([a, b], ep, false));
    NextOfTwo(x, s1, 0, 1);
    assert [a, b][0..1] == [a] && [a, b][1..2] == [b];
    OneEventMore(x, ring, p, [] + [Submit([a, b], ep, false)], Init(0));
    var s2 := After(x, s1, Init(0));
    OneEventMore(x, ring, p, [] + [Submit([a, b], ep, false)] + [Init(0)], Queue(0));
    var s3 := After(x, s2, Queue(0));
    NextOfTwo(x, s3, 0, 1);
    OneEventMore(x, ring, p, [] + [Submit([a, b], ep, false)] + [Init(0)] + [Queue(0)], Init(0));
    var s4 := After(x, s3, Init(0));
    OneEventMore(x, ring, p, [] + [Submit([a, b], ep, false)] + [Init(0)] + [Queue(0)] + [Init(0)], Queue(0));
    var s5 := After(x, s4, Queue(0));
    OneEventMore(x, ring, p, FirstEvents(a, b, ep), Service(OneDone()));
    ServesOne(s5.engine);
  }

  lemma AtFirst(x: Fixed, ring: seq<Desc>, p: nat)
    requires |ring| > 0
    ensures Run(x, ring, p, []) == Fresh(ring, p) && RoomyForUnfinished(x, ring, p, [])
  {
  }

  /** A third chain in the slots from 1 on, the last of which the first chain had. */
  predicate ThirdQueued(s: State, m: nat, c: seq<Span>) {
    && |s.ring| == m > 1 && |c| == m - 1 && |s.chains| == 3 && s.handed == [0, 1, 2] && |s.jobs| == 2
    && !s.jobs[0].waits && !s.jobs[1].waits
    && s.chains[0].job == 0 && s.chains[1].job == 0 && s.chains[2].job == 1
    && s.chains[0].pos == m - 1 && |s.chains[0].spans| == 1
    && s.chains[2].pos == m + 1 && s.chains[2].spans == c
    && s.chains[1].xfer == E.Xfer(0, 1, true)
    && s.engine.running && s.engine.descDequeued == 0 && s.engine.queue == [s.chains[1].xfer, s.chains[2].xfer]
    && |s.engine.finished| == 1 && s.engine.finished[0].state == E.COMPLETED && s.engine.ioDone == []
  }

  function ThirdChain(c: seq<Span>, ep: Address): seq<Event> { [Submit(c, ep, false), Init(1), Queue(1)] }

  lemma HalfDoneUnfinished(s: State, m: nat, a: Span, b: Span)
    requires HalfDone(s, m, a, b)
    ensures Done(s) == [0]
  {
  }

  lemma ThirdIsQueued(x: Fixed, ring: seq<Desc>, p: nat, events: seq<Event>, a: Span, b: Span, c: seq<Span>,
                      ep: Address)
    requires |ring| > 1 && |c| == |ring| - 1 && RoomyForUnfinished(x, ring, p, events)
    requires HalfDone(Run(x, ring, p, events), |ring|, a, b)
    ensures RoomyForUnfinished(x, ring, p, events + ThirdChain(c, ep))
    ensures ThirdQueued(Run(x, ring, p, events + ThirdChain(c, ep)), |ring|, c)
  {
    hide Run, Written, NextChain, EpAt, Slot, RoomyForUnfinished, WindowSize;
    var m, s0 := |ring|, Run(x, ring, p, events);
    SlotsOfTwo(m);
    OneEventMore(x, ring, p, events, Submit(c, ep, false));
    var s1 := After(x, s0, Submit(c, ep, false));
    NextOfTwo(x, s1, 1, m - 1);
    assert c[0..m - 1] == c;
    assert FindsSome(s1, Init(1)) by {
      HalfDoneUnfinished(s0, m, a, b);
      assert Done(s1) == [0];
    }
    OneEventMore(x, ring, p, events + [Submit(c, ep, false)], Init(1));
    var s2 := After(x, s1, Init(1));
    OneEventMore(x, ring, p, events + [Submit(c, ep, false)] + [Init(1)], Queue(1));
    assert events + [Submit(c, ep, false)] + [Init(1)] + [Queue(1)] == events + ThirdChain(c, ep);
  }

  lemma {:induction false} ToClearHas(x: Fixed, s: State, s': State, k: nat, c: nat) returns (j: nat)
    requires |s.ring| > 0 && c < k <= |s.chains| && ClearedByCallback(s, s', c)
    ensures j < |ToClear(x, s, s', k)| && ToClear(x, s, s', k)[j] == TransferOf(x, s, s.chains[c])
  {
    hide ClearedByCallback, TransferOf;
    if c == k - 1 {
      j := |ToClear(x, s, s', k)| - 1;
    } else {
      j := ToClearHas(x, s, s', k - 1, c);
    }
  }

  /** The callback of the first request clears the last slot of the ring. */
  lemma CallbackClears(x: Fixed, s: State, c: seq<Span>)
    requires ThirdQueued(s, |s.ring|, c)
    ensures var s' := AfterService(x, s, OneDone());
            && s'.engine.running && s'.engine.queue == [s.chains[2].xfer] && s'.engine.ioDone == [0]
            && s'.ring[|s.ring| - 1] == BLANK
  {
    hide Slot, Length32;
    var m := |s.ring|;
    ServesOne(s.engine);
    var s1 := s.(engine := E.Service(s.engine, OneDone()));
    assert ClearedByCallback(s, s1, 0);
    var j := ToClearHas(x, s, s1, 3, 0);
    SlotsOfTwo(m);
    assert DescRing.InWindow(ToClear(x, s, s1, 3)[j], m - 1);
  }

  /** No descriptor of a chain is blank. */
  lemma BlankBreaksChain(ring: seq<Desc>, start: nat, spans: seq<Span>, ep: nat, mode: Mode, bus: nat, i: nat)
    requires i < |spans| && start + i < |ring| && ring[start + i] == BLANK
    ensures !HoldsChain(ring, start, spans, ep, mode, bus)
  {
    hide ControlWord, NextAdj, EpAt;
    ControlFields(i == |spans| - 1, NextAdj(|spans| - i - 1, Link(bus, |spans|, i) % U32));
    assert ChainDesc(spans, ep, mode, bus, start + i - start) != BLANK;
  }

  /** On a ring of two the engine then executes nothing at all. */
  lemma NothingExecuted(ring: seq<Desc>, base: nat, x: Transfer)
    requires |ring| == 2 && ring[1] == BLANK && 0 < base
    requires x.descBus == base + DESC_SIZE && x.descAdjacent == 1
    ensures EngineRun(ring, base, x) == []
  {
    assert NextAdj(1, x.descBus % U32) == 0;
    assert (x.descBus - base) / DESC_SIZE == 1;
    assert Walk(ring, base, 0, 0, 1).None?;
  }

  function ClearedTooLate(a: Span, b: Span, ep: Address, c: seq<Span>, ep': Address): seq<Event> {
    FirstEvents(a, b, ep) + [Service(OneDone())] + ThirdChain(c, ep') + [Service(OneDone())]
  }

  /**
   * The slots of a finished chain are not free. A request of two descriptors that begins in the last slot of the ring
   * is followed by one that fits behind it, when only its second transfer is unfinished. As that one finishes, the
   * callback zeroes the last slot of the new chain, and then the engine is started on it.
   */
  lemma FinishedIsNotFree(x: Fixed, ring: seq<Desc>, a: Span, b: Span, ep: Address, c: seq<Span>, ep': Address)
    requires |ring| > 1 && |c| == |ring| - 1
    ensures RoomyForUnfinished(x, ring, |ring| - 1, ClearedTooLate(a, b, ep, c, ep'))
    ensures var s := Run(x, ring, |ring| - 1, ClearedTooLate(a, b, ep, c, ep'));
            && |s.chains| == 3 && s.chains[2].spans == c
            && s.engine.running && s.engine.queue == [s.chains[2].xfer] && !StandsAs(x, s, s.chains[2])
            && (|ring| == 2 && 0 < x.base ==> EngineRun(s.ring, x.base, TransferOf(x, s, s.chains[2])) == [])
  {
    hide Run, Slot, RoomyForUnfinished, AfterService, EngineRun, Length32, ChainDesc, HalfDone;
    var m, p := |ring|, |ring| - 1;
    var first := FirstEvents(a, b, ep) + [Service(OneDone())];
    TwoChains(x, ring, a, b, ep);
    ThirdIsQueued(x, ring, p, first, a, b, c, ep');
    var s := Run(x, ring, p, first + ThirdChain(c, ep'));
    OneEventMore(x, ring, p, first + ThirdChain(c, ep'), Service(OneDone()));
    CallbackClears(x, s, c);
    SameChains(x, s, OneDone());
    var s' := AfterService(x, s, OneDone());
    var ch := s'.chains[2];
    SlotsOfTwo(m);
    BlankBreaksChain(s'.ring, 1, c, ch.ep, x.mode, BusOf(x, s', ch), m - 2);
    if m == 2 && 0 < x.base {
      NothingExecuted(s'.ring, x.base, TransferOf(x, s', ch));
    }
  }

  lemma SameChains(x: Fixed, s: State, hw: E.Hardware)
    requires |s.ring| > 0
    ensures AfterService(x, s, hw).chains == s.chains && |AfterService(x, s, hw).ring| == |s.ring|
  {
  }
}
