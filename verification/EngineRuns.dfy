/** What the engine executes over whole runs, while the driver builds, queues, services and clears. */
module EngineRuns {
  import opened PageMap
  import opened SwDesc
  import opened DescRing
  import opened Division
  import opened DmaPath
  import opened EngineRing
  import E = EngineService

  // ---- Whose slots are taken ----

  /**
   * The driver has still to clear the slots of the chain: those of a blocking request until its loop destroys the
   * transfer, those of another one until the request is called back.
   */
  predicate Reserved(s: State, c: nat) {
    c < |s.chains| &&
    var r := s.chains[c].job;
    if Waits(s, r) then s.jobs[r].phase == Built(c) || s.jobs[r].phase == Waiting(c) else r !in s.engine.ioDone
  }

  /** From the first slot of the oldest reserved chain to the last one of the new chain is not more than the ring. */
  predicate Room(s: State, n: nat) {
    forall c :: 0 <= c < |s.chains| && Reserved(s, c) ==> s.pos + n - s.chains[c].pos <= |s.ring|
  }

  predicate Clear(s: State, c: Chain, c': Chain)
    requires |s.ring| > 0
  {
    IndexOf(s, c) + |c.spans| <= IndexOf(s, c') || IndexOf(s, c') + |c'.spans| <= IndexOf(s, c)
  }

  /** The new chain has no slot in common with a reserved one. */
  predicate Spares(s: State, c': Chain)
    requires |s.ring| > 0
  {
    forall c :: 0 <= c < |s.chains| && Reserved(s, c) ==> Clear(s, s.chains[c], c')
  }

  predicate FindsRoom(s: State, e: Event)
    requires |s.ring| > 0
  {
    e.Init? && CanInit(s, e.job) ==> Room(s, NextSize(s, e.job))
  }

  /** Every call of transfer_init finds room. */
  predicate Roomy(x: Fixed, ring: seq<Desc>, p: nat, events: seq<Event>)
    requires |ring| > 0
  {
    forall k :: 0 <= k < |events| ==> FindsRoom(Run(x, ring, p, events[..k]), events[k])
  }

  // ---- A request is called back when all its transfers are finished ----

  lemma {:induction false} ProgressGrows(x: Fixed, s: State, r: nat, i: nat, j: nat)
    requires Order(x, s) && i <= j <= |s.handed|
    ensures Progress(s.chains, s.handed, r, i) <= Progress(s.chains, s.handed, r, j)
  {
    if i < j {
      hide ChainOk, WindowOk, ChainPhase, JobPhase, QueueAgrees;
      assert InOrder(s, j - 1);
      ProgressGrows(x, s, r, i, j - 1);
    }
  }

  /** The queue turn of the last transfer of a request that was called back. */
  lemma LastTurn(x: Fixed, s: State, r: nat) returns (i: nat)
    requires Order(x, s) && r in s.engine.ioDone
    ensures i < |s.engine.finished| <= |s.handed| && s.handed[i] < |s.chains|
    ensures r < |s.jobs| && !s.jobs[r].waits
    ensures Progress(s.chains, s.handed, r, i + 1) == |s.jobs[r].sdesc|
  {
    hide E.LastOf, WindowOk, ChainPhase, JobPhase, InOrder, EpAt;
    BooksCount(s);
    var xs := E.XfersOf(s.engine.finished);
    i := E.LastOfNames(xs, r);
    assert XfersHanded(s)[i] == xs[i];
    assert ChainOk(x, s, s.handed[i]);
  }

  lemma CalledBackIsDone(x: Fixed, s: State, r: nat, c: nat)
    requires Order(x, s) && r in s.engine.ioDone && c < |s.chains| && s.chains[c].job == r
    ensures c in Done(s)
  {
    hide EpAt, E.Books, WindowOk, Progress;
    var i := LastTurn(x, s, r);
    BooksCount(s);
    assert ChainOk(x, s, c) && ChainPhase(s, c) && JobPhase(s, r);
    if c in s.handed {
      var j :| 0 <= j < |s.handed| && s.handed[j] == c;
      if j <= i {
        assert Done(s)[j] == c;
      } else {
        assert InOrder(s, j);
        ProgressGrows(x, s, r, i + 1, j);
      }
    } else {
      ProgressGrows(x, s, r, i + 1, |s.handed|);
    }
  }

  /** What is not finished is still reserved. */
  lemma UnfinishedIsReserved(x: Fixed, s: State, c: nat)
    requires Order(x, s) && Unfinished(s, c)
    ensures Reserved(s, c)
  {
    hide EpAt, E.Books, WindowOk, Progress, JobPhase, InOrder, Done;
    var r := s.chains[c].job;
    assert ChainPhase(s, c);
    if !Waits(s, r) && r in s.engine.ioDone {
      CalledBackIsDone(x, s, r, c);
    }
  }

  // ---- Chains that are not finished stand ----

  predicate StandsAs(x: Fixed, s: State, c: Chain)
    requires |s.ring| > 0
  {
    HoldsChain(s.ring, IndexOf(s, c), c.spans, c.ep, x.mode, BusOf(x, s, c))
  }

  /** Reserved chains lie within the last turn of the ring, and unfinished ones stand as they were built. */
  predicate Kept(x: Fixed, s: State)
    requires |s.ring| > 0
  {
    && (forall c :: 0 <= c < |s.chains| && Reserved(s, c) ==> s.pos <= s.chains[c].pos + |s.ring|)
    && (forall c :: 0 <= c < |s.chains| && Unfinished(s, c) ==> StandsAs(x, s, s.chains[c]))
  }

  lemma {:induction false} PositionsGrow(x: Fixed, s: State, c: nat, c': nat)
    requires Order(x, s) && c < c' < |s.chains|
    ensures s.chains[c].pos + |s.chains[c].spans| <= s.chains[c'].pos
    decreases c' - c
  {
    hide ChainOk, ChainPhase, JobPhase, InOrder, QueueAgrees, Slot;
    assert WindowOk(s, c);
    if c + 1 < c' {
      PositionsGrow(x, s, c + 1, c');
    }
  }

  lemma BeforePos(x: Fixed, s: State, c: nat)
    requires Order(x, s) && c < |s.chains|
    ensures s.chains[c].pos + |s.chains[c].spans| <= s.pos && 0 < |s.chains[c].spans|
    ensures IndexOf(s, s.chains[c]) + |s.chains[c].spans| <= |s.ring|
  {
    hide ChainPhase, JobPhase, InOrder, QueueAgrees, Slot, EpAt;
    assert WindowOk(s, c) && ChainOk(x, s, c);
    if c < |s.chains| - 1 {
      PositionsGrow(x, s, c, |s.chains| - 1);
      assert WindowOk(s, |s.chains| - 1);
    }
  }

  /** Two reserved chains never share a slot. */
  lemma ReservedApart(x: Fixed, s: State, c: nat, c': nat)
    requires Order(x, s) && Kept(x, s) && c < c' < |s.chains| && Reserved(s, c)
    ensures Clear(s, s.chains[c], s.chains[c'])
  {
    hide Order, Slot, StandsAs, Reserved, Unfinished;
    PositionsGrow(x, s, c, c');
    BeforePos(x, s, c);
    BeforePos(x, s, c');
    WindowsApart(|s.ring|, s.chains[c].pos, |s.chains[c].spans|, s.chains[c'].pos, |s.chains[c'].spans|);
  }

  /** The guard is exact: a new chain spares all reserved ones if and only if there is room for it. */
  lemma RoomIsExact(x: Fixed, s: State, c': Chain)
    requires Order(x, s) && Kept(x, s)
    requires c'.pos == s.pos && 0 < |c'.spans| && IndexOf(s, c') + |c'.spans| <= |s.ring|
    ensures Spares(s, c') <==> Room(s, |c'.spans|)
  {
    hide Order, Slot, StandsAs, Reserved, Unfinished;
    forall c | 0 <= c < |s.chains| && Reserved(s, c)
      ensures Clear(s, s.chains[c], c') <==> s.pos + |c'.spans| - s.chains[c].pos <= |s.ring|
    {
      BeforePos(x, s, c);
      WindowsApartExactly(|s.ring|, s.chains[c].pos, |s.chains[c].spans|, s.pos, |c'.spans|);
    }
  }

  // ---- transfer_init ----

  lemma InitStands(x: Fixed, s: State, c': Chain)
    requires |s.ring| > 0 && c'.job < |s.jobs| && c'.pos == s.pos && IndexOf(s, c') + |c'.spans| <= |s.ring|
    ensures StandsAs(x, AfterInit(x, s, c'), c')
    ensures OnlyWindow(s.ring, AfterInit(x, s, c').ring, IndexOf(s, c'), |c'.spans|)
  {
    hide Written, HoldsChain, OnlyWindow;
    WrittenHolds(s.ring, IndexOf(s, c'), c'.spans, c'.ep, x.mode, BusOf(x, s, c'));
  }

  lemma InitSpares(x: Fixed, s: State, c': Chain, c: Chain)
    requires |s.ring| > 0 && c'.job < |s.jobs| && StandsAs(x, s, c) && Clear(s, c, c')
    requires c'.pos == s.pos && IndexOf(s, c') + |c'.spans| <= |s.ring|
    ensures StandsAs(x, AfterInit(x, s, c'), c)
  {
    hide Written, HoldsChain, OnlyWindow, Slot;
    InitStands(x, s, c');
    ChainSurvives(s.ring, AfterInit(x, s, c').ring, IndexOf(s, c), c.spans, c.ep, x.mode, BusOf(x, s, c),
                  IndexOf(s, c'), |c'.spans|);
  }

  lemma InitReserves(x: Fixed, s: State, r: nat, c: nat)
    requires Order(x, s) && CanInit(s, r)
    ensures var s' := AfterInit(x, s, NextChain(x, s, r));
            c < |s.chains| && Reserved(s', c) ==> Reserved(s, c)
  {
    hide EpAt, E.Books, WindowOk, Progress, InOrder, Slot, Written, WindowSize;
    NextFits(x, s, r);
    assert JobPhase(s, r);
  }

  lemma InitKeeps(x: Fixed, s: State, r: nat)
    requires |s.ring| > 0 && Order(x, s) && Kept(x, s) && CanInit(s, r) && Room(s, NextSize(s, r))
    ensures Kept(x, AfterInit(x, s, NextChain(x, s, r)))
  {
    hide Order, Slot, StandsAs, Reserved, NextChain, NextSize, Written;
    NextFits(x, s, r);
    var c' := NextChain(x, s, r);
    var s' := AfterInit(x, s, c');
    RoomIsExact(x, s, c');
    forall c | 0 <= c < |s'.chains| && Reserved(s', c)
      ensures s'.pos <= s'.chains[c].pos + |s'.ring|
    {
      InitReserves(x, s, r, c);
    }
    forall c | 0 <= c < |s'.chains| && Unfinished(s', c)
      ensures StandsAs(x, s', s'.chains[c])
    {
      if c < |s.chains| {
        assert Unfinished(s, c);
        UnfinishedIsReserved(x, s, c);
        InitSpares(x, s, c', s.chains[c]);
      } else {
        InitStands(x, s, c');
      }
    }
  }

  // ---- transfer_queue ----

  lemma SameRing(x: Fixed, s: State, s': State, c: Chain)
    requires |s.ring| > 0 && s'.ring == s.ring
    ensures StandsAs(x, s', c) == StandsAs(x, s, c)
  {
  }

  lemma QueueKeeps(x: Fixed, s: State, r: nat)
    requires Order(x, s) && Kept(x, s) && CanQueue(s, r)
    ensures Kept(x, AfterQueue(s, r))
  {
    hide StandsAs, E.Submit, E.Books, EpAt, Slot, Progress, ChainOk, WindowOk, InOrder, Done;
    var s' := AfterQueue(s, r);
    QueueKeepsDone(x, s, r);
    SubmitFinishesNone(s.engine, s.chains[s.jobs[r].phase.chain].xfer);
    assert JobPhase(s, r);
    forall c | 0 <= c < |s.chains| && Reserved(s', c)
      ensures Reserved(s, c)
    {
    }
    forall c | 0 <= c < |s.chains| && Unfinished(s', c)
      ensures StandsAs(x, s', s.chains[c])
    {
      assert Unfinished(s, c);
      SameRing(x, s, s', s.chains[c]);
    }
  }

  // ---- Clearing ----

  lemma {:induction false} ToClearNames(x: Fixed, s: State, s': State, k: nat, j: nat) returns (c: nat)
    requires |s.ring| > 0 && k <= |s.chains| && j < |ToClear(x, s, s', k)|
    ensures c < k && ClearedByCallback(s, s', c) && ToClear(x, s, s', k)[j] == TransferOf(x, s, s.chains[c])
  {
    hide ClearedByCallback, TransferOf;
    if ClearedByCallback(s, s', k - 1) && j == |ToClear(x, s, s', k)| - 1 {
      c := k - 1;
    } else {
      c := ToClearNames(x, s, s', k - 1, j);
    }
  }

  /** An unfinished chain has no slot in common with another reserved one. */
  lemma ClearsOther(x: Fixed, s: State, u: nat, c: nat)
    requires |s.ring| > 0 && Order(x, s) && Kept(x, s) && Unfinished(s, u) && c < |s.chains| && Reserved(s, c) && c != u
    ensures var t := TransferOf(x, s, s.chains[c]);
            var start, n := IndexOf(s, s.chains[u]), |s.chains[u].spans|;
            start + n <= t.descIndex || t.descIndex + t.descNum <= start
  {
    hide Order, Kept, Slot, Reserved, Done, Length32;
    UnfinishedIsReserved(x, s, u);
    if u < c {
      ReservedApart(x, s, u, c);
    } else {
      ReservedApart(x, s, c, u);
    }
  }

  /** A chain that the callbacks clear was reserved, and is finished. */
  lemma ClearedIsReserved(x: Fixed, s: State, s': State, c: nat)
    requires Order(x, s') && s'.chains == s.chains && s'.jobs == s.jobs && ClearedByCallback(s, s', c)
    ensures Reserved(s, c) && !Unfinished(s', c)
  {
    hide Order, Done, Completed;
    CalledBackIsDone(x, s', s.chains[c].job, c);
  }

  lemma ServiceSpares(x: Fixed, s: State, hw: E.Hardware, u: nat)
    requires |s.ring| > 0 && Order(x, s) && Kept(x, s) && Unfinished(AfterService(x, s, hw), u)
    ensures Unfinished(s, u) && StandsAs(x, AfterService(x, s, hw), s.chains[u])
  {
    hide Order, HoldsChain, Slot, Reserved, ClearedByCallback, E.Service, TransferOf, Cleared, ToClear, Done;
    var s1, s' := s.(engine := E.Service(s.engine, hw)), AfterService(x, s, hw);
    ServiceKeepsOrder(x, s, hw);
    assert Unfinished(s, u);
    var t := ToClear(x, s, s1, |s.chains|);
    forall j | 0 <= j < |t|
      ensures var start, n := IndexOf(s, s.chains[u]), |s.chains[u].spans|;
              start + n <= t[j].descIndex || t[j].descIndex + t[j].descNum <= start
    {
      var c := ToClearNames(x, s, s1, |s.chains|, j);
      SameCallback(s, s1, s', c);
      ClearedIsReserved(x, s, s', c);
      ClearsOther(x, s, u, c);
    }
    var ch := s.chains[u];
    ChainSurvivesClearing(s.ring, t, IndexOf(s, ch), ch.spans, ch.ep, x.mode, BusOf(x, s, ch));
  }

  lemma SameCallback(s: State, s1: State, s': State, c: nat)
    requires s1.engine == s'.engine && s1.handed == s'.handed
    ensures ClearedByCallback(s, s1, c) == ClearedByCallback(s, s', c)
  {
    forall c'
      ensures Completed(s1, c') == Completed(s', c')
    {
      assert Done(s1) == Done(s');
      assert forall i :: EndedAs(s1, i, c', E.COMPLETED) == EndedAs(s', i, c', E.COMPLETED);
    }
  }

  lemma CallbacksStay(s: E.State, s': E.State, r: nat)
    requires E.Extends(s, s') && r in s.ioDone
    ensures r in s'.ioDone
  {
    var i :| 0 <= i < |s.ioDone| && s.ioDone[i] == r;
    assert s'.ioDone[..|s.ioDone|][i] == s'.ioDone[i];
  }

  lemma ServiceKeeps(x: Fixed, s: State, hw: E.Hardware)
    requires |s.ring| > 0 && Order(x, s) && Kept(x, s)
    ensures Kept(x, AfterService(x, s, hw))
  {
    hide Order, StandsAs, Unfinished, E.Service, Cleared, ToClear, E.Extends;
    var s' := AfterService(x, s, hw);
    ServiceKeepsOrder(x, s, hw);
    forall c | 0 <= c < |s.chains| && Reserved(s', c)
      ensures Reserved(s, c)
    {
      if s.chains[c].job in s.engine.ioDone {
        CallbacksStay(s.engine, s'.engine, s.chains[c].job);
      }
    }
    forall c | 0 <= c < |s.chains| && Unfinished(s', c)
      ensures StandsAs(x, s', s.chains[c])
    {
      ServiceSpares(x, s, hw, c);
    }
  }

  lemma DestroySpares(x: Fixed, s: State, r: nat, u: nat)
    requires |s.ring| > 0 && Order(x, s) && Kept(x, s) && CanDestroy(s, r)
    requires Unfinished(AfterDestroy(x, s, r), u)
    ensures Unfinished(s, u) && StandsAs(x, AfterDestroy(x, s, r), s.chains[u])
  {
    hide HoldsChain, Slot, TransferOf, Cleared, Completed, ChainOk, WindowOk, ChainPhase, InOrder, QueueAgrees,
      Progress;
    var c, ch := s.jobs[r].phase.chain, s.chains[u];
    assert JobPhase(s, r);
    assert Unfinished(s, u) && Reserved(s, c);
    ClearsOther(x, s, u, c);
    ChainSurvivesClearing(s.ring, [TransferOf(x, s, s.chains[c])], IndexOf(s, ch), ch.spans, ch.ep, x.mode,
                          BusOf(x, s, ch));
  }

  lemma DestroyKeeps(x: Fixed, s: State, r: nat)
    requires |s.ring| > 0 && Order(x, s) && Kept(x, s) && CanDestroy(s, r)
    ensures Kept(x, AfterDestroy(x, s, r))
  {
    hide Order, StandsAs, Cleared, TransferOf, Completed, Unfinished;
    var s' := AfterDestroy(x, s, r);
    forall c | 0 <= c < |s.chains| && Reserved(s', c)
      ensures Reserved(s, c)
    {
    }
    forall c | 0 <= c < |s.chains| && Unfinished(s', c)
      ensures StandsAs(x, s', s.chains[c])
    {
      DestroySpares(x, s, r, c);
    }
  }

  // ---- Every run ----

  lemma SubmitKeeps(x: Fixed, s: State, job: Job)
    requires Order(x, s) && Kept(x, s)
    ensures Kept(x, s.(jobs := s.jobs + [job]))
  {
    hide StandsAs, WindowOk, ChainPhase, JobPhase, InOrder, QueueAgrees, EpAt;
    var s' := s.(jobs := s.jobs + [job]);
    forall c | 0 <= c < |s.chains|
      ensures Reserved(s', c) == Reserved(s, c) && StandsAs(x, s', s.chains[c]) == StandsAs(x, s, s.chains[c])
    {
      assert ChainOk(x, s, c);
      SameRing(x, s, s', s.chains[c]);
    }
  }

  lemma EventKeeps(x: Fixed, s: State, e: Event)
    requires |s.ring| > 0 && Order(x, s) && Kept(x, s) && FindsRoom(s, e)
    ensures Kept(x, After(x, s, e))
  {
    hide Order, Kept, AfterInit, NextChain, AfterQueue, AfterService, AfterDestroy, CanInit, CanQueue, CanDestroy,
      Room, NextSize;
    match e
    case Submit(sdesc, ep, waits) => SubmitKeeps(x, s, Job(sdesc, ep, waits, 0, Ready));
    case Init(r) =>
      if CanInit(s, r) {
        InitKeeps(x, s, r);
      }
    case Queue(r) =>
      if CanQueue(s, r) {
        QueueKeeps(x, s, r);
      }
    case Service(hw) => ServiceKeeps(x, s, hw);
    case Destroy(r) =>
      if CanDestroy(s, r) {
        DestroyKeeps(x, s, r);
      }
  }

  lemma RoomyPrefix(x: Fixed, ring: seq<Desc>, p: nat, events: seq<Event>)
    requires |ring| > 0 && |events| > 0 && Roomy(x, ring, p, events)
    ensures Roomy(x, ring, p, events[..|events| - 1])
    ensures FindsRoom(Run(x, ring, p, events[..|events| - 1]), events[|events| - 1])
  {
    hide Run, FindsRoom;
    var before := events[..|events| - 1];
    forall k | 0 <= k < |before|
      ensures FindsRoom(Run(x, ring, p, before[..k]), before[k])
    {
      assert before[..k] == events[..k] && FindsRoom(Run(x, ring, p, events[..k]), events[k]);
    }
  }

  /** In every run in which each new chain finds room, every chain that is not finished stands as it was built. */
  lemma {:induction false} UnfinishedStand(x: Fixed, ring: seq<Desc>, p: nat, events: seq<Event>)
    requires |ring| > 0 && Roomy(x, ring, p, events)
    ensures Order(x, Run(x, ring, p, events)) && Kept(x, Run(x, ring, p, events))
  {
    hide After, Order, Kept, FindsRoom;
    OrderAlways(x, ring, p, events);
    if |events| == 0 {
      assert Kept(x, Fresh(ring, p)) by {
        hide *;
        FreshKept(x, ring, p);
      }
    } else {
      var n := |events| - 1;
      RoomyPrefix(x, ring, p, events);
      UnfinishedStand(x, ring, p, events[..n]);
      EventKeeps(x, Run(x, ring, p, events[..n]), events[n]);
    }
  }

  lemma FreshKept(x: Fixed, ring: seq<Desc>, p: nat)
    requires |ring| > 0
    ensures Kept(x, Fresh(ring, p))
  {
  }

  // ---- What the engine is started on ----

  /** The chain at the head of the queue. */
  function Head(s: State): nat
    requires QueueAgrees(s) && |s.engine.queue| > 0
  {
    BooksCount(s);
    s.handed[|s.engine.finished|]
  }

  lemma HeadIsUnfinished(s: State)
    requires QueueAgrees(s) && |s.engine.queue| > 0
    ensures Unfinished(s, Head(s)) && s.chains[Head(s)].xfer == s.engine.queue[0]
  {
    BooksCount(s);
    assert XfersHanded(s)[|s.engine.finished|] == s.engine.queue[0];
  }

  /** An unfinished chain is what the engine executes when it is started on it. */
  lemma UnfinishedChainRuns(x: Fixed, s: State, c: nat)
    requires |s.ring| > 0 && Order(x, s) && Kept(x, s) && Unfinished(s, c) && x.base % DESC_SIZE == 0
    ensures var chain := s.chains[c];
            Moves(EngineRun(s.ring, x.base, TransferOf(x, s, chain)), chain.spans, chain.ep, x.mode)
  {
    hide Order, Slot, HoldsChain, Moves, EngineRun, Length32, Done, Reserved;
    var chain := s.chains[c];
    assert StandsAs(x, s, chain);
    BeforePos(x, s, c);
    EngineRunsChain(s.ring, x.base, x.mode, chain.spans, chain.ep, TransferOf(x, s, chain));
  }

  /**
   * Under any interleaving of submit loops, service calls and clearing that leaves room for every new chain: whenever
   * there is work, and so whenever the engine is started, the transfer at the head of the queue is executed exactly as
   * it was built.
   */
  lemma EngineStartsOnItsChain(x: Fixed, ring: seq<Desc>, p: nat, events: seq<Event>)
    requires |ring| > 0 && Roomy(x, ring, p, events) && x.base % DESC_SIZE == 0
    requires |Run(x, ring, p, events).engine.queue| > 0
    ensures var s := Run(x, ring, p, events);
            && QueueAgrees(s) && Unfinished(s, Head(s)) && s.chains[Head(s)].xfer == s.engine.queue[0]
            && var chain := s.chains[Head(s)];
               && chain.xfer.descNum == |chain.spans| > 0
               && Moves(EngineRun(s.ring, x.base, TransferOf(x, s, chain)), chain.spans, chain.ep, x.mode)
  {
    hide Run, Roomy, Kept, WindowOk, ChainPhase, JobPhase, InOrder, EpAt, E.Books, Moves, EngineRun, TransferOf, Done;
    var s := Run(x, ring, p, events);
    UnfinishedStand(x, ring, p, events);
    HeadIsUnfinished(s);
    UnfinishedChainRuns(x, s, Head(s));
    assert ChainOk(x, s, Head(s));
  }

  // ---- What the engine does for one request ----

  /**
   * The descriptors executed for request r by the transfers that are completed between s and s', up to queue turn i. A
   * completed transfer was executed by then, in the ring as it was before the service call.
   */
  function CompletedRun(x: Fixed, s: State, s': State, r: nat, i: nat): seq<Desc>
    requires |s.ring| > 0 && |s.engine.finished| <= i <= |s'.engine.finished| && i <= |s.handed|
  {
    if i == |s.engine.finished| then []
    else
      var c := s.handed[i - 1];
      CompletedRun(x, s, s', r, i - 1)
      + if c < |s.chains| && s.chains[c].job == r && s'.engine.finished[i - 1].state == E.COMPLETED
        then EngineRun(s.ring, x.base, TransferOf(x, s, s.chains[c])) else []
  }

  /** The descriptors executed for request r over a run, service call by service call. */
  function ExecutedFor(x: Fixed, ring: seq<Desc>, p: nat, events: seq<Event>, r: nat): seq<Desc>
    requires |ring| > 0
  {
    if |events| == 0 then []
    else
      var n := |events| - 1;
      var s, e := Run(x, ring, p, events[..n]), events[n];
      ExecutedFor(x, ring, p, events[..n], r) +
      match e
      case Service(hw) =>
        OrderAlways(x, ring, p, events[..n]);
        FinishedBounds(x, s, hw);
        CompletedRun(x, s, AfterService(x, s, hw), r, |AfterService(x, s, hw).engine.finished|)
      case _ => []
  }

  lemma FinishedBounds(x: Fixed, s: State, hw: E.Hardware)
    requires Order(x, s)
    ensures |s.ring| > 0
    ensures |s.engine.finished| <= |AfterService(x, s, hw).engine.finished| <= |s.handed|
  {
    hide E.Service, EpAt, E.Books, WindowOk, ChainOk, ChainPhase, JobPhase, InOrder, Cleared, ToClear, Done;
    var s' := AfterService(x, s, hw);
    ServiceKeepsOrder(x, s, hw);
    FinishedGrows(s.engine, s'.engine);
    BooksCount(s');
  }

  /** No transfer of request r has failed. */
  predicate NoneFailed(s: State, r: nat) {
    forall i :: 0 <= i < |s.engine.finished| && i < |s.handed| && TurnOf(s, i, r) ==>
      s.engine.finished[i].state == E.COMPLETED
  }

  /** Queue turn i belongs to request r. */
  predicate TurnOf(s: State, i: nat, r: nat)
    requires i < |s.handed|
  {
    s.handed[i] < |s.chains| && s.chains[s.handed[i]].job == r
  }

  /** Where the engine is in request r. */
  function WorkedOff(s: State, r: nat): nat {
    if |s.engine.finished| <= |s.handed| then Progress(s.chains, s.handed, r, |s.engine.finished|) else 0
  }

  lemma {:induction false} ServiceMoves(x: Fixed, s: State, s': State, r: nat, i: nat, descs: seq<Desc>)
    requires |s.ring| > 0 && Order(x, s) && Kept(x, s) && x.base % DESC_SIZE == 0 && r < |s.jobs|
    requires |s.engine.finished| <= i <= |s'.engine.finished| <= |s.handed|
    requires s'.handed == s.handed && s'.chains == s.chains && NoneFailed(s', r)
    requires Progress(s.chains, s.handed, r, |s.engine.finished|) <= |s.jobs[r].sdesc|
    requires Moves(descs, s.jobs[r].sdesc[..Progress(s.chains, s.handed, r, |s.engine.finished|)], s.jobs[r].ep, x.mode)
    ensures Progress(s.chains, s.handed, r, i) <= |s.jobs[r].sdesc|
    ensures Moves(descs + CompletedRun(x, s, s', r, i), s.jobs[r].sdesc[..Progress(s.chains, s.handed, r, i)],
                  s.jobs[r].ep, x.mode)
    decreases i
  {
    hide EngineRun, EpAt, Kept, Moves, WindowOk, ChainPhase, JobPhase, Slot, Length32, E.Books, Done;
    if i == |s.engine.finished| {
      assert descs + [] == descs;
    } else {
      ServiceMoves(x, s, s', r, i - 1, descs);
      var c := s.handed[i - 1];
      if s.chains[c].job == r {
        assert ChainOk(x, s, c) && InOrder(s, i - 1);
        TurnUnfinished(s, i - 1);
        UnfinishedChainRuns(x, s, c);
        var before, more := CompletedRun(x, s, s', r, i - 1), EngineRun(s.ring, x.base, TransferOf(x, s, s.chains[c]));
        MovesOn(descs + before, more, s.jobs[r].sdesc, s.jobs[r].ep, x.mode, s.chains[c].from, |s.chains[c].spans|);
        assert descs + before + more == descs + (before + more);
      } else {
        assert CompletedRun(x, s, s', r, i - 1) + [] == CompletedRun(x, s, s', r, i - 1);
      }
    }
  }

  lemma TurnUnfinished(s: State, i: nat)
    requires QueueAgrees(s) && |s.engine.finished| <= i < |s.handed|
    ensures Unfinished(s, s.handed[i])
  {
    hide E.Books;
  }

  /** What an event does to a request that has begun. */
  lemma EventKeepsJob(x: Fixed, s: State, e: Event, r: nat)
    requires |s.ring| > 0 && Order(x, s) && r < |s.jobs|
    ensures var s' := After(x, s, e);
            && r < |s'.jobs| && s'.jobs[r].sdesc == s.jobs[r].sdesc && s'.jobs[r].ep == s.jobs[r].ep
            && s'.jobs[r].waits == s.jobs[r].waits
  {
    hide E.Service, E.Submit, Order, Cleared, ToClear, Written, NextChain, TransferOf, Completed;
    if e.Init? && CanInit(s, e.job) {
      NextFits(x, s, e.job);
    }
  }

  /** Only service calls finish transfers. */
  lemma OthersFinishNone(x: Fixed, s: State, e: Event)
    requires |s.ring| > 0 && Order(x, s) && !e.Service?
    ensures var s' := After(x, s, e);
            && s'.engine.finished == s.engine.finished
            && |s.handed| <= |s'.handed| && s'.handed[..|s.handed|] == s.handed
            && |s.chains| <= |s'.chains| && s'.chains[..|s.chains|] == s.chains
            && (!e.Submit? ==> |s'.jobs| == |s.jobs|)
  {
    hide E.Submit, Order, Cleared, Written, NextChain, TransferOf, Completed;
    if e.Queue? && CanQueue(s, e.job) {
      SubmitFinishesNone(s.engine, s.chains[s.jobs[e.job].phase.chain].xfer);
    }
    if e.Init? && CanInit(s, e.job) {
      NextFits(x, s, e.job);
    }
  }

  lemma OthersWorkOffNone(x: Fixed, s: State, e: Event, r: nat)
    requires |s.ring| > 0 && Order(x, s) && !e.Service?
    ensures WorkedOff(After(x, s, e), r) == WorkedOff(s, r)
    ensures NoneFailed(After(x, s, e), r) ==> NoneFailed(s, r)
  {
    hide After, Progress, E.Books, EpAt, ChainOk, WindowOk, ChainPhase, JobPhase, InOrder, Done;
    var s' := After(x, s, e);
    OthersFinishNone(x, s, e);
    BooksCount(s);
    ProgressSame(s.chains, s'.chains, s.handed, s'.handed, r, |s.engine.finished|);
    if NoneFailed(s', r) {
      forall i | 0 <= i < |s.engine.finished| && TurnOf(s, i, r)
        ensures s.engine.finished[i].state == E.COMPLETED
      {
        assert s'.handed[..|s.handed|][i] == s'.handed[i];
        assert s'.chains[..|s.chains|][s.handed[i]] == s'.chains[s.handed[i]];
        assert TurnOf(s', i, r);
      }
    }
  }

  lemma NoneFailedBefore(x: Fixed, s: State, hw: E.Hardware, r: nat)
    requires |s.ring| > 0 && Order(x, s) && NoneFailed(AfterService(x, s, hw), r)
    ensures NoneFailed(s, r)
  {
    hide E.Service, Order, Cleared, ToClear;
    var s' := AfterService(x, s, hw);
    ServiceKeepsOrder(x, s, hw);
    forall i | 0 <= i < |s.engine.finished| && i < |s.handed| && TurnOf(s, i, r)
      ensures s.engine.finished[i].state == E.COMPLETED
    {
      assert TurnOf(s', i, r);
      assert s'.engine.finished[..|s.engine.finished|][i] == s'.engine.finished[i];
    }
  }

  // ---- A status error is not forgotten ----

  /** The service call finds a status error, and a count that does not go beyond the queue. */
  predicate SeesError(s: State, hw: E.Hardware) {
    && s.engine.running && hw.error && (hw.writeback != 0 || hw.register != 0) && |s.engine.queue| > 0
    && ((if hw.writeback != 0 then hw.writeback else hw.register) - s.engine.descDequeued) % U32
       <= E.Total(s.engine.queue)
  }

  lemma ErrorFails(x: Fixed, s: State, hw: E.Hardware) returns (c: nat)
    requires |s.ring| > 0 && Order(x, s) && SeesError(s, hw)
    ensures Unfinished(s, c) && !NoneFailed(AfterService(x, s, hw), s.chains[c].job)
  {
    hide Order, E.Service, E.Total, Cleared, ToClear;
    var k := E.ErrorFailsOne(s.engine, hw);
    var s' := AfterService(x, s, hw);
    assert |s.handed| == |s.engine.finished| + |s.engine.queue| && QueueAgrees(s) by {
      hide *;
      QueueCount(x, s);
    }
    var i := |s.engine.finished| + k - 1;
    c := s.handed[i];
    TurnUnfinished(s, i);
    assert TurnOf(s', i, s.chains[c].job) && s'.engine.finished[i].state == E.FAILED;
  }

  lemma QueueCount(x: Fixed, s: State)
    requires Order(x, s)
    ensures QueueAgrees(s) && |s.handed| == |s.engine.finished| + |s.engine.queue|
  {
    BooksCount(s);
  }

  lemma {:induction false} FailuresStay(x: Fixed, ring: seq<Desc>, p: nat, events: seq<Event>, n: nat, r: nat)
    requires |ring| > 0 && n <= |events| && !NoneFailed(Run(x, ring, p, events[..n]), r)
    ensures !NoneFailed(Run(x, ring, p, events), r)
  {
    hide NoneFailed, Order, AfterService, AfterInit, AfterQueue, AfterDestroy, WorkedOff;
    if n < |events| {
      var last := |events| - 1;
      assert events[..last][..n] == events[..n];
      FailuresStay(x, ring, p, events[..last], n, r);
      OrderAlways(x, ring, p, events[..last]);
      var s, e := Run(x, ring, p, events[..last]), events[last];
      if NoneFailed(Run(x, ring, p, events), r) {
        if e.Service? {
          NoneFailedBefore(x, s, e.hw, r);
        } else {
          OthersWorkOffNone(x, s, e, r);
        }
      }
    } else {
      assert events[..n] == events;
    }
  }

  /** A service call that finds a status error fails a transfer, and its request counts as failed from then on. */
  lemma ErrorFailsRequest(x: Fixed, ring: seq<Desc>, p: nat, events: seq<Event>, n: nat) returns (c: nat)
    requires |ring| > 0 && n < |events| && events[n].Service?
    requires SeesError(Run(x, ring, p, events[..n]), events[n].hw)
    ensures var s := Run(x, ring, p, events[..n]);
            Unfinished(s, c) && !NoneFailed(Run(x, ring, p, events), s.chains[c].job)
  {
    hide NoneFailed, Order, AfterService, SeesError, Done;
    var s := Run(x, ring, p, events[..n]);
    OrderAlways(x, ring, p, events[..n]);
    c := ErrorFails(x, s, events[n].hw);
    assert events[..n + 1][..n] == events[..n];
    FailuresStay(x, ring, p, events, n + 1, s.chains[c].job);
  }

  /** What has been executed for the request is its first software descriptors, in order and once each. */
  predicate WorksInOrder(x: Fixed, s: State, r: nat, descs: seq<Desc>) {
    if r < |s.jobs| then
      && WorkedOff(s, r) <= |s.jobs[r].sdesc|
      && Moves(descs, s.jobs[r].sdesc[..WorkedOff(s, r)], s.jobs[r].ep, x.mode)
    else descs == []
  }

  lemma NothingMoved(sdesc: seq<Span>, ep: nat, mode: Mode)
    ensures Moves([], sdesc[..0], ep, mode)
  {
  }

  lemma OthersWork(x: Fixed, s: State, e: Event, r: nat, descs: seq<Desc>)
    requires |s.ring| > 0 && Order(x, s) && !e.Service? && WorksInOrder(x, s, r, descs)
    ensures WorksInOrder(x, After(x, s, e), r, descs)
  {
    hide After, Order, Moves, WorkedOff, Progress;
    var s' := After(x, s, e);
    OthersWorkOffNone(x, s, e, r);
    OthersFinishNone(x, s, e);
    if r < |s.jobs| {
      EventKeepsJob(x, s, e, r);
    } else if r < |s'.jobs| {
      NothingWorkedOff(x, s, r);
      NothingMoved(s'.jobs[r].sdesc, s'.jobs[r].ep, x.mode);
    }
  }

  lemma NothingWorkedOff(x: Fixed, s: State, r: nat)
    requires Order(x, s) && r >= |s.jobs|
    ensures WorkedOff(s, r) == 0
  {
    hide E.Books, EpAt, ChainOk, WindowOk, ChainPhase, JobPhase, InOrder, Progress;
    BooksCount(s);
    NoProgress(x, s, r, |s.engine.finished|);
  }

  lemma ServiceWorks(x: Fixed, s: State, hw: E.Hardware, r: nat, descs: seq<Desc>)
    requires |s.ring| > 0 && Order(x, s) && Kept(x, s) && x.base % DESC_SIZE == 0
    requires NoneFailed(AfterService(x, s, hw), r) && WorksInOrder(x, s, r, descs)
    ensures var s' := AfterService(x, s, hw);
            && |s.engine.finished| <= |s'.engine.finished| <= |s.handed|
            && WorksInOrder(x, s', r, descs + CompletedRun(x, s, s', r, |s'.engine.finished|))
  {
    hide Order, Kept, Moves, NoneFailed, E.Service, Cleared, ToClear, Progress, CompletedRun;
    var s' := AfterService(x, s, hw);
    FinishedBounds(x, s, hw);
    if r < |s.jobs| {
      ServiceMoves(x, s, s', r, |s'.engine.finished|, descs);
    } else {
      NoRunYet(x, s, s', r, |s'.engine.finished|);
    }
  }

  lemma {:induction false} NoRunYet(x: Fixed, s: State, s': State, r: nat, i: nat)
    requires |s.ring| > 0 && Order(x, s) && r >= |s.jobs|
    requires |s.engine.finished| <= i <= |s'.engine.finished| && i <= |s.handed|
    ensures CompletedRun(x, s, s', r, i) == []
    decreases i
  {
    hide E.Books, EpAt, WindowOk, ChainPhase, JobPhase, InOrder, EngineRun, TransferOf;
    if i > |s.engine.finished| {
      assert ChainOk(x, s, s.handed[i - 1]);
      NoRunYet(x, s, s', r, i - 1);
    }
  }

  /**
   * In every run in which each new chain finds room, and for every request of which no transfer failed: what the engine
   * executed for it is its software descriptors in order, once each, as far as its transfers are finished.
   */
  lemma {:induction false} RequestIsWorkedOff(x: Fixed, ring: seq<Desc>, p: nat, events: seq<Event>, r: nat)
    requires |ring| > 0 && Roomy(x, ring, p, events) && x.base % DESC_SIZE == 0
    requires NoneFailed(Run(x, ring, p, events), r)
    ensures WorksInOrder(x, Run(x, ring, p, events), r, ExecutedFor(x, ring, p, events, r))
  {
    hide Order, Kept, NoneFailed, WorksInOrder, FindsRoom, CompletedRun, AfterInit, AfterQueue, AfterService,
      AfterDestroy, Roomy;
    if |events| == 0 {
      NothingAtFirst(x, ring, p, r);
    } else {
      var n := |events| - 1;
      var s, e, descs := Run(x, ring, p, events[..n]), events[n], ExecutedFor(x, ring, p, events[..n], r);
      RoomyPrefix(x, ring, p, events);
      UnfinishedStand(x, ring, p, events[..n]);
      if e.Service? {
        NoneFailedBefore(x, s, e.hw, r);
        RequestIsWorkedOff(x, ring, p, events[..n], r);
        ServiceWorks(x, s, e.hw, r, descs);
      } else {
        OthersWorkOffNone(x, s, e, r);
        RequestIsWorkedOff(x, ring, p, events[..n], r);
        OthersWork(x, s, e, r, descs);
        assert descs + [] == descs;
      }
    }
  }

  lemma NothingAtFirst(x: Fixed, ring: seq<Desc>, p: nat, r: nat)
    requires |ring| > 0
    ensures WorksInOrder(x, Run(x, ring, p, []), r, ExecutedFor(x, ring, p, [], r))
  {
  }

  /** A nowait request is over when it has been called back, a blocking one when its loop has destroyed all of it. */
  predicate IsOver(s: State, r: nat) {
    r < |s.jobs| &&
    if s.jobs[r].waits then s.jobs[r].phase.Ready? && s.jobs[r].done == |s.jobs[r].sdesc|
    else r in s.engine.ioDone
  }

  lemma {:induction false} ProgressWithin(x: Fixed, s: State, r: nat, i: nat)
    requires Order(x, s) && r < |s.jobs| && i <= |s.handed|
    ensures Progress(s.chains, s.handed, r, i) <= |s.jobs[r].sdesc|
  {
    if i > 0 {
      hide E.Books, EpAt, WindowOk, ChainPhase, JobPhase, InOrder;
      assert ChainOk(x, s, s.handed[i - 1]);
      ProgressWithin(x, s, r, i - 1);
    }
  }

  /** Nothing of a blocking request that waits for nothing is left in the queue. */
  lemma {:induction false} NoneQueued(x: Fixed, s: State, r: nat, i: nat)
    requires Order(x, s) && r < |s.jobs| && s.jobs[r].waits && s.jobs[r].phase.Ready?
    requires |s.engine.finished| <= i <= |s.handed|
    ensures Progress(s.chains, s.handed, r, i) == Progress(s.chains, s.handed, r, |s.engine.finished|)
    decreases i
  {
    hide E.Books, EpAt, WindowOk, ChainOk, JobPhase, InOrder;
    if i > |s.engine.finished| {
      NoneQueued(x, s, r, i - 1);
      assert ChainPhase(s, s.handed[i - 1]);
      TurnUnfinished(s, i - 1);
    }
  }

  /** Then the engine has worked off all of it. */
  lemma OverIsWorkedOff(x: Fixed, s: State, r: nat)
    requires Order(x, s) && IsOver(s, r)
    ensures WorkedOff(s, r) == |s.jobs[r].sdesc|
  {
    hide E.Books, EpAt, WindowOk, ChainOk, ChainPhase, InOrder, Progress, Done;
    BooksCount(s);
    if s.jobs[r].waits {
      assert JobPhase(s, r);
      NoneQueued(x, s, r, |s.handed|);
    } else {
      var i := LastTurn(x, s, r);
      ProgressGrows(x, s, r, i + 1, |s.engine.finished|);
      ProgressWithin(x, s, r, |s.engine.finished|);
    }
  }

  /**
   * A buffer among others: however its submit loop is interleaved with other loops, with service calls and with the
   * clearing of what is finished, if every new chain finds room and none of its transfers fails, then by the time that
   * its request is over the engine has moved every byte of the buffer, in order, each byte once.
   */
  lemma BufferIsMovedAmongOthers(buf: nat, len: nat, pages: seq<nat>, entries: seq<SgEntry>, frame: nat -> nat,
                                 mapped: seq<Span>, blenMax: nat, x: Fixed, ring: seq<Desc>, p: nat,
                                 events: seq<Event>, r: nat)
    requires len < U32 && PageCount(buf, len) <= |pages| && BytesOf(entries) == UserBytes(buf, len, pages)
    requires Bytes(mapped) == OnBus(BytesOf(entries), frame) && 0 < blenMax
    requires |ring| > 0 && Roomy(x, ring, p, events) && x.base % DESC_SIZE == 0
    requires var s := Run(x, ring, p, events);
             IsOver(s, r) && s.jobs[r].sdesc == Cuts(mapped, blenMax) && NoneFailed(s, r)
    ensures var moved := HostSpans(ExecutedFor(x, ring, p, events, r), x.mode);
            Bytes(moved) == OnBus(UserBytes(buf, len, pages), frame)
  {
    hide Run, Roomy, ExecutedFor, Order, Kept, NoneFailed, WorkedOff, OnBus, UserBytes, BytesOf, PageCount, Cuts, Bytes,
      EpAt;
    var s, sdesc := Run(x, ring, p, events), Cuts(mapped, blenMax);
    CutsKeepBytes(mapped, blenMax);
    UnfinishedStand(x, ring, p, events);
    RequestIsWorkedOff(x, ring, p, events, r);
    OverIsWorkedOff(x, s, r);
    assert sdesc[..|sdesc|] == sdesc;
    assert HostSpans(ExecutedFor(x, ring, p, events, r), x.mode) == sdesc;
  }

  // ---- What a callback clears, and when a blocking loop ends ----

  /** The chains of request r among the first k, in order. */
  function ChainsOf(s: State, r: nat, k: nat): (cs: seq<nat>)
    requires k <= |s.chains|
    ensures forall j :: 0 <= j < |cs| ==> cs[j] < k && s.chains[cs[j]].job == r
  {
    if k == 0 then []
    else if s.chains[k - 1].job == r then ChainsOf(s, r, k - 1) + [k - 1] else ChainsOf(s, r, k - 1)
  }

  lemma {:induction false} ChainsOfAll(s: State, r: nat, k: nat, c: nat)
    requires c < k <= |s.chains| && s.chains[c].job == r
    ensures exists j :: 0 <= j < |ChainsOf(s, r, k)| && ChainsOf(s, r, k)[j] == c
  {
    if c == k - 1 {
      assert ChainsOf(s, r, k)[|ChainsOf(s, r, k)| - 1] == c;
    } else {
      ChainsOfAll(s, r, k - 1, c);
      var j :| 0 <= j < |ChainsOf(s, r, k - 1)| && ChainsOf(s, r, k - 1)[j] == c;
      assert ChainsOf(s, r, k)[j] == c;
    }
  }

  lemma {:induction false} ChainsOfOrder(s: State, r: nat, k: nat, i: nat, j: nat)
    requires k <= |s.chains| && i < j < |ChainsOf(s, r, k)|
    ensures ChainsOf(s, r, k)[i] < ChainsOf(s, r, k)[j]
  {
    if j < |ChainsOf(s, r, k - 1)| {
      ChainsOfOrder(s, r, k - 1, i, j);
    }
  }

  /** The transfers of a request, completed or not. */
  function CompletedOf(s: State, r: nat): (done: seq<bool>)
    ensures |done| == |ChainsOf(s, r, |s.chains|)|
  {
    var cs := ChainsOf(s, r, |s.chains|);
    seq(|cs|, j requires 0 <= j < |cs| => Completed(s, cs[j]))
  }

  /** The first failed one ends the loop of the completion handler, and is itself cleared. */
  lemma FirstFailure(done: seq<bool>) returns (n: nat)
    ensures StopsAfter(done, n)
  {
    n := 0;
    while n < |done| && (n == 0 || done[n - 1])
      invariant n <= |done| && forall k :: 0 <= k < n - 1 ==> done[k]
    {
      n := n + 1;
    }
  }

  /**
   * The callback of a request clears what xdma_xfer_completion clears: the first n of its transfers, where n is the
   * first that failed or all of them.
   */
  lemma CallbackClearsToFailure(x: Fixed, s: State, hw: E.Hardware, r: nat) returns (n: nat)
    requires |s.ring| > 0 && Order(x, s)
    requires r !in s.engine.ioDone && r in AfterService(x, s, hw).engine.ioDone
    ensures StopsAfter(CompletedOf(AfterService(x, s, hw), r), n)
    ensures var s', cs := AfterService(x, s, hw), ChainsOf(s, r, |s.chains|);
            && s'.chains == s.chains
            && forall j :: 0 <= j < |cs| ==> (ClearedByCallback(s, s', cs[j]) <==> j < n)
  {
    hide Order, E.Service, Completed, Cleared, ToClear, Done;
    var s' := AfterService(x, s, hw);
    var cs := ChainsOf(s, r, |s.chains|);
    SameChainsOf(s, s', r, |s.chains|);
    ServiceKeepsOrder(x, s, hw);
    CalledBackDoesNotWait(x, s', r);
    n := FirstFailure(CompletedOf(s', r));
    forall j | 0 <= j < |cs|
      ensures ClearedByCallback(s, s', cs[j]) <==> j < n
    {
      if j < n {
        forall c' | 0 <= c' < cs[j] && s.chains[c'].job == r
          ensures Completed(s', c')
        {
          ChainsOfAll(s, r, |s.chains|, c');
          var i :| 0 <= i < |cs| && cs[i] == c';
          if i > j {
            ChainsOfOrder(s, r, |s.chains|, j, i);
          }
          assert CompletedOf(s', r)[i];
        }
      } else {
        ChainsOfOrder(s, r, |s.chains|, n - 1, j);
        assert !CompletedOf(s', r)[n - 1];
        assert !Completed(s', cs[n - 1]);
      }
    }
  }

  lemma CalledBackDoesNotWait(x: Fixed, s: State, r: nat)
    requires Order(x, s) && r in s.engine.ioDone
    ensures !Waits(s, r)
  {
    var _ := LastTurn(x, s, r);
  }

  lemma {:induction false} SameChainsOf(s: State, s': State, r: nat, k: nat)
    requires s'.chains == s.chains && k <= |s.chains|
    ensures ChainsOf(s', r, k) == ChainsOf(s, r, k)
  {
    if k > 0 {
      SameChainsOf(s, s', r, k - 1);
    }
  }

  /** Chain c has ended, and not as completed. */
  predicate Failed(s: State, c: nat) { c < |s.chains| && c in Done(s) && !Completed(s, c) }

  predicate FailedFor(s: State, r: nat, c: nat) { Failed(s, c) && s.chains[c].job == r }

  /** A blocking loop has ended only if a chain failed, and from then on it at most waits to destroy that chain. */
  ghost predicate EndsOnFailure(s: State, r: nat) {
    Waits(s, r) ==>
      && (s.jobs[r].phase.Over? ==> exists c :: FailedFor(s, r, c))
      && forall c :: FailedFor(s, r, c) ==> s.jobs[r].phase == Waiting(c) || s.jobs[r].phase == Over
  }

  /** How a chain ended does not change. */
  lemma EndStays(x: Fixed, s: State, s': State, c: nat)
    requires Order(x, s) && Order(x, s') && c < |s.chains| && c in Done(s)
    requires |s.chains| <= |s'.chains| && s'.chains[..|s.chains|] == s.chains
    requires |s.handed| <= |s'.handed| && s'.handed[..|s.handed|] == s.handed
    requires |s.engine.finished| <= |s'.engine.finished|
    requires s'.engine.finished[..|s.engine.finished|] == s.engine.finished
    ensures Failed(s', c) <==> Failed(s, c)
  {
    hide ChainOk, WindowOk, ChainPhase, JobPhase, InOrder, E.Books, EpAt;
    BooksCount(s);
    BooksCount(s');
    var i :| 0 <= i < |Done(s)| && Done(s)[i] == c;
    assert s'.handed[i] == s'.handed[..|s.handed|][i];
    assert s'.engine.finished[i] == s'.engine.finished[..|s.engine.finished|][i];
    assert Done(s')[i] == c;
    assert EndedAs(s', i, c, E.COMPLETED) == EndedAs(s, i, c, E.COMPLETED);
    assert Completed(s, c) <==> EndedAs(s, i, c, E.COMPLETED);
    assert Completed(s', c) <==> EndedAs(s', i, c, E.COMPLETED);
  }

  /** What the other events do not finish is as failed as before. */
  lemma OthersFailNone(x: Fixed, s: State, e: Event, r: nat, c: nat)
    requires |s.ring| > 0 && Order(x, s) && !e.Service?
    ensures FailedFor(After(x, s, e), r, c) <==> FailedFor(s, r, c)
  {
    hide After, Completed, ChainOk, WindowOk, ChainPhase, JobPhase, InOrder, E.Books;
    var s' := After(x, s, e);
    EventKeepsOrder(x, s, e);
    OthersFinishNone(x, s, e);
    BooksCount(s);
    BooksCount(s');
    assert Done(s') == Done(s) by {
      assert s'.handed[..|s.handed|][..|s.engine.finished|] == s'.handed[..|s.engine.finished|];
    }
    if c in Done(s) {
      var i :| 0 <= i < |Done(s)| && Done(s)[i] == c;
      assert c < |s.chains|;
      assert s'.chains[c] == s'.chains[..|s.chains|][c];
      EndStays(x, s, s', c);
    }
  }

  lemma OthersEnd(x: Fixed, s: State, e: Event, r: nat)
    requires |s.ring| > 0 && Order(x, s) && !e.Service? && EndsOnFailure(s, r)
    ensures EndsOnFailure(After(x, s, e), r)
  {
    hide Order, FailedFor, Written, NextChain, E.Submit, Cleared, TransferOf, Completed, Done;
    var s' := After(x, s, e);
    forall c
      ensures FailedFor(s', r, c) <==> FailedFor(s, r, c)
    {
      OthersFailNone(x, s, e, r, c);
    }
    if r >= |s.jobs| {
      OthersFinishNone(x, s, e);
      forall c
        ensures !FailedFor(s, r, c)
      {
        NoChainYet(x, s, r, c);
      }
    } else if e.Init? && CanInit(s, e.job) {
      NextFits(x, s, e.job);
    } else if e.Destroy? && CanDestroy(s, e.job) && e.job == r {
      DestroyedFailed(x, s, r);
    }
  }

  lemma NoChainYet(x: Fixed, s: State, r: nat, c: nat)
    requires Order(x, s) && r >= |s.jobs|
    ensures !FailedFor(s, r, c)
  {
    hide WindowOk, ChainPhase, JobPhase, InOrder, QueueAgrees, Done, Completed, EpAt;
    assert c < |s.chains| ==> ChainOk(x, s, c);
  }

  lemma DestroyedFailed(x: Fixed, s: State, r: nat)
    requires Order(x, s) && CanDestroy(s, r)
    ensures FailedFor(s, r, s.jobs[r].phase.chain) <==> !Completed(s, s.jobs[r].phase.chain)
  {
    hide WindowOk, ChainPhase, ChainOk, InOrder, QueueAgrees, Done, Completed;
    assert JobPhase(s, r);
  }

  lemma ServiceEnds(x: Fixed, s: State, hw: E.Hardware, r: nat)
    requires |s.ring| > 0 && Order(x, s) && EndsOnFailure(s, r)
    ensures EndsOnFailure(AfterService(x, s, hw), r)
  {
    hide Order, Completed, E.Service, Cleared, ToClear, Done;
    var s' := AfterService(x, s, hw);
    ServiceKeepsOrder(x, s, hw);
    forall c | c in Done(s) && c < |s.chains|
      ensures FailedFor(s', r, c) <==> FailedFor(s, r, c)
    {
      EndStays(x, s, s', c);
    }
    if Waits(s, r) {
      forall c | FailedFor(s', r, c) && c !in Done(s)
        ensures s.jobs[r].phase == Waiting(c)
      {
        WaitsFor(x, s, s', c);
      }
    }
  }

  /** A blocking loop waits for what a service call finishes for it. */
  lemma WaitsFor(x: Fixed, s: State, s': State, c: nat)
    requires Order(x, s) && Order(x, s') && s'.handed == s.handed && c < |s.chains| && Waits(s, s.chains[c].job)
    requires c !in Done(s) && c in Done(s')
    ensures s.jobs[s.chains[c].job].phase == Waiting(c)
  {
    hide WindowOk, ChainOk, InOrder, Progress, E.Books;
    BooksCount(s');
    assert ChainPhase(s, c) && JobPhase(s, s.chains[c].job);
  }

  /**
   * In every run: once a chain of a blocking request has failed, its loop builds and queues nothing more, and ends when
   * it has destroyed that chain; and no blocking loop is broken off otherwise.
   */
  lemma FailureEndsLoop(x: Fixed, ring: seq<Desc>, p: nat, events: seq<Event>, r: nat, c: nat)
    requires |ring| > 0
    ensures var s := Run(x, ring, p, events);
            && (FailedFor(s, r, c) && Waits(s, r) ==>
                 && !CanInit(s, r) && !CanQueue(s, r)
                 && (CanDestroy(s, r) ==> After(x, s, Destroy(r)).jobs[r].phase == Over))
            && (Waits(s, r) && s.jobs[r].phase == Over ==> exists c' :: FailedFor(s, r, c'))
  {
    hide Run, FailedFor, Order, Cleared, TransferOf, Done, Completed;
    EndsAlways(x, ring, p, events, r);
    var s := Run(x, ring, p, events);
    OrderAlways(x, ring, p, events);
    if FailedFor(s, r, c) && Waits(s, r) && CanDestroy(s, r) {
      DestroyedFailed(x, s, r);
    }
  }

  lemma {:induction false} EndsAlways(x: Fixed, ring: seq<Desc>, p: nat, events: seq<Event>, r: nat)
    requires |ring| > 0
    ensures EndsOnFailure(Run(x, ring, p, events), r)
  {
    hide Order, EndsOnFailure, AfterInit, AfterQueue, AfterService, AfterDestroy;
    if |events| == 0 {
      assert EndsOnFailure(Fresh(ring, p), r) by {
        hide *;
        NoneAtFirst(ring, p, r);
      }
    } else {
      var n := |events| - 1;
      var s, e := Run(x, ring, p, events[..n]), events[n];
      OrderAlways(x, ring, p, events[..n]);
      EndsAlways(x, ring, p, events[..n], r);
      if e.Service? {
        ServiceEnds(x, s, e.hw, r);
      } else {
        OthersEnd(x, s, e, r);
      }
    }
  }

  lemma NoneAtFirst(ring: seq<Desc>, p: nat, r: nat)
    ensures EndsOnFailure(Fresh(ring, p), r)
  {
  }
}
