/**
 * Ring, queue and engine together, with any number of submit loops of both kinds. transfer_init, transfer_queue and
 * engine_service run under the engine lock, and their calls come in any order that the loops allow.
 */
module EngineRing {
  import opened PageMap
  import opened SwDesc
  import opened DescRing
  import opened Division
  import E = EngineService

  type Address = a: nat | a < U64

  /** What the loop of a request does next: build a transfer, queue it, or wait for it. */
  datatype Phase = Ready | Built(chain: nat) | Waiting(chain: nat) | Over

  /** A request in its submit loop; the blocking loop waits for each transfer. */
  datatype Job = Job(sdesc: seq<Span>, ep: Address, waits: bool, done: nat, phase: Phase)

  /** A transfer: the software descriptors it took, and where it lies, counted from the start of the ring. */
  datatype Chain = Chain(job: nat, from: nat, pos: nat, spans: seq<Span>, ep: nat, xfer: E.Xfer)

  /** The chains in the order in which they were built, and their numbers in the order in which they were queued. */
  datatype State = State(ring: seq<Desc>, pos: nat, jobs: seq<Job>, chains: seq<Chain>, handed: seq<nat>,
                         engine: E.State)

  datatype Event =
    | Submit(sdesc: seq<Span>, ep: Address, waits: bool)
    | Init(job: nat)
    | Queue(job: nat)
    | Service(hw: E.Hardware)
    | Destroy(job: nat)

  /** The fixed parts of an engine: the bus address of its ring, and its mode. */
  datatype Fixed = Fixed(base: nat, mode: Mode)

  // ---- Where a chain lies ----

  function IndexOf(s: State, c: Chain): (q: nat)
    requires |s.ring| > 0
    ensures q < |s.ring|
  {
    Slot(|s.ring|, c.pos)
  }

  function BusOf(x: Fixed, s: State, c: Chain): nat
    requires |s.ring| > 0
  {
    x.base + DESC_SIZE * IndexOf(s, c)
  }

  /** The transfer as the driver keeps it, and as engine_start hands it to the hardware. */
  function TransferOf(x: Fixed, s: State, c: Chain): Transfer
    requires |s.ring| > 0
  {
    var n := |c.spans|;
    Transfer(IndexOf(s, c), BusOf(x, s, c), n, n, Length32(c.spans, n), c.xfer.last)
  }

  // ---- What is finished ----

  /** The chains that the engine has finished; they finish in the order in which they were queued. */
  function Done(s: State): seq<nat> {
    if |s.engine.finished| <= |s.handed| then s.handed[..|s.engine.finished|] else s.handed
  }

  predicate Unfinished(s: State, c: nat) { c < |s.chains| && c !in Done(s) }

  predicate EndedAs(s: State, i: nat, c: nat, state: E.TransferState) {
    i < |s.handed| && i < |s.engine.finished| && s.handed[i] == c && s.engine.finished[i].state == state
  }

  predicate Completed(s: State, c: nat) { exists i :: 0 <= i < |Done(s)| && EndedAs(s, i, c, E.COMPLETED) }

  // ---- transfer_init ----

  /** The ring with a chain written over a window. */
  function Written(ring: seq<Desc>, start: nat, spans: seq<Span>, ep: nat, mode: Mode, bus: nat): (after: seq<Desc>)
    ensures |after| == |ring|
  {
    seq(|ring|, i requires 0 <= i < |ring| =>
      if start <= i < start + |spans| then ChainDesc(spans, ep, mode, bus, i - start) else ring[i])
  }

  /** That is what transfer_init does to the ring. */
  lemma AddsIsWritten(before: seq<Desc>, after: seq<Desc>, base: nat, mode: Mode, sdesc: seq<Span>, epNow: nat,
                      x: Transfer, done: nat)
    requires done <= |sdesc|
    ensures Adds(before, after, base, mode, sdesc, epNow, x, done) ==>
      after == Written(before, x.descIndex, sdesc[done..][..x.descNum], epNow, mode, x.descBus)
  {
    hide ChainDesc, WindowSize, Length32;
  }

  lemma WrittenHolds(ring: seq<Desc>, start: nat, spans: seq<Span>, ep: nat, mode: Mode, bus: nat)
    requires start + |spans| <= |ring|
    ensures HoldsChain(Written(ring, start, spans, ep, mode, bus), start, spans, ep, mode, bus)
    ensures OnlyWindow(ring, Written(ring, start, spans, ep, mode, bus), start, |spans|)
  {
    hide ChainDesc;
  }

  predicate CanInit(s: State, r: nat) {
    r < |s.jobs| && s.jobs[r].phase == Ready && s.jobs[r].done < |s.jobs[r].sdesc|
  }

  /** How many descriptors transfer_init takes for this request. */
  function NextSize(s: State, r: nat): nat
    requires |s.ring| > 0 && CanInit(s, r)
  {
    WindowSize(|s.ring|, Slot(|s.ring|, s.pos), |s.jobs[r].sdesc| - s.jobs[r].done)
  }

  /** The transfer of a nowait request calls back if it is the last one. */
  function NextChain(x: Fixed, s: State, r: nat): Chain
    requires |s.ring| > 0 && CanInit(s, r)
  {
    var job, n := s.jobs[r], NextSize(s, r);
    WindowFits(|s.ring|, Slot(|s.ring|, s.pos), |job.sdesc| - job.done);
    Chain(r, job.done, s.pos, job.sdesc[job.done..job.done + n], EpAt(job.sdesc, job.ep, x.mode, job.done),
          E.Xfer(r, n, !job.waits && job.done + n == |job.sdesc|))
  }

  function AfterInit(x: Fixed, s: State, c: Chain): State
    requires |s.ring| > 0 && c.job < |s.jobs|
  {
    var n := |c.spans|;
    s.(ring := Written(s.ring, IndexOf(s, c), c.spans, c.ep, x.mode, BusOf(x, s, c)), pos := s.pos + n,
       jobs := s.jobs[c.job := s.jobs[c.job].(done := s.jobs[c.job].done + n, phase := Built(|s.chains|))],
       chains := s.chains + [c])
  }

  // ---- transfer_queue ----

  predicate CanQueue(s: State, r: nat) {
    r < |s.jobs| && s.jobs[r].phase.Built? && s.jobs[r].phase.chain < |s.chains|
  }

  function AfterQueue(s: State, r: nat): State
    requires CanQueue(s, r)
  {
    var c := s.jobs[r].phase.chain;
    s.(jobs := s.jobs[r := s.jobs[r].(phase := if s.jobs[r].waits then Waiting(c) else Ready)],
       handed := s.handed + [c], engine := E.Submit(s.engine, s.chains[c].xfer))
  }

  // ---- engine_service, and the completion handler that it calls ----

  predicate Waits(s: State, r: nat) { r < |s.jobs| && s.jobs[r].waits }

  /** Chain c was cleared by a callback between s and s': those before it in its request had not failed. */
  predicate ClearedByCallback(s: State, s': State, c: nat) {
    c < |s.chains| &&
    var r := s.chains[c].job;
    && !Waits(s, r) && r !in s.engine.ioDone && r in s'.engine.ioDone
    && forall c' :: 0 <= c' < c && s.chains[c'].job == r ==> Completed(s', c')
  }

  /** The transfers among the first k that the callbacks clear. */
  function ToClear(x: Fixed, s: State, s': State, k: nat): seq<Transfer>
    requires |s.ring| > 0 && k <= |s.chains|
  {
    if k == 0 then []
    else
      var before := ToClear(x, s, s', k - 1);
      if ClearedByCallback(s, s', k - 1) then before + [TransferOf(x, s, s.chains[k - 1])] else before
  }

  function AfterService(x: Fixed, s: State, hw: E.Hardware): State
    requires |s.ring| > 0
  {
    var s' := s.(engine := E.Service(s.engine, hw));
    s'.(ring := Cleared(s.ring, ToClear(x, s, s', |s.chains|)))
  }

  // ---- transfer_destroy in the blocking loop ----

  /** The transfer is no longer submitted, so the loop has stopped waiting. */
  predicate CanDestroy(s: State, r: nat) {
    && r < |s.jobs| && s.jobs[r].phase.Waiting? && s.jobs[r].phase.chain < |s.chains|
    && s.jobs[r].phase.chain in Done(s)
  }

  /** A failed transfer ends the loop. */
  function AfterDestroy(x: Fixed, s: State, r: nat): State
    requires |s.ring| > 0 && CanDestroy(s, r)
  {
    var c := s.jobs[r].phase.chain;
    s.(ring := Cleared(s.ring, [TransferOf(x, s, s.chains[c])]),
       jobs := s.jobs[r := s.jobs[r].(phase := if Completed(s, c) then Ready else Over)])
  }

  // ---- Runs ----

  function After(x: Fixed, s: State, e: Event): (s': State)
    requires |s.ring| > 0
    ensures |s'.ring| == |s.ring|
  {
    match e
    case Submit(sdesc, ep, waits) => s.(jobs := s.jobs + [Job(sdesc, ep, waits, 0, Ready)])
    case Init(r) => if CanInit(s, r) then AfterInit(x, s, NextChain(x, s, r)) else s
    case Queue(r) => if CanQueue(s, r) then AfterQueue(s, r) else s
    case Service(hw) => AfterService(x, s, hw)
    case Destroy(r) => if CanDestroy(s, r) then AfterDestroy(x, s, r) else s
  }

  function Fresh(ring: seq<Desc>, p: nat): State { State(ring, p, [], [], [], E.Idle()) }

  function Run(x: Fixed, ring: seq<Desc>, p: nat, events: seq<Event>): (s: State)
    requires |ring| > 0
    ensures |s.ring| == |ring|
  {
    if |events| == 0 then Fresh(ring, p)
    else After(x, Run(x, ring, p, events[..|events| - 1]), events[|events| - 1])
  }

  // ---- The order that every event keeps ----

  /** How far the first i queued transfers have worked off request r. */
  function Progress(chains: seq<Chain>, handed: seq<nat>, r: nat, i: nat): nat
    requires i <= |handed|
  {
    if i == 0 then 0
    else if handed[i - 1] < |chains| && chains[handed[i - 1]].job == r
    then chains[handed[i - 1]].from + |chains[handed[i - 1]].spans|
    else Progress(chains, handed, r, i - 1)
  }

  predicate HandedOnce(s: State) {
    && (forall i :: 0 <= i < |s.handed| ==> s.handed[i] < |s.chains|)
    && forall i, j :: 0 <= i < j < |s.handed| ==> s.handed[i] != s.handed[j]
  }

  function XfersHanded(s: State): seq<E.Xfer>
    requires HandedOnce(s)
  {
    seq(|s.handed|, i requires 0 <= i < |s.handed| => s.chains[s.handed[i]].xfer)
  }

  /** What was queued is what is finished followed by what is still in the queue. */
  predicate QueueAgrees(s: State) { HandedOnce(s) && E.Books(s.engine, XfersHanded(s)) }

  /** A chain takes the software descriptors from its offset on, in a window of the ring. */
  predicate ChainOk(x: Fixed, s: State, c: nat)
    requires |s.ring| > 0 && c < |s.chains|
  {
    var ch := s.chains[c];
    var n := |ch.spans|;
    && ch.job < |s.jobs| && 0 < n
    && var job := s.jobs[ch.job];
       && ch.from + n <= job.done <= |job.sdesc| && ch.spans == job.sdesc[ch.from..ch.from + n]
       && ch.ep == EpAt(job.sdesc, job.ep, x.mode, ch.from)
       && ch.xfer == E.Xfer(ch.job, n, !job.waits && ch.from + n == |job.sdesc|)
  }

  /** The windows follow each other in the ring. */
  predicate WindowOk(s: State, c: nat)
    requires |s.ring| > 0 && c < |s.chains|
  {
    var ch := s.chains[c];
    && IndexOf(s, ch) + |ch.spans| <= |s.ring|
    && ch.pos + |ch.spans| <= if c == |s.chains| - 1 then s.pos else s.chains[c + 1].pos
  }

  /** A chain that its loop has not yet queued, or not yet destroyed, is the one that its loop is about. */
  predicate ChainPhase(s: State, c: nat)
    requires c < |s.chains|
  {
    var r := s.chains[c].job;
    r < |s.jobs| &&
    if s.jobs[r].waits then c in Done(s) || s.jobs[r].phase == Built(c) || s.jobs[r].phase == Waiting(c)
    else c in s.handed || s.jobs[r].phase == Built(c)
  }

  predicate JobPhase(s: State, r: nat)
    requires r < |s.jobs|
  {
    var job, progress := s.jobs[r], Progress(s.chains, s.handed, r, |s.handed|);
    && job.done <= |job.sdesc|
    && match job.phase
       case Built(c) =>
         && c < |s.chains| && s.chains[c].job == r && c !in s.handed
         && s.chains[c].from == progress && job.done == progress + |s.chains[c].spans|
       case Waiting(c) => c < |s.chains| && s.chains[c].job == r && job.waits && job.done == progress
       case Ready => job.done == progress
       case Over => job.done == progress
  }

  /** The transfers of a request are queued in its order. */
  predicate InOrder(s: State, i: nat)
    requires i < |s.handed|
  {
    s.handed[i] < |s.chains|
    && s.chains[s.handed[i]].from == Progress(s.chains, s.handed, s.chains[s.handed[i]].job, i)
  }

  predicate Order(x: Fixed, s: State) {
    && |s.ring| > 0 && QueueAgrees(s)
    && (forall c :: 0 <= c < |s.chains| ==> ChainOk(x, s, c))
    && (forall c :: 0 <= c < |s.chains| ==> WindowOk(s, c))
    && (forall c :: 0 <= c < |s.chains| ==> ChainPhase(s, c))
    && (forall r :: 0 <= r < |s.jobs| ==> JobPhase(s, r))
    && (forall i :: 0 <= i < |s.handed| ==> InOrder(s, i))
  }

  lemma FreshOrder(x: Fixed, ring: seq<Desc>, p: nat)
    requires |ring| > 0
    ensures Order(x, Fresh(ring, p))
  {
  }

  lemma {:induction false} ProgressSame(chains: seq<Chain>, chains': seq<Chain>, handed: seq<nat>, handed': seq<nat>,
                                        r: nat, i: nat)
    requires i <= |handed| <= |handed'| && |chains| <= |chains'|
    requires handed'[..|handed|] == handed && chains'[..|chains|] == chains
    requires forall k :: 0 <= k < |handed| ==> handed[k] < |chains|
    ensures Progress(chains', handed', r, i) == Progress(chains, handed, r, i)
  {
    if i > 0 {
      assert handed'[i - 1] == handed'[..|handed|][i - 1];
      assert chains'[handed[i - 1]] == chains'[..|chains|][handed[i - 1]];
      ProgressSame(chains, chains', handed, handed', r, i - 1);
    }
  }

  lemma SubmitKeepsOrder(x: Fixed, s: State, job: Job)
    requires Order(x, s) && job.done == 0 && job.phase == Ready
    ensures Order(x, s.(jobs := s.jobs + [job]))
  {
    hide E.Books, EpAt, Slot;
    var s' := s.(jobs := s.jobs + [job]);
    assert XfersHanded(s') == XfersHanded(s);
    forall c | 0 <= c < |s.chains|
      ensures ChainOk(x, s', c) && WindowOk(s', c) && ChainPhase(s', c)
    {
      assert ChainOk(x, s, c) && WindowOk(s, c) && ChainPhase(s, c);
    }
    forall i | 0 <= i < |s.handed|
      ensures InOrder(s', i)
    {
      assert InOrder(s, i);
    }
    NoProgress(x, s, |s.jobs|, |s.handed|);
    forall r | 0 <= r < |s'.jobs|
      ensures JobPhase(s', r)
    {
      assert r < |s.jobs| ==> JobPhase(s, r);
    }
  }

  lemma {:induction false} NoProgress(x: Fixed, s: State, r: nat, i: nat)
    requires Order(x, s) && r >= |s.jobs| && i <= |s.handed|
    ensures Progress(s.chains, s.handed, r, i) == 0
  {
    if i > 0 {
      assert ChainOk(x, s, s.handed[i - 1]);
      NoProgress(x, s, r, i - 1);
    }
  }

  lemma NextFits(x: Fixed, s: State, r: nat)
    requires |s.ring| > 0 && CanInit(s, r)
    ensures var c := NextChain(x, s, r);
            && c.pos == s.pos && 0 < |c.spans| == NextSize(s, r) && IndexOf(s, c) + |c.spans| <= |s.ring|
            && c.job == r && c.from == s.jobs[r].done && c.from + |c.spans| <= |s.jobs[r].sdesc|
            && c.spans == s.jobs[r].sdesc[c.from..c.from + |c.spans|]
            && c.ep == EpAt(s.jobs[r].sdesc, s.jobs[r].ep, x.mode, c.from)
            && c.xfer == E.Xfer(r, |c.spans|, !s.jobs[r].waits && c.from + |c.spans| == |s.jobs[r].sdesc|)
  {
    hide EpAt, WindowSize, Slot;
    WindowFits(|s.ring|, Slot(|s.ring|, s.pos), |s.jobs[r].sdesc| - s.jobs[r].done);
  }

  /** Chains of other requests do not see it. */
  lemma InitKeepsChain(x: Fixed, s: State, r: nat, c: nat)
    requires Order(x, s) && CanInit(s, r) && c < |s.chains|
    ensures var s' := AfterInit(x, s, NextChain(x, s, r));
            ChainOk(x, s', c) && WindowOk(s', c) && ChainPhase(s', c)
  {
    hide E.Books, EpAt, Slot, Written, Progress, WindowSize;
    NextFits(x, s, r);
    assert ChainOk(x, s, c) && WindowOk(s, c) && ChainPhase(s, c);
    assert JobPhase(s, r);
  }

  lemma InitAddsChain(x: Fixed, s: State, r: nat)
    requires Order(x, s) && CanInit(s, r)
    ensures var s' := AfterInit(x, s, NextChain(x, s, r));
            ChainOk(x, s', |s.chains|) && WindowOk(s', |s.chains|) && ChainPhase(s', |s.chains|)
  {
    hide E.Books, EpAt, Slot, Written, Progress, WindowSize;
    NextFits(x, s, r);
    assert JobPhase(s, r);
  }

  lemma InitKeepsOrder(x: Fixed, s: State, r: nat)
    requires Order(x, s) && CanInit(s, r)
    ensures Order(x, AfterInit(x, s, NextChain(x, s, r)))
  {
    hide E.Books, EpAt, Slot, Written, Progress, NextChain, ChainOk, WindowOk, ChainPhase;
    NextFits(x, s, r);
    var s' := AfterInit(x, s, NextChain(x, s, r));
    assert XfersHanded(s') == XfersHanded(s);
    forall c | 0 <= c < |s'.chains|
      ensures ChainOk(x, s', c) && WindowOk(s', c) && ChainPhase(s', c)
    {
      if c < |s.chains| {
        InitKeepsChain(x, s, r, c);
      } else {
        InitAddsChain(x, s, r);
      }
    }
    forall i | 0 <= i < |s.handed|
      ensures InOrder(s', i)
    {
      assert InOrder(s, i);
      ProgressSame(s.chains, s'.chains, s.handed, s'.handed, s.chains[s.handed[i]].job, i);
    }
    forall q | 0 <= q < |s.jobs|
      ensures JobPhase(s', q)
    {
      assert JobPhase(s, q);
      ProgressSame(s.chains, s'.chains, s.handed, s'.handed, q, |s.handed|);
    }
  }

  lemma BooksCount(s: State)
    requires QueueAgrees(s)
    ensures |s.handed| == |s.engine.finished| + |s.engine.queue| && Done(s) == s.handed[..|s.engine.finished|]
  {
    assert |XfersHanded(s)| == |s.engine.finished| + |s.engine.queue|;
  }

  lemma SubmitFinishesNone(s: E.State, x: E.Xfer)
    ensures E.Submit(s, x).finished == s.finished && E.Submit(s, x).ioDone == s.ioDone
  {
  }

  lemma QueueKeepsDone(x: Fixed, s: State, r: nat)
    requires Order(x, s) && CanQueue(s, r)
    ensures QueueAgrees(AfterQueue(s, r)) && Done(AfterQueue(s, r)) == Done(s)
  {
    hide E.Books, EpAt, Slot, Progress, ChainOk, WindowOk, ChainPhase, E.Submit;
    assert JobPhase(s, r);
    var s', c := AfterQueue(s, r), s.jobs[r].phase.chain;
    assert XfersHanded(s') == XfersHanded(s) + [s.chains[c].xfer];
    E.SubmitKeepsBooks(s.engine, XfersHanded(s), s.chains[c].xfer);
    SubmitFinishesNone(s.engine, s.chains[c].xfer);
    BooksCount(s);
    assert s'.handed[..|s.engine.finished|] == s.handed[..|s.engine.finished|];
    BooksCount(s');
  }

  lemma ProgressNext(chains: seq<Chain>, handed: seq<nat>, c: nat, r: nat)
    requires c < |chains| && forall k :: 0 <= k < |handed| ==> handed[k] < |chains|
    ensures Progress(chains, handed + [c], r, |handed| + 1)
         == if chains[c].job == r then chains[c].from + |chains[c].spans| else Progress(chains, handed, r, |handed|)
  {
    ProgressSame(chains, chains, handed, handed + [c], r, |handed|);
  }

  lemma QueueKeepsJob(x: Fixed, s: State, r: nat, q: nat)
    requires Order(x, s) && CanQueue(s, r) && q < |s.jobs|
    ensures JobPhase(AfterQueue(s, r), q)
  {
    hide E.Books, EpAt, Slot, Progress, ChainOk, WindowOk, ChainPhase, E.Submit;
    assert JobPhase(s, r) && JobPhase(s, q);
    ProgressNext(s.chains, s.handed, s.jobs[r].phase.chain, q);
  }

  lemma QueueKeepsChain(x: Fixed, s: State, r: nat, c: nat)
    requires Order(x, s) && CanQueue(s, r) && c < |s.chains|
    ensures var s' := AfterQueue(s, r);
            ChainOk(x, s', c) && WindowOk(s', c) && ChainPhase(s', c)
  {
    hide E.Books, EpAt, Slot, Progress, E.Submit, Done;
    QueueKeepsDone(x, s, r);
    assert ChainOk(x, s, c) && WindowOk(s, c) && ChainPhase(s, c);
    assert JobPhase(s, r);
  }

  lemma QueueKeepsOrder(x: Fixed, s: State, r: nat)
    requires Order(x, s) && CanQueue(s, r)
    ensures Order(x, AfterQueue(s, r))
  {
    hide E.Books, EpAt, Slot, Progress, ChainOk, WindowOk, ChainPhase, E.Submit;
    QueueKeepsDone(x, s, r);
    var s' := AfterQueue(s, r);
    forall c | 0 <= c < |s.chains|
      ensures ChainOk(x, s', c) && WindowOk(s', c) && ChainPhase(s', c)
    {
      QueueKeepsChain(x, s, r, c);
    }
    forall q | 0 <= q < |s.jobs|
      ensures JobPhase(s', q)
    {
      QueueKeepsJob(x, s, r, q);
    }
    forall i | 0 <= i < |s'.handed|
      ensures InOrder(s', i)
    {
      assert JobPhase(s, r) && (i < |s.handed| ==> InOrder(s, i));
      ProgressSame(s.chains, s.chains, s.handed, s'.handed, s.chains[s'.handed[i]].job, i);
    }
  }

  /** Only the ring, what is finished and the phase of a destroyed transfer change otherwise. */
  lemma ServiceKeepsOrder(x: Fixed, s: State, hw: E.Hardware)
    requires Order(x, s)
    ensures Order(x, AfterService(x, s, hw)) && E.Extends(s.engine, AfterService(x, s, hw).engine)
    ensures Done(s) <= Done(AfterService(x, s, hw))
  {
    hide E.Books, EpAt, Slot, Progress, E.Service, Cleared, ToClear, E.Extends;
    var s' := AfterService(x, s, hw);
    assert XfersHanded(s') == XfersHanded(s);
    E.ServiceKeepsBooks(s.engine, XfersHanded(s), hw);
    E.ServiceOnlyAdds(s.engine, hw);
    FinishedGrows(s.engine, s'.engine);
    BooksCount(s);
    BooksCount(s');
    assert Done(s) == Done(s')[..|s.engine.finished|];
    forall c | 0 <= c < |s.chains|
      ensures ChainOk(x, s', c) && WindowOk(s', c) && ChainPhase(s', c)
    {
      assert ChainOk(x, s, c) && WindowOk(s, c) && ChainPhase(s, c);
    }
    forall q | 0 <= q < |s.jobs|
      ensures JobPhase(s', q)
    {
      assert JobPhase(s, q);
    }
    forall i | 0 <= i < |s.handed|
      ensures InOrder(s', i)
    {
      assert InOrder(s, i);
    }
  }

  lemma FinishedGrows(s: E.State, s': E.State)
    requires E.Extends(s, s')
    ensures |s.finished| <= |s'.finished|
  {
  }

  lemma DestroyKeepsOrder(x: Fixed, s: State, r: nat)
    requires Order(x, s) && CanDestroy(s, r)
    ensures Order(x, AfterDestroy(x, s, r))
  {
    hide E.Books, EpAt, Slot, Progress, Cleared, TransferOf, Completed;
    var s' := AfterDestroy(x, s, r);
    assert XfersHanded(s') == XfersHanded(s);
    forall c | 0 <= c < |s.chains|
      ensures ChainOk(x, s', c) && WindowOk(s', c) && ChainPhase(s', c)
    {
      assert ChainOk(x, s, c) && WindowOk(s, c) && ChainPhase(s, c);
      assert JobPhase(s, r);
    }
    forall q | 0 <= q < |s.jobs|
      ensures JobPhase(s', q)
    {
      assert JobPhase(s, q);
    }
    forall i | 0 <= i < |s.handed|
      ensures InOrder(s', i)
    {
      assert InOrder(s, i);
    }
  }

  lemma EventKeepsOrder(x: Fixed, s: State, e: Event)
    requires Order(x, s)
    ensures Order(x, After(x, s, e))
  {
    hide Order, AfterInit, NextChain, AfterQueue, AfterService, AfterDestroy, CanInit, CanQueue, CanDestroy;
    match e
    case Submit(sdesc, ep, waits) => SubmitKeepsOrder(x, s, Job(sdesc, ep, waits, 0, Ready));
    case Init(r) =>
      if CanInit(s, r) {
        InitKeepsOrder(x, s, r);
      }
    case Queue(r) =>
      if CanQueue(s, r) {
        QueueKeepsOrder(x, s, r);
      }
    case Service(hw) => ServiceKeepsOrder(x, s, hw);
    case Destroy(r) =>
      if CanDestroy(s, r) {
        DestroyKeepsOrder(x, s, r);
      }
  }

  /** In every run the queue and the submit loops agree about what is built, queued and finished, and in which order. */
  lemma {:induction false} OrderAlways(x: Fixed, ring: seq<Desc>, p: nat, events: seq<Event>)
    requires |ring| > 0
    ensures Order(x, Run(x, ring, p, events))
  {
    hide Order, After;
    if |events| == 0 {
      FreshOrder(x, ring, p);
    } else {
      OrderAlways(x, ring, p, events[..|events| - 1]);
      EventKeepsOrder(x, Run(x, ring, p, events[..|events| - 1]), events[|events| - 1]);
    }
  }
}
