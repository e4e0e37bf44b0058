/**
 * Queueing, starting and servicing an engine in bench/pcie_linux_driver/libxdma.c; each call runs under the engine
 * lock.
 */
module EngineService {
  import opened PageMap
  import DescRing

  datatype TransferState = SUBMITTED | COMPLETED | FAILED

  /** What never changes in a transfer; last means the last one of a request that is to be called back. */
  datatype Xfer = Xfer(request: nat, descNum: nat, last: bool)

  /** A transfer that has left the queue, with its final state and desc_cmpl. */
  datatype Finished = Finished(xfer: Xfer, state: TransferState, descCmpl: nat)

  /** The engine as its users see it, with everything it has finished and every request it has called back. */
  datatype State = State(running: bool, descDequeued: nat, queue: seq<Xfer>, finished: seq<Finished>, ioDone: seq<nat>)

  /** What the hardware shows to one service call: two descriptor counts and the status. */
  datatype Hardware = Hardware(writeback: nat, register: nat, busy: bool, error: bool)

  function Idle(): State { State(false, 0, [], [], []) }

  // ---- The calls as functions ----

  /** engine_start */
  function Start(s: State): State {
    if s.running || |s.queue| == 0 then s else s.(running := true, descDequeued := 0)
  }

  /** transfer_queue */
  function Submit(s: State, x: Xfer): State {
    var s' := s.(queue := s.queue + [x]);
    if s.running then s' else Start(s')
  }

  /** The head leaves the queue in this state; the last transfer of a request calls back. */
  function Retire(s: State, state: TransferState, descCmpl: nat): State
    requires |s.queue| > 0
  {
    var x := s.queue[0];
    s.(queue := s.queue[1..], finished := s.finished + [Finished(x, state, descCmpl)],
       ioDone := if x.last then s.ioDone + [x.request] else s.ioDone)
  }

  function Dequeue(s: State, state: TransferState, descCmpl: nat): State
    requires |s.queue| > 0
  {
    Retire(s, state, descCmpl).(descDequeued := s.descDequeued + s.queue[0].descNum)
  }

  /** engine_service_transfer_list: all transfers but the last that the engine completed. */
  function ServiceList(s: State, completed: nat): (State, nat)
    decreases |s.queue|
  {
    if |s.queue| > 0 && completed > s.queue[0].descNum
    then ServiceList(Dequeue(s, COMPLETED, 0), completed - s.queue[0].descNum)
    else (s, completed)
  }

  /** engine_service_final_transfer: the transfer that the engine stopped on. */
  function ServiceFinal(s: State, completed: nat, error: bool): State {
    if |s.queue| == 0 then s
    else if error then Retire(s.(running := false), FAILED, 0)
    else if completed < s.queue[0].descNum then Dequeue(s, FAILED, completed)
    else Dequeue(s, COMPLETED, s.queue[0].descNum)
  }

  /** All the transfers that one service call finishes. */
  function Serve(s: State, completed: nat, error: bool): State {
    var listed := ServiceList(s, completed);
    ServiceFinal(listed.0, listed.1, error)
  }

  /** engine_service_resume */
  function Resume(s: State): State {
    if !s.running then Start(s)
    else if |s.queue| == 0 then s.(running := false)
    else s
  }

  function Count(hw: Hardware): nat { if hw.writeback != 0 then hw.writeback else hw.register }

  /** The engine is stopped before its transfers are looked at. */
  predicate StopsFirst(hw: Hardware) { !hw.busy || hw.writeback != 0 }

  /** The descriptors completed since the last service call, in 32-bit arithmetic. */
  function NewlyCompleted(s: State, hw: Hardware): nat { (Count(hw) - s.descDequeued) % U32 }

  /** engine_service */
  function Service(s: State, hw: Hardware): State {
    if !s.running then s
    else
      var stopped := if StopsFirst(hw) then s.(running := false) else s;
      if Count(hw) == 0 then stopped
      else Resume(Serve(stopped, NewlyCompleted(s, hw), hw.error))
  }

  // ---- The imperative form ----

  class Transfer {
    const xfer: Xfer
    var state: TransferState
    var descCmpl: nat

    constructor (xfer: Xfer)
      ensures this.xfer == xfer && descCmpl == 0
    {
      this.xfer, this.descCmpl := xfer, 0;
    }
  }

  function Xfers(ts: seq<Transfer>): seq<Xfer> { seq(|ts|, i requires 0 <= i < |ts| => ts[i].xfer) }

  ghost function Outcomes(ts: seq<Transfer>): seq<Finished>
    reads ts
  {
    seq(|ts|, i requires 0 <= i < |ts| reads ts => Finished(ts[i].xfer, ts[i].state, ts[i].descCmpl))
  }

  class Engine {
    var transferList: seq<Transfer>
    var running: bool
    var descDequeued: nat
    var ioDone: seq<nat>
    ghost var retired: seq<Transfer>

    /** No transfer is queued twice, or again after it was finished; what is queued is still submitted. */
    ghost predicate Valid()
      reads this, transferList
    {
      && (forall i, j :: 0 <= i < j < |transferList| ==> transferList[i] != transferList[j])
      && (forall t :: t in transferList ==> t !in retired && t.state == SUBMITTED && t.descCmpl == 0)
    }

    ghost function Abstract(): State
      reads this, retired
    {
      State(running, descDequeued, Xfers(transferList), Outcomes(retired), ioDone)
    }

    constructor ()
      ensures Valid() && Abstract() == Idle() && transferList == []
    {
      transferList, running, descDequeued, ioDone, retired := [], false, 0, [], [];
    }

    /** engine_start */
    method StartEngine()
      requires Valid()
      modifies `running, `descDequeued
      ensures Valid() && Abstract() == Start(old(Abstract()))
    {
      if !running && |transferList| > 0 {
        descDequeued := 0;
        running := true;
      }
    }

    /** transfer_queue */
    method TransferQueue(t: Transfer)
      requires Valid() && t !in transferList && t !in retired && t.descCmpl == 0
      modifies `transferList, `running, `descDequeued, t`state
      ensures Valid() && Abstract() == Submit(old(Abstract()), t.xfer)
      ensures transferList == old(transferList) + [t] && t.state == SUBMITTED
    {
      t.state := SUBMITTED;
      transferList := transferList + [t];
      if !running {
        StartEngine();
      }
    }

    /** list_del of the head and engine_transfer_completion. */
    method Complete(state: TransferState, descCmpl: nat)
      requires Valid() && |transferList| > 0
      modifies `transferList, `ioDone, `retired, transferList[0]
      ensures Valid() && Abstract() == Retire(old(Abstract()), state, descCmpl)
      ensures transferList == old(transferList)[1..] && retired == old(retired) + [old(transferList)[0]]
    {
      var t := transferList[0];
      t.state, t.descCmpl := state, descCmpl;
      transferList := transferList[1..];
      retired := retired + [t];
      if t.xfer.last {
        ioDone := ioDone + [t.xfer.request];
      }
    }

    /** engine_service_transfer_list */
    method ServiceTransferList(descCompleted: nat) returns (left: nat)
      requires Valid()
      modifies `transferList, `descDequeued, `ioDone, `retired, transferList
      ensures Valid() && (Abstract(), left) == ServiceList(old(Abstract()), descCompleted)
      ensures forall t :: t in transferList ==> t in old(transferList)
    {
      hide Retire;
      left := descCompleted;
      while |transferList| > 0 && left > transferList[0].xfer.descNum
        invariant Valid() && running == old(running)
        invariant ServiceList(Abstract(), left) == ServiceList(old(Abstract()), descCompleted)
        invariant forall t :: t in transferList ==> t in old(transferList)
        decreases |transferList|
      {
        var n := transferList[0].xfer.descNum;
        left := left - n;
        assert transferList[0] in transferList;
        Complete(COMPLETED, 0);
        descDequeued := descDequeued + n;
      }
    }

    /** engine_service_final_transfer */
    method ServiceFinalTransfer(descCompleted: nat, error: bool)
      requires Valid()
      modifies this, if |transferList| == 0 then {} else {transferList[0]}
      ensures Valid() && Abstract() == ServiceFinal(old(Abstract()), descCompleted, error)
    {
      hide Retire;
      if |transferList| == 0 {
        return;
      }
      var n := transferList[0].xfer.descNum;
      if error {
        running := false;
        Complete(FAILED, 0);
      } else if descCompleted < n {
        Complete(FAILED, descCompleted);
        descDequeued := descDequeued + n;
      } else {
        Complete(COMPLETED, n);
        descDequeued := descDequeued + n;
      }
    }

    /** engine_service_resume */
    method ServiceResume()
      requires Valid()
      modifies `running, `descDequeued
      ensures Valid() && Abstract() == Resume(old(Abstract()))
    {
      if !running {
        if |transferList| > 0 {
          StartEngine();
        }
      } else if |transferList| == 0 {
        running := false;
      }
    }

    /** engine_service */
    method ServiceEngine(hw: Hardware)
      requires Valid()
      modifies this, transferList
      ensures Valid() && Abstract() == Service(old(Abstract()), hw)
    {
      hide ServiceList, ServiceFinal, Resume;
      if !running {
        return;
      }
      if !hw.busy || hw.writeback != 0 {
        running := false;
      }
      var descCount := if hw.writeback != 0 then hw.writeback else hw.register;
      if descCount == 0 {
        return;
      }
      descCount := (descCount - descDequeued) % U32;
      var left := ServiceTransferList(descCount);
      assert |transferList| > 0 ==> transferList[0] in transferList;
      ServiceFinalTransfer(left, hw.error);
      ServiceResume();
    }
  }

  // ---- What one service call does to the queue ----

  function Total(queue: seq<Xfer>): nat {
    if |queue| == 0 then 0 else Total(queue[..|queue| - 1]) + queue[|queue| - 1].descNum
  }

  /** The shortest prefix of the queue with at least r descriptors, or the whole queue. */
  predicate ShortestPrefix(queue: seq<Xfer>, r: nat, k: nat) {
    && k <= |queue|
    && (Total(queue[..k]) >= r || k == |queue|)
    && forall j :: 0 <= j < k ==> Total(queue[..j]) < r
  }

  lemma {:induction false} TotalOfPrefix(x: Xfer, queue: seq<Xfer>)
    ensures Total([x] + queue) == x.descNum + Total(queue)
  {
    if |queue| == 0 {
      assert [x] + queue == [x] && [x][..0] == [];
    } else {
      var n := |queue| - 1;
      TotalOfPrefix(x, queue[..n]);
      assert ([x] + queue)[..n + 1] == [x] + queue[..n];
    }
  }

  /** How many transfers are finished when r descriptors are new. */
  function Served(queue: seq<Xfer>, r: nat): (k: nat)
    ensures k <= |queue|
  {
    if |queue| == 0 then 0
    else if r > queue[0].descNum then 1 + Served(queue[1..], r - queue[0].descNum)
    else 1
  }

  lemma {:induction false} ServedIsShortest(queue: seq<Xfer>, r: nat)
    requires r > 0
    ensures ShortestPrefix(queue, r, Served(queue, r))
  {
    if |queue| > 0 {
      var x, rest, k := queue[0], queue[1..], Served(queue, r);
      if r > x.descNum {
        ServedIsShortest(rest, r - x.descNum);
      }
      forall j | 0 < j <= k
        ensures Total(queue[..j]) == x.descNum + Total(rest[..j - 1])
      {
        TotalOfPrefix(x, rest[..j - 1]);
        assert queue[..j] == [x] + rest[..j - 1];
      }
    }
  }

  /** How transfer i of the finished prefix ends. */
  function Ending(queue: seq<Xfer>, r: nat, i: nat): Finished
    requires i < Served(queue, r)
  {
    var k := Served(queue, r);
    var before, total := Total(queue[..k - 1]), Total(queue[..k]);
    if i < k - 1 || r > total then Finished(queue[i], COMPLETED, 0)
    else if r == total then Finished(queue[i], COMPLETED, queue[i].descNum)
    else Finished(queue[i], FAILED, if r >= before then r - before else 0)
  }

  predicate Serves(s: State, s': State, r: nat) {
    var k := Served(s.queue, r);
    && s'.queue == s.queue[k..]
    && s'.descDequeued == s.descDequeued + Total(s.queue[..k])
    && s'.running == s.running
    && |s'.finished| == |s.finished| + k && s'.finished[..|s.finished|] == s.finished
    && forall i :: 0 <= i < k ==> s'.finished[|s.finished| + i] == Ending(s.queue, r, i)
  }

  lemma TotalShifts(queue: seq<Xfer>, j: nat)
    requires 0 < j <= |queue|
    ensures Total(queue[..j]) == queue[0].descNum + Total(queue[1..][..j - 1])
  {
    TotalOfPrefix(queue[0], queue[1..][..j - 1]);
    assert queue[..j] == [queue[0]] + queue[1..][..j - 1];
  }

  /** A transfer that the list loop finishes does not change how the others end. */
  lemma EndingShifts(queue: seq<Xfer>, r: nat, i: nat)
    requires |queue| > 0 && r > queue[0].descNum && i < Served(queue, r)
    ensures Served(queue, r) == 1 + Served(queue[1..], r - queue[0].descNum)
    ensures Ending(queue, r, i) ==
      if i == 0 then Finished(queue[0], COMPLETED, 0) else Ending(queue[1..], r - queue[0].descNum, i - 1)
  {
    var k := Served(queue, r);
    TotalShifts(queue, k);
    if k > 1 {
      TotalShifts(queue, k - 1);
    } else {
      assert queue[1..][..0] == [];
    }
  }

  lemma ServesOneMore(s: State, s': State, r: nat)
    requires |s.queue| > 0 && r > s.queue[0].descNum
    requires Serves(Dequeue(s, COMPLETED, 0), s', r - s.queue[0].descNum)
    ensures Serves(s, s', r)
  {
    hide Ending, Total;
    var s1, k := Dequeue(s, COMPLETED, 0), Served(s.queue, r);
    TotalShifts(s.queue, k);
    assert s.queue[1..][k - 1..] == s.queue[k..];
    assert s'.finished[..|s.finished|] == s'.finished[..|s1.finished|][..|s.finished|];
    forall i | 0 <= i < k
      ensures s'.finished[|s.finished| + i] == Ending(s.queue, r, i)
    {
      EndingShifts(s.queue, r, i);
      if i == 0 {
        assert s'.finished[|s.finished|] == s'.finished[..|s1.finished|][|s.finished|];
      } else {
        assert s'.finished[|s1.finished| + (i - 1)] == Ending(s1.queue, r - s.queue[0].descNum, i - 1);
      }
    }
  }

  /**
   * Without an error, a service call finishes exactly the shortest prefix of the queue that accounts for
   * the newly completed descriptors. All its transfers are COMPLETED but perhaps the last, which FAILED if
   * the engine stopped within it.
   */
  lemma {:induction false} ServeFinishesPrefix(s: State, r: nat)
    requires r > 0
    ensures ShortestPrefix(s.queue, r, Served(s.queue, r)) && Serves(s, Serve(s, r, false), r)
    decreases |s.queue|
  {
    ServedIsShortest(s.queue, r);
    if |s.queue| > 0 && r > s.queue[0].descNum {
      hide Serves, ShortestPrefix, Served;
      ServeFinishesPrefix(Dequeue(s, COMPLETED, 0), r - s.queue[0].descNum);
      ServesOneMore(s, Serve(s, r, false), r);
    } else {
      ServesAtMostOne(s, r);
    }
  }

  lemma ServesAtMostOne(s: State, r: nat)
    requires r > 0 && (|s.queue| == 0 || r <= s.queue[0].descNum)
    ensures Serves(s, Serve(s, r, false), r)
  {
    assert s.queue[..0] == [];
    if |s.queue| > 0 {
      var x := s.queue[0];
      assert s.queue[..1] == [x] && [x][..0] == [];
      assert Total([x]) == x.descNum;
    }
  }

  // ---- The whole call, from its inputs ----

  /** The call finishes k transfers when r descriptors are new: as few as cover them, but one if there is any. */
  predicate StopsAt(queue: seq<Xfer>, r: nat, k: nat) {
    && k <= |queue| && (|queue| > 0 ==> k > 0)
    && (k == |queue| || Total(queue[..k]) >= r)
    && forall j :: 0 < j < k ==> Total(queue[..j]) < r
  }

  /**
   * How transfer i of them ends. Those before the last are completed, and so is the last one if it is used up;
   * otherwise the engine stopped on it: a status error fails it without a count, and so does a stop half-way, with the
   * rest.
   */
  function EndOf(queue: seq<Xfer>, r: nat, error: bool, k: nat, i: nat): Finished
    requires i < k <= |queue|
  {
    var rest := r - Total(queue[..k - 1]);
    if i < k - 1 || r > Total(queue[..k]) then Finished(queue[i], COMPLETED, 0)
    else if error then Finished(queue[i], FAILED, 0)
    else if rest == queue[i].descNum then Finished(queue[i], COMPLETED, queue[i].descNum)
    else Finished(queue[i], FAILED, if rest < 0 then 0 else rest)
  }

  /** The state after k transfers, before the engine is started again; a status error is not counted and stops it. */
  predicate Ends(s: State, s': State, r: nat, error: bool, k: nat) {
    StopsAt(s.queue, r, k) &&
    var errs := error && k > 0 && r <= Total(s.queue[..k]);
    && s'.queue == s.queue[k..]
    && s'.finished == s.finished + seq(k, i requires 0 <= i < k => EndOf(s.queue, r, error, k, i))
    && s'.descDequeued == s.descDequeued + Total(s.queue[..if errs then k - 1 else k])
    && s'.running == (s.running && !errs)
    && s'.ioDone == s.ioDone + LastOf(s.queue[..k])
  }

  lemma {:induction false} LastOfAdds(xs: seq<Xfer>, ys: seq<Xfer>)
    ensures LastOf(xs + ys) == LastOf(xs) + LastOf(ys)
  {
    if |ys| == 0 {
      assert xs + ys == xs;
    } else {
      var n := |ys| - 1;
      assert (xs + ys)[..|xs| + n] == xs + ys[..n];
      LastOfAdds(xs, ys[..n]);
    }
  }

  lemma OneOf(x: Xfer)
    ensures Total([x]) == x.descNum && LastOf([x]) == if x.last then [x.request] else []
  {
    assert [x][..0] == [];
  }

  lemma EndsEmpty(s: State, r: nat, error: bool)
    requires |s.queue| == 0
    ensures Ends(s, s, r, error, 0)
  {
    assert s.queue[..0] == [] && s.queue[0..] == [];
  }

  /** The call ends with the transfer at the head. */
  lemma EndsHere(s: State, r: nat, error: bool)
    requires |s.queue| > 0 && r <= s.queue[0].descNum
    ensures Ends(s, ServiceFinal(s, r, error), r, error, 1)
  {
    var x, queue := s.queue[0], s.queue;
    assert queue[..1] == [x] && queue[..0] == [];
    OneOf(x);
  }

  /** Or a completed one goes before. */
  lemma EndsLater(s: State, s': State, r: nat, error: bool, k: nat)
    requires |s.queue| > 0 && r > s.queue[0].descNum
    requires Ends(Dequeue(s, COMPLETED, 0), s', r - s.queue[0].descNum, error, k)
    ensures Ends(s, s', r, error, k + 1)
  {
    hide Total, LastOf;
    var s1, x, queue := Dequeue(s, COMPLETED, 0), s.queue[0], s.queue;
    forall j | 0 < j <= k + 1
      ensures Total(queue[..j]) == x.descNum + Total(s1.queue[..j - 1])
    {
      TotalShifts(queue, j);
    }
    assert s1.queue[..0] == [];
    NoneInTotal();
    assert queue[..k + 1] == [x] + s1.queue[..k];
    LastOfAdds([x], s1.queue[..k]);
    OneOf(x);
    assert s1.queue[k..] == queue[k + 1..];
    var r1, k1 := r - x.descNum, k + 1;
    forall i | 0 <= i < k1
      ensures s'.finished[|s.finished| + i] == EndOf(queue, r, error, k1, i)
    {
      if i > 0 {
        assert s'.finished[|s1.finished| + (i - 1)] == EndOf(s1.queue, r1, error, k, i - 1);
      }
    }
  }

  lemma NoneInTotal()
    ensures Total([]) == 0
  {
  }

  lemma {:induction false} ServeEnds(s: State, r: nat, error: bool) returns (k: nat)
    ensures Ends(s, Serve(s, r, error), r, error, k)
    decreases |s.queue|
  {
    hide Ends, ServiceFinal;
    if |s.queue| == 0 {
      k := 0;
      EndsEmpty(s, r, error);
      FinalOfNothing(s, r, error);
    } else if r > s.queue[0].descNum {
      var k' := ServeEnds(Dequeue(s, COMPLETED, 0), r - s.queue[0].descNum, error);
      k := k' + 1;
      EndsLater(s, Serve(s, r, error), r, error, k');
    } else {
      k := 1;
      EndsHere(s, r, error);
    }
  }

  lemma FinalOfNothing(s: State, r: nat, error: bool)
    requires |s.queue| == 0
    ensures ServiceFinal(s, r, error) == s
  {
  }

  /**
   * A service call on a running engine whose count is not zero, from its inputs to the whole new state: the count is
   * the writeback if there is one, what is new is its difference to what was dequeued, modulo 2^32, and the engine is
   * started again, with nothing dequeued, unless it still runs or has no work left.
   */
  lemma ServiceFinishes(s: State, hw: Hardware) returns (r: nat, k: nat)
    requires s.running && (hw.writeback != 0 || hw.register != 0)
    ensures r == ((if hw.writeback != 0 then hw.writeback else hw.register) - s.descDequeued) % 0x1_0000_0000
    ensures StopsAt(s.queue, r, k)
    ensures var s' := Service(s, hw);
            var errs := hw.error && k > 0 && r <= Total(s.queue[..k]);
            var stopped := !hw.busy || hw.writeback != 0 || errs;
            && s'.queue == s.queue[k..] && s'.ioDone == s.ioDone + LastOf(s.queue[..k])
            && s'.finished == s.finished + seq(k, i requires 0 <= i < k => EndOf(s.queue, r, hw.error, k, i))
            && s'.running == (k < |s.queue|)
            && s'.descDequeued == if stopped && k < |s.queue| then 0
                                  else s.descDequeued + Total(s.queue[..if errs then k - 1 else k])
  {
    hide Serve, StopsAt, EndOf, Total, LastOf;
    var stopped := if StopsFirst(hw) then s.(running := false) else s;
    r := NewlyCompleted(s, hw);
    k := ServeEnds(stopped, r, hw.error);
    var s1 := Serve(stopped, r, hw.error);
    assert Ends(stopped, s1, r, hw.error, k);
    StopsWithin(s.queue, r, k);
  }

  lemma StopsWithin(queue: seq<Xfer>, r: nat, k: nat)
    requires StopsAt(queue, r, k)
    ensures k <= |queue|
  {
  }

  /** Without a count, or on an engine that does not run, nothing is finished. */
  lemma ServiceFinishesNone(s: State, hw: Hardware)
    requires !s.running || (hw.writeback == 0 && hw.register == 0)
    ensures Service(s, hw) == s.(running := s.running && hw.busy)
  {
  }

  /** A status error fails the transfer that the engine stopped on, and no other one. */
  lemma ErrorFailsOne(s: State, hw: Hardware) returns (k: nat)
    requires s.running && hw.error && (hw.writeback != 0 || hw.register != 0) && |s.queue| > 0
    requires ((if hw.writeback != 0 then hw.writeback else hw.register) - s.descDequeued) % 0x1_0000_0000
             <= Total(s.queue)
    ensures 0 < k <= |s.queue|
    ensures var n, s' := |s.finished|, Service(s, hw);
            && |s'.finished| == n + k && s'.finished[..n] == s.finished
            && (forall i :: 0 <= i < k - 1 ==> s'.finished[n + i] == Finished(s.queue[i], COMPLETED, 0))
            && s'.finished[n + k - 1] == Finished(s.queue[k - 1], FAILED, 0)
            && s'.running == (k < |s.queue|)
            && (k == |s.queue| ==> s'.descDequeued == s.descDequeued + Total(s.queue[..k - 1]))
  {
    hide Service, Total, LastOf;
    var r: nat;
    r, k := ServiceFinishes(s, hw);
    assert s.queue[..|s.queue|] == s.queue;
  }

  // ---- Any interleaving of transfer_queue and engine_service ----

  datatype Event = Queued(xfer: Xfer) | Serviced(hw: Hardware)

  function After(s: State, e: Event): State {
    match e
    case Queued(x) => Submit(s, x)
    case Serviced(hw) => Service(s, hw)
  }

  function Run(events: seq<Event>): State {
    if |events| == 0 then Idle() else After(Run(events[..|events| - 1]), events[|events| - 1])
  }

  /** The transfers handed in, in order. */
  function Submitted(events: seq<Event>): seq<Xfer> {
    if |events| == 0 then []
    else
      var before := Submitted(events[..|events| - 1]);
      match events[|events| - 1]
      case Queued(x) => before + [x]
      case Serviced(_) => before
  }

  function XfersOf(finished: seq<Finished>): seq<Xfer> {
    seq(|finished|, i requires 0 <= i < |finished| => finished[i].xfer)
  }

  /** The requests whose last transfer is in the list, in order. */
  function LastOf(xs: seq<Xfer>): seq<nat> {
    if |xs| == 0 then []
    else
      var before := LastOf(xs[..|xs| - 1]);
      if xs[|xs| - 1].last then before + [xs[|xs| - 1].request] else before
  }

  /**
   * Nothing is lost, repeated or overtaken, nothing finished is still SUBMITTED, and exactly the finished last
   * transfers have called back.
   */
  predicate Books(s: State, submitted: seq<Xfer>) {
    && submitted == XfersOf(s.finished) + s.queue
    && s.ioDone == LastOf(XfersOf(s.finished))
    && forall i :: 0 <= i < |s.finished| ==> s.finished[i].state != SUBMITTED
  }

  /** This holds at every callback, for it holds after every single transfer. */
  lemma RetireKeepsBooks(s: State, submitted: seq<Xfer>, state: TransferState, descCmpl: nat)
    requires Books(s, submitted) && |s.queue| > 0 && state != SUBMITTED
    ensures Books(Retire(s, state, descCmpl), submitted)
  {
    var x, s' := s.queue[0], Retire(s, state, descCmpl);
    assert XfersOf(s'.finished) == XfersOf(s.finished) + [x];
    assert s.queue == [x] + s'.queue;
    assert XfersOf(s'.finished)[..|s.finished|] == XfersOf(s.finished);
  }

  lemma {:induction false} ListKeepsBooks(s: State, submitted: seq<Xfer>, completed: nat)
    requires Books(s, submitted)
    ensures Books(ServiceList(s, completed).0, submitted) && ServiceList(s, completed).0.running == s.running
    decreases |s.queue|
  {
    if |s.queue| > 0 && completed > s.queue[0].descNum {
      RetireKeepsBooks(s, submitted, COMPLETED, 0);
      ListKeepsBooks(Dequeue(s, COMPLETED, 0), submitted, completed - s.queue[0].descNum);
    }
  }

  lemma ServiceKeepsBooks(s: State, submitted: seq<Xfer>, hw: Hardware)
    requires Books(s, submitted)
    ensures Books(Service(s, hw), submitted)
  {
    hide ServiceList, XfersOf, LastOf, Retire;
    var stopped := if StopsFirst(hw) then s.(running := false) else s;
    var r := NewlyCompleted(s, hw);
    ListKeepsBooks(stopped, submitted, r);
    var listed := ServiceList(stopped, r);
    if |listed.0.queue| > 0 {
      RetireKeepsBooks(listed.0.(running := false), submitted, FAILED, 0);
      RetireKeepsBooks(listed.0, submitted, FAILED, listed.1);
      RetireKeepsBooks(listed.0, submitted, COMPLETED, listed.0.queue[0].descNum);
    }
  }

  /** The finished transfers and the callbacks of s are the first ones of s'. */
  predicate Extends(s: State, s': State) {
    && |s.finished| <= |s'.finished| && s'.finished[..|s.finished|] == s.finished
    && |s.ioDone| <= |s'.ioDone| && s'.ioDone[..|s.ioDone|] == s.ioDone
  }

  lemma ExtendsOn(s: State, s': State, s'': State)
    requires Extends(s, s') && Extends(s', s'')
    ensures Extends(s, s'')
  {
    assert s''.finished[..|s'.finished|][..|s.finished|] == s''.finished[..|s.finished|];
    assert s''.ioDone[..|s'.ioDone|][..|s.ioDone|] == s''.ioDone[..|s.ioDone|];
  }

  lemma {:induction false} ListOnlyAdds(s: State, completed: nat)
    ensures Extends(s, ServiceList(s, completed).0)
    decreases |s.queue|
  {
    if |s.queue| > 0 && completed > s.queue[0].descNum {
      var s' := Dequeue(s, COMPLETED, 0);
      ListOnlyAdds(s', completed - s.queue[0].descNum);
      ExtendsOn(s, s', ServiceList(s, completed).0);
    }
  }

  lemma FinalOnlyAdds(s: State, completed: nat, error: bool)
    ensures Extends(s, ServiceFinal(s, completed, error))
    ensures |ServiceFinal(s, completed, error).finished| <= |s.finished| + 1
  {
  }

  /** What is finished stays finished. */
  lemma ServiceOnlyAdds(s: State, hw: Hardware)
    ensures Extends(s, Service(s, hw))
  {
    hide ServiceList, ServiceFinal, Extends;
    var stopped := if StopsFirst(hw) then s.(running := false) else s;
    var r := NewlyCompleted(s, hw);
    var listed := ServiceList(stopped, r);
    ListOnlyAdds(stopped, r);
    FinalOnlyAdds(listed.0, listed.1, hw.error);
    ExtendsOn(stopped, listed.0, Serve(stopped, r, hw.error));
    ExtendsItself(s, stopped);
    ExtendsItself(Serve(stopped, r, hw.error), Resume(Serve(stopped, r, hw.error)));
    ExtendsOn(s, stopped, Serve(stopped, r, hw.error));
    ExtendsOn(s, Serve(stopped, r, hw.error), Resume(Serve(stopped, r, hw.error)));
  }

  lemma ExtendsItself(s: State, s': State)
    requires s'.finished == s.finished && s'.ioDone == s.ioDone
    ensures Extends(s, s')
  {
  }

  /** If the hardware counts only the descriptors of the transfer it was started on, no other one is finished. */
  lemma OnlyHeadFinishes(s: State, hw: Hardware)
    requires |s.queue| > 0 ==> NewlyCompleted(s, hw) <= s.queue[0].descNum
    ensures |Service(s, hw).finished| <= |s.finished| + 1
  {
    hide ServiceFinal;
    var stopped := if StopsFirst(hw) then s.(running := false) else s;
    FinalOnlyAdds(stopped, NewlyCompleted(s, hw), hw.error);
  }

  /** In every run, the transfers finish in the order in which they were handed in. */
  lemma {:induction false} FirstInFirstOut(events: seq<Event>)
    ensures Books(Run(events), Submitted(events))
  {
    hide Service, Books;
    if |events| == 0 {
      IdleBooks();
    } else {
      var before := events[..|events| - 1];
      FirstInFirstOut(before);
      match events[|events| - 1]
      case Queued(x) => SubmitKeepsBooks(Run(before), Submitted(before), x);
      case Serviced(hw) => ServiceKeepsBooks(Run(before), Submitted(before), hw);
    }
  }

  lemma IdleBooks()
    ensures Books(Idle(), [])
  {
  }

  lemma SubmitKeepsBooks(s: State, submitted: seq<Xfer>, x: Xfer)
    requires Books(s, submitted)
    ensures Books(Submit(s, x), submitted + [x])
  {
  }

  // ---- What the submit loops hand in ----

  /** The transfers of one request, as its submit loop builds and marks them. */
  function Handed(request: nat, tfer: seq<DescRing.Transfer>): seq<Xfer> {
    seq(|tfer|, k requires 0 <= k < |tfer| => Xfer(request, tfer[k].descNum, tfer[k].lastInRequest))
  }

  /** The transfers of one request among all that were handed in. */
  function Of(xs: seq<Xfer>, request: nat): seq<Xfer> {
    if |xs| == 0 then []
    else
      var before := Of(xs[..|xs| - 1], request);
      if xs[|xs| - 1].request == request then before + [xs[|xs| - 1]] else before
  }

  /** Any interleaving of submit loops, each of which may still be under way. */
  ghost predicate FromSubmitLoops(submitted: seq<Xfer>, loops: nat -> seq<DescRing.Transfer>) {
    forall r: nat :: DescRing.Marked(loops(r), 0) && Of(submitted, r) <= Handed(r, loops(r))
  }

  /** The rank of transfer i within its request. */
  lemma {:induction false} RankInRequest(xs: seq<Xfer>, i: nat, n: nat)
    requires i < n <= |xs|
    ensures var r := xs[i].request;
            |Of(xs[..i], r)| < |Of(xs[..n], r)| && Of(xs[..n], r)[|Of(xs[..i], r)|] == xs[i]
  {
    assert xs[..n][..n - 1] == xs[..n - 1];
    if i < n - 1 {
      RankInRequest(xs, i, n - 1);
    }
  }

  predicate LastComesLast(submitted: seq<Xfer>) {
    forall i, j :: 0 <= i < j < |submitted| && submitted[i].last ==> submitted[j].request != submitted[i].request
  }

  /** No transfer of a request is handed in after its last one. */
  lemma SubmitLoopsMarkTheLast(submitted: seq<Xfer>, loops: nat -> seq<DescRing.Transfer>)
    requires FromSubmitLoops(submitted, loops)
    ensures LastComesLast(submitted)
  {
    hide Of;
    forall i, j | 0 <= i < j < |submitted| && submitted[i].last
      ensures submitted[j].request != submitted[i].request
    {
      var r := submitted[i].request;
      assert Of(submitted, r) <= Handed(r, loops(r));
      assert submitted[..|submitted|] == submitted;
      RankInRequest(submitted, i, |submitted|);
      if submitted[j].request == r {
        RankInRequest(submitted, i, j);
        RankInRequest(submitted, j, |submitted|);
      }
    }
  }

  lemma {:induction false} LastOfNames(xs: seq<Xfer>, request: nat) returns (i: nat)
    requires request in LastOf(xs)
    ensures i < |xs| && xs[i].last && xs[i].request == request
  {
    var n := |xs| - 1;
    if xs[n].last && xs[n].request == request {
      i := n;
    } else {
      i := LastOfNames(xs[..n], request);
    }
  }

  /** Once a request has called back, none of its transfers is queued any more: all of them are finished. */
  lemma CallbackMeansFinished(events: seq<Event>, loops: nat -> seq<DescRing.Transfer>, request: nat)
    requires FromSubmitLoops(Submitted(events), loops) && request in Run(events).ioDone
    ensures forall x :: x in Run(events).queue ==> x.request != request
    ensures forall x :: x in Submitted(events) && x.request == request ==> x in XfersOf(Run(events).finished)
  {
    hide Run, Submitted, LastOf, FromSubmitLoops;
    FirstInFirstOut(events);
    var s, submitted := Run(events), Submitted(events);
    SubmitLoopsMarkTheLast(submitted, loops);
    var done := XfersOf(s.finished);
    var i := LastOfNames(done, request);
    forall k | 0 <= k < |s.queue|
      ensures s.queue[k].request != request
    {
      assert submitted[i] == done[i] && submitted[|done| + k] == s.queue[k];
    }
  }

  // ---- The engine runs as long as there is work ----

  predicate RunsIffQueued(s: State) { s.running <==> |s.queue| > 0 }

  lemma SubmitStarts(s: State, x: Xfer)
    ensures Submit(s, x).running && |Submit(s, x).queue| > 0
  {
  }

  /**
   * A service call keeps the engine running exactly as long as there is work, but for one case: it
   * stopped an idle engine and then read a count of zero.
   */
  lemma ServiceRunsIffQueued(s: State, hw: Hardware)
    requires RunsIffQueued(s)
    ensures RunsIffQueued(Service(s, hw)) <==> !(s.running && StopsFirst(hw) && Count(hw) == 0)
  {
    hide Serve;
  }

  /** Event k is a service call that stops the engine and then finds nothing completed. */
  predicate Strands(events: seq<Event>, k: nat)
    requires k < |events|
  {
    && events[k].Serviced? && Run(events[..k]).running
    && StopsFirst(events[k].hw) && Count(events[k].hw) == 0
  }

  /** Some service call stranded the queue, and nothing was handed in since. */
  predicate Stranded(events: seq<Event>) {
    exists k :: 0 <= k < |events| && Strands(events, k) && forall j :: k < j < |events| ==> events[j].Serviced?
  }

  lemma StrandedStep(events: seq<Event>, e: Event)
    ensures Stranded(events + [e]) <==> e.Serviced? && (Stranded(events) || Strands(events + [e], |events|))
  {
    hide Run, StopsFirst, Count;
    var all, n := events + [e], |events|;
    assert forall k {:trigger Strands(events, k)} :: 0 <= k < n ==> all[..k] == events[..k];
    assert forall k :: 0 <= k < n ==> Strands(all, k) == Strands(events, k);
    assert all[n] == e;
    if Stranded(events) && e.Serviced? {
      var k :| 0 <= k < n && Strands(events, k) && forall j :: k < j < n ==> events[j].Serviced?;
      assert Strands(all, k);
    }
    if Stranded(all) {
      var k :| 0 <= k < |all| && Strands(all, k) && forall j :: k < j < |all| ==> all[j].Serviced?;
      if k < n {
        assert Strands(events, k) && all[n].Serviced?;
        forall j | k < j < n
          ensures events[j].Serviced?
        {
          assert all[j].Serviced?;
        }
      }
    }
  }

  lemma ServiceKeepsStopped(s: State, hw: Hardware)
    requires s.running ==> |s.queue| > 0
    ensures Service(s, hw).running ==> |Service(s, hw).queue| > 0
    ensures !s.running ==> Service(s, hw) == s
  {
    hide Serve;
  }

  /**
   * Over any interleaving, the engine runs if and only if its queue is not empty, but for one case: some
   * service call stopped it and read a count of zero, and nothing has been handed in since.
   */
  lemma {:induction false} EngineRunsIffQueued(events: seq<Event>)
    ensures Run(events).running ==> |Run(events).queue| > 0
    ensures RunsIffQueued(Run(events)) <==> !Stranded(events)
  {
    hide Service, Submit, Count, StopsFirst, Stranded;
    if |events| == 0 {
      NeverStranded(events);
    } else {
      var before, e := events[..|events| - 1], events[|events| - 1];
      EngineRunsIffQueued(before);
      assert events == before + [e];
      StrandedStep(before, e);
      match e
      case Queued(x) => SubmitStarts(Run(before), x);
      case Serviced(hw) =>
        ServiceKeepsStopped(Run(before), hw);
        if RunsIffQueued(Run(before)) {
          ServiceRunsIffQueued(Run(before), hw);
        }
    }
  }

  lemma NeverStranded(events: seq<Event>)
    requires |events| == 0
    ensures !Stranded(events) && Run(events) == Idle()
  {
  }

  /** An interrupt without a completed descriptor on an idle bus strands the queue until the next submission. */
  lemma StrandedQueue(x: Xfer)
    ensures var s := Run([Queued(x), Serviced(Hardware(0, 0, false, false))]);
            !s.running && s.queue == [x]
  {
    var e1, e2 := Queued(x), Serviced(Hardware(0, 0, false, false));
    assert [e1, e2][..1] == [e1] && [e1][..0] == [];
    assert Run([e1]) == Submit(Idle(), x);
  }
}
