/** Write bursts of the burst slave: where each beat goes, and how bursts are answered. */
module AxiFullBursts {
  import opened Words
  import opened AxiBurst
  import opened RegisterMap
  import opened AxiFull
  import opened AxiFullWrite
  import Core = Sha256Core

  /** A write beat as the register file sees it. */
  datatype Beat = Beat(addr: Octet, dat: Word)

  /** The write beats accepted during a run. */
  function Accepted(f: Regs, ins: seq<Input>): seq<Beat>
    requires f.Valid()
  {
    if |ins| == 0 then []
    else
      var g, i := Steps(f, ins[..|ins| - 1]), ins[|ins| - 1];
      var before := Accepted(f, ins[..|ins| - 1]);
      if WriteEnable(g, i) then before + [Beat(g.w.cur.addr, i.wdata)] else before
  }

  /** What the protocol asks of the master: it marks the last beat of the burst, and no other. */
  predicate MarksLast(f: Regs, ins: seq<Input>, len: Octet)
    requires f.Valid()
  {
    forall k :: 0 <= k < |ins| && |Accepted(f, ins[..k])| <= len.bits as int ==>
      (ins[k].wlast <==> ins[k].wvalid && |Accepted(f, ins[..k])| == len.bits as int)
  }

  /** The slave takes over the write address in this cycle. */
  predicate AcceptsWrite(f: Regs, i: Input) {
    i.resetN && !f.w.awready && i.awvalid && !f.w.awFlag && !f.r.arFlag
  }

  /** The burst that cursor c opens waits for beat n. */
  predicate BurstAt(f: Regs, c: Cursor, n: nat) {
    f.w.awFlag && f.w.cur == CursorAt(c, n)
  }

  lemma BurstOpens(f: Regs, i: Input)
    requires f.Valid() && AcceptsWrite(f, i)
    ensures BurstAt(Next(f, i), Start(i.awaddr, i.awburst, i.awlen), 0)
  {
    hide ReadNext, StatusNext, DataOutNext, Core.Next, CoreInput, HashBusy, DataWindow;
  }

  lemma BurstStep(f: Regs, i: Input, c: Cursor, n: nat)
    requires f.Valid() && WriteInv(f) && i.resetN && BurstAt(f, c, n)
    requires i.wlast <==> i.wvalid && n == c.len.bits as int
    ensures !WriteEnable(f, i) ==> BurstAt(Next(f, i), c, n)
    ensures WriteEnable(f, i) && n < c.len.bits as int ==> BurstAt(Next(f, i), c, n + 1)
    ensures WriteEnable(f, i) && n == c.len.bits as int ==>
      !Next(f, i).w.awFlag && !Next(f, i).w.wready && Next(f, i).w.bvalid == (!f.w.bvalid || !i.bready)
  {
    hide ReadNext, StatusNext, DataOutNext, Core.Next, CoreInput, HashBusy, DataWindow, Advance;
  }

  lemma MarksLastPrefix(f: Regs, ins: seq<Input>, len: Octet)
    requires f.Valid() && |ins| > 0 && MarksLast(f, ins, len) && NoBusReset(ins)
    ensures MarksLast(f, ins[..|ins| - 1], len) && NoBusReset(ins[..|ins| - 1])
  {
    hide Accepted;
    var before := ins[..|ins| - 1];
    assert forall k :: 0 <= k < |before| ==> before[..k] == ins[..k];
  }

  /**
   * Beat k of a write burst goes to the k-th burst address, for any stalls, and the burst stays open
   * until the beat that AWLEN announces.
   */
  lemma {:induction false} BurstBeats(f: Regs, ins: seq<Input>, c: Cursor)
    requires f.Valid() && WriteInv(f) && BurstAt(f, c, 0) && c.cntr == Octet(0)
    requires NoBusReset(ins) && MarksLast(f, ins, c.len)
    ensures WriteInv(Steps(f, ins))
    ensures |Accepted(f, ins)| <= c.len.bits as int ==> BurstAt(Steps(f, ins), c, |Accepted(f, ins)|)
    ensures forall k :: 0 <= k < |Accepted(f, ins)| && k <= c.len.bits as int ==>
      Accepted(f, ins)[k].addr == Octet(BeatAddr(c.addr.bits, c.burst, c.len.bits, k))
    ensures |ins| > 0 && |Accepted(f, ins[..|ins| - 1])| == c.len.bits as int < |Accepted(f, ins)| ==>
      !Steps(f, ins).w.awFlag && !Steps(f, ins).w.wready
  {
    hide Next, WriteInv, BurstAt, WriteEnable, BeatAddr;
    if |ins| > 0 {
      var before, i := ins[..|ins| - 1], ins[|ins| - 1];
      var g, n := Steps(f, before), |Accepted(f, before)|;
      MarksLastPrefix(f, ins, c.len);
      BurstBeats(f, before, c);
      WriteInvStep(g, i);
      if n <= c.len.bits as int {
        BurstStep(g, i, c, n);
        AddressOf(g, c, n);
      }
    }
  }

  lemma AddressOf(g: Regs, c: Cursor, n: nat)
    requires BurstAt(g, c, n) && c.cntr == Octet(0) && n <= c.len.bits as int
    ensures g.w.cur.addr == Octet(BeatAddr(c.addr.bits, c.burst, c.len.bits, n))
  {
    hide NextAddr;
    CursorAtBeat(c, n);
  }

  // ---- Bursts into the data window ----

  /** All beats that AWLEN announces have addresses from 0x40 to 0x7f. */
  ghost predicate StaysInData(c: Cursor) {
    && c.cntr == Octet(0)
    && forall k: nat :: k <= c.len.bits as int ==> DataWindow(Octet(BeatAddr(c.addr.bits, c.burst, c.len.bits, k)))
  }

  /** Sixteen beats that do: any address of the window for FIXED and WRAP, its first word for INCR. */
  predicate CarriesBlock(c: Cursor) {
    && c.cntr == Octet(0) && c.len == Octet(15)
    && match c.burst
       case FIXED => DataWindow(c.addr)
       case INCR => c.addr.bits & 0xFC == 0x40
       case WRAP => DataWindow(c.addr)
       case RESERVED => false
  }

  lemma StaysInWindow(addr: Octet, burst: BurstType)
    requires DataWindow(addr) && burst in {FIXED, WRAP}
    ensures DataWindow(Octet(NextAddr(addr.bits, burst, 15)))
  {
  }

  function WordOfAddr(addr: Addr): Addr { addr & 0xFC }

  /** The word of beat k of an incrementing burst. */
  function IncrWord(start: Addr, k: bv8): Addr { WordOfAddr(start) + 4 * k }

  lemma IncrStep(addr: Addr, start: Addr, k: bv8)
    ensures IncrWord(start, 0) == WordOfAddr(start)
    ensures WordOfAddr(addr) == IncrWord(start, k) ==> WordOfAddr(NextAddr(addr, INCR, 15)) == IncrWord(start, k + 1)
  {
  }

  /** The words of an incrementing burst follow each other, wherever it starts. */
  lemma {:induction false} IncrWords(start: Addr, k: nat)
    ensures WordOfAddr(BeatAddr(start, INCR, 15, k)) == IncrWord(start, BeatIndex(k))
  {
    hide NextAddr, WordOfAddr, IncrWord;
    if k == 0 {
      IncrStep(start, start, 0);
    } else {
      IncrWords(start, k - 1);
      IncrStep(BeatAddr(start, INCR, 15, k - 1), start, BeatIndex(k - 1));
    }
  }

  lemma WindowByWord(addr: Addr)
    ensures DataWindow(Octet(addr)) <==> 0x40 <= WordOfAddr(addr) < 0x80
  {
  }

  lemma IncrStaysInWindow(start: Addr, k: bv8)
    requires start & 0xFC == 0x40 && k <= 15
    ensures 0x40 <= IncrWord(start, k) < 0x80
  {
  }

  lemma IncrLeavesWindow(start: Addr)
    requires start & 0xFC != 0x40
    ensures !(0x40 <= WordOfAddr(start) < 0x80) || !(0x40 <= IncrWord(start, 15) < 0x80)
  {
  }

  lemma {:induction false} BlockStaysInWindow(c: Cursor, k: nat)
    requires CarriesBlock(c) && k <= 15
    ensures DataWindow(Octet(BeatAddr(c.addr.bits, c.burst, 15, k)))
  {
    hide NextAddr, BeatIndex, DataWindow, WordOfAddr, IncrWord;
    if c.burst == INCR {
      IncrWords(c.addr.bits, k);
      BeatIndexBelow(k, 15);
      IncrStaysInWindow(c.addr.bits, BeatIndex(k));
      WindowByWord(BeatAddr(c.addr.bits, INCR, 15, k));
    } else if k > 0 {
      BlockStaysInWindow(c, k - 1);
      StaysInWindow(Octet(BeatAddr(c.addr.bits, c.burst, 15, k - 1)), c.burst);
    }
  }

  /** Among bursts of sixteen beats, exactly these stay in the data window. */
  lemma SixteenBeatsStayExactly(c: Cursor)
    requires c.cntr == Octet(0) && c.len == Octet(15)
    ensures StaysInData(c) <==> CarriesBlock(c)
  {
    hide BeatAddr, NextAddr, DataWindow, BeatIndex;
    if CarriesBlock(c) {
      forall k: nat | k <= c.len.bits as int
        ensures DataWindow(Octet(BeatAddr(c.addr.bits, c.burst, c.len.bits, k)))
      {
        BlockStaysInWindow(c, k);
      }
    } else {
      var k := EscapesWindow(c);
      assert k <= c.len.bits as int;
    }
  }

  lemma EscapesWindow(c: Cursor) returns (k: nat)
    requires c.cntr == Octet(0) && c.len == Octet(15) && !CarriesBlock(c)
    ensures k <= 15 && !DataWindow(Octet(BeatAddr(c.addr.bits, c.burst, 15, k)))
  {
    var start := c.addr.bits;
    k := 0;
    if DataWindow(c.addr) {
      if c.burst == INCR {
        k := 15;
        IncrEscapes(start);
      } else {
        k := 1;
      }
    }
  }

  lemma IncrEscapes(start: Addr)
    requires DataWindow(Octet(start)) && start & 0xFC != 0x40
    ensures !DataWindow(Octet(BeatAddr(start, INCR, 15, 15)))
  {
    hide BeatAddr, BeatIndex, DataWindow, WordOfAddr, IncrWord;
    IncrWords(start, 15);
    BeatIndexBelow(15, 15);
    WindowByWord(start);
    WindowByWord(BeatAddr(start, INCR, 15, 15));
    IncrLeavesWindow(start);
  }

  function Payload(beats: seq<Beat>): seq<Word> { seq(|beats|, k requires 0 <= k < |beats| => beats[k].dat) }

  lemma StatusStaysClear(f: Regs, i: Input)
    requires f.Valid() && !f.status[0] && i.resetN
    requires WriteEnable(f, i) ==> DataWindow(f.w.cur.addr)
    ensures !Next(f, i).status[0]
  {
    hide ReadNext, WriteNext, DataOutNext, Core.Next, CoreInput, HashBusy, WriteEnable;
    if DataWindow(f.w.cur.addr) {
      assert Index(f.w.cur.addr) != 0;
    }
  }

  lemma OpensClear(f: Regs, i: Input)
    requires f.Valid() && WriteInv(f) && AcceptsWrite(f, i)
    ensures !Next(f, i).status[0]
  {
    hide ReadNext, WriteNext, DataOutNext, Core.Next, CoreInput, HashBusy;
  }

  /** Once the address of such a burst is taken, the core absorbs the words of its beats, one by one and in order. */
  lemma {:induction false} BurstIsAbsorbed(pre: seq<Input>, open: Input, ins: seq<Input>)
    requires AcceptsWrite(Run(pre), open) && StaysInData(Start(open.awaddr, open.awburst, open.awlen))
    requires NoBusReset(ins) && MarksLast(Next(Run(pre), open), ins, open.awlen)
    requires |Accepted(Next(Run(pre), open), ins)| <= open.awlen.bits as int + 1
    ensures Run(pre + [open] + ins) == Steps(Next(Run(pre), open), ins) && !Run(pre + [open] + ins).status[0]
    ensures DataBeats(pre + [open] + ins) == DataBeats(pre + [open]) + Payload(Accepted(Next(Run(pre), open), ins))
  {
    hide Next, AcceptsWrite, MarksLast, StaysInData, WriteInv, WriteEnable, DataBeats, DataWindow;
    var f := Next(Run(pre), open);
    assert (pre + [open])[..|pre|] == pre;
    if |ins| == 0 {
      assert pre + [open] + ins == pre + [open];
      assert DataBeats(pre + [open]) + Payload([]) == DataBeats(pre + [open]);
      WriteInvAlways(pre);
      OpensClear(Run(pre), open);
    } else {
      var n := |ins| - 1;
      assert pre + [open] + ins == pre + [open] + ins[..n] + [ins[n]];
      MarksLastPrefix(f, ins, open.awlen);
      BurstIsAbsorbed(pre, open, ins[..n]);
      BurstBeat(pre, open, ins);
      AppendDataBeat(pre + [open] + ins[..n], ins[n]);
    }
  }

  lemma AppendDataBeat(ins: seq<Input>, i: Input)
    requires i.resetN && !Run(ins).status[0]
    requires WriteEnable(Run(ins), i) ==> DataWindow(Run(ins).w.cur.addr)
    ensures Run(ins + [i]) == Next(Run(ins), i) && !Run(ins + [i]).status[0]
    ensures DataBeats(ins + [i]) == if WriteEnable(Run(ins), i) then DataBeats(ins) + [i.wdata] else DataBeats(ins)
  {
    hide Next, WriteEnable, DataWindow;
    assert (ins + [i])[..|ins|] == ins;
    StatusStaysClear(Run(ins), i);
  }

  /** The last cycle of the run above. */
  lemma BurstBeat(pre: seq<Input>, open: Input, ins: seq<Input>)
    requires AcceptsWrite(Run(pre), open) && StaysInData(Start(open.awaddr, open.awburst, open.awlen))
    requires |ins| > 0 && NoBusReset(ins) && MarksLast(Next(Run(pre), open), ins, open.awlen)
    requires |Accepted(Next(Run(pre), open), ins)| <= open.awlen.bits as int + 1
    ensures var g, i := Steps(Next(Run(pre), open), ins[..|ins| - 1]), ins[|ins| - 1];
            (WriteEnable(g, i) ==> DataWindow(g.w.cur.addr))
  {
    hide Next, AcceptsWrite, MarksLast, WriteInv, WriteEnable, BeatAddr, DataWindow, Run;
    var f := Next(Run(pre), open);
    var c := Start(open.awaddr, open.awburst, open.awlen);
    WriteInvAlways(pre);
    WriteInvStep(Run(pre), open);
    BurstOpens(Run(pre), open);
    BurstBeats(f, ins, c);
    var g, i := Steps(f, ins[..|ins| - 1]), ins[|ins| - 1];
    if WriteEnable(g, i) {
      var k := |Accepted(f, ins)| - 1;
      assert Accepted(f, ins)[k].addr == g.w.cur.addr;
      assert k <= c.len.bits as int;
    }
  }

  // ---- Responses ----

  /** The last beats of bursts accepted since bus reset. */
  function LastBeats(ins: seq<Input>): nat {
    if |ins| == 0 || !ins[|ins| - 1].resetN then 0
    else
      var f, i := Run(ins[..|ins| - 1]), ins[|ins| - 1];
      LastBeats(ins[..|ins| - 1]) + if WriteEnable(f, i) && i.wlast then 1 else 0
  }

  /** The responses handed over since bus reset. */
  function Responses(ins: seq<Input>): nat {
    if |ins| == 0 || !ins[|ins| - 1].resetN then 0
    else
      var f, i := Run(ins[..|ins| - 1]), ins[|ins| - 1];
      Responses(ins[..|ins| - 1]) + if f.w.bvalid && i.bready then 1 else 0
  }

  /** The bursts that finished while the response to an earlier one was still waiting. */
  function Unanswered(ins: seq<Input>): nat {
    if |ins| == 0 || !ins[|ins| - 1].resetN then 0
    else
      var f, i := Run(ins[..|ins| - 1]), ins[|ins| - 1];
      Unanswered(ins[..|ins| - 1]) + if WriteEnable(f, i) && i.wlast && f.w.bvalid then 1 else 0
  }

  /** Every finished burst has been answered, is being answered, or met a waiting response. */
  lemma {:induction false} ResponsesBalance(ins: seq<Input>)
    ensures LastBeats(ins) == Responses(ins) + Unanswered(ins) + if Run(ins).w.bvalid then 1 else 0
  {
    hide HashBusy, DataWindow, AwreadyNext, AwaddrNext, WreadyNext, ReadNext, StatusNext, DataOutNext, Core.Next,
      CoreInput;
    if |ins| > 0 {
      ResponsesBalance(ins[..|ins| - 1]);
      WriteInvAlways(ins[..|ins| - 1]);
    }
  }

  // ---- The soft reset ----

  /** It takes the core back to its initial state from any state, and lasts for one cycle unless it is written again. */
  lemma SoftReset(f: Regs, i: Input)
    requires f.Valid() && i.resetN && f.status[0]
    ensures Next(f, i).core == Core.ResetRegs()
    ensures Next(f, i).status[0] <==>
      WriteEnable(f, i) && Index(f.w.cur.addr) == 0 && (i.wstrb[0] ==> i.wdata[0])
  {
    hide HashBusy, DataWindow, WriteNext, ReadNext, DataOutNext;
  }
}
