/** xdma_init_request of bench/pcie_linux_driver/libxdma.c: mapped pieces as bounded software descriptors. */
module SwDesc {
  import opened Division
  import opened PageMap

  /** The largest byte count that a hardware descriptor can hold, and the limit that the module parameter is cut to. */
  const XDMA_DESC_BLEN_MAX := 0xFFF_FFFF

  /** sizeof(struct sw_desc), and how many of them make up 2^32 bytes */
  const SW_DESC_SIZE := 16
  const DESCS_PER_WRAP := 0x1000_0000

  /** A run of bus addresses: a mapped scatterlist entry or a software descriptor. */
  datatype Span = Span(addr: nat, len: nat)

  function SpanBytes(s: Span): seq<nat> { seq(s.len, k => s.addr + k) }

  /** The bus addresses of the bytes of a list of spans, in order. */
  function Bytes(spans: seq<Span>): seq<nat> {
    if |spans| == 0 then [] else Bytes(spans[..|spans| - 1]) + SpanBytes(spans[|spans| - 1])
  }

  function TotalLen(spans: seq<Span>): nat {
    if |spans| == 0 then 0 else TotalLen(spans[..|spans| - 1]) + spans[|spans| - 1].len
  }

  // ---- The simple form: cut off full pieces until the rest fits ----

  /** How many pieces of at most blenMax bytes it takes. */
  function Pieces(len: nat, blenMax: nat): nat
    requires blenMax > 0
  {
    (len + blenMax - 1) / blenMax
  }

  function Cut(s: Span, blenMax: nat): (cut: seq<Span>)
    requires blenMax > 0
    ensures forall d :: d in cut ==> 0 < d.len <= blenMax
    ensures |cut| == Pieces(s.len, blenMax)
    decreases s.len
  {
    if s.len == 0 then []
    else if s.len > blenMax then
      CeilSteps(s.len, blenMax);
      [Span(s.addr, blenMax)] + Cut(Span(s.addr + blenMax, s.len - blenMax), blenMax)
    else
      CeilOne(s.len, blenMax);
      [s]
  }

  lemma CeilSteps(len: nat, blenMax: nat)
    requires len > blenMax > 0
    ensures Pieces(len, blenMax) == 1 + Pieces(len - blenMax, blenMax)
  {
    var x := len - 1;
    assert x + blenMax == (x / blenMax + 1) * blenMax + x % blenMax;
    QuotientIs(x + blenMax, blenMax, x / blenMax + 1, x % blenMax);
  }

  lemma CeilOne(len: nat, blenMax: nat)
    requires 0 < len <= blenMax
    ensures Pieces(len, blenMax) == 1
  {
    QuotientIs(len + blenMax - 1, blenMax, 1, len - 1);
  }

  function Cuts(sgl: seq<Span>, blenMax: nat): (sdesc: seq<Span>)
    requires blenMax > 0
    ensures forall d :: d in sdesc ==> 0 < d.len <= blenMax
  {
    if |sgl| == 0 then [] else Cuts(sgl[..|sgl| - 1], blenMax) + Cut(sgl[|sgl| - 1], blenMax)
  }

  lemma OneSpanMore(spans: seq<Span>, s: Span)
    ensures Bytes(spans + [s]) == Bytes(spans) + SpanBytes(s) && TotalLen(spans + [s]) == TotalLen(spans) + s.len
  {
    assert (spans + [s])[..|spans|] == spans;
  }

  lemma {:induction false} BytesAppend(a: seq<Span>, b: seq<Span>)
    ensures Bytes(a + b) == Bytes(a) + Bytes(b)
    ensures TotalLen(a + b) == TotalLen(a) + TotalLen(b)
  {
    if |b| == 0 {
      assert a + b == a;
    } else {
      hide Bytes, TotalLen, SpanBytes;
      var init, s := b[..|b| - 1], b[|b| - 1];
      BytesAppend(a, init);
      OneSpanMore(a + init, s);
      OneSpanMore(init, s);
      assert b == init + [s] && a + b == a + init + [s];
    }
  }

  lemma BytesOfOne(s: Span)
    ensures Bytes([s]) == SpanBytes(s) && TotalLen([s]) == s.len
  {
    assert [s][..0] == [];
  }

  lemma {:induction false} CutKeepsBytes(s: Span, blenMax: nat)
    requires blenMax > 0
    ensures Bytes(Cut(s, blenMax)) == SpanBytes(s)
    decreases s.len
  {
    hide Bytes, TotalLen, Pieces;
    if s.len == 0 {
      assert Cut(s, blenMax) == [] && SpanBytes(s) == [];
      NoBytes();
    } else if s.len > blenMax {
      var rest := Span(s.addr + blenMax, s.len - blenMax);
      CutKeepsBytes(rest, blenMax);
      BytesAppend([Span(s.addr, blenMax)], Cut(rest, blenMax));
      BytesOfOne(Span(s.addr, blenMax));
      assert SpanBytes(Span(s.addr, blenMax)) + SpanBytes(rest) == SpanBytes(s);
    } else {
      BytesOfOne(s);
    }
  }

  lemma {:induction false} BytesCount(spans: seq<Span>)
    ensures |Bytes(spans)| == TotalLen(spans)
  {
    if |spans| > 0 {
      BytesCount(spans[..|spans| - 1]);
    }
  }

  lemma NoBytes()
    ensures Bytes([]) == []
  {
  }

  /** Cutting neither loses, repeats nor reorders a byte. */
  lemma {:induction false} CutsKeepBytes(sgl: seq<Span>, blenMax: nat)
    requires blenMax > 0
    ensures Bytes(Cuts(sgl, blenMax)) == Bytes(sgl)
  {
    if |sgl| > 0 {
      var n := |sgl| - 1;
      CutsKeepBytes(sgl[..n], blenMax);
      CutKeepsBytes(sgl[n], blenMax);
      BytesAppend(Cuts(sgl[..n], blenMax), Cut(sgl[n], blenMax));
    }
  }

  // ---- The method ----

  /** The number of entries is an int, lengths are 32-bit numbers, and the limit is in its range. */
  predicate Widths(sgl: seq<Span>, blenMax: nat) {
    |sgl| < 0x8000_0000 && 0 < blenMax <= XDMA_DESC_BLEN_MAX && forall i :: 0 <= i < |sgl| ==> sgl[i].len < U32
  }

  /** The 32-bit sum of the first loop wraps for no entry. */
  predicate Countable(sgl: seq<Span>, blenMax: nat) {
    forall i :: 0 <= i < |sgl| ==> sgl[i].len + blenMax - 1 < U32
  }

  /** Descriptors set aside for an entry beyond those it needs; an entry whose sum wraps gets only one. */
  function Surplus(len: nat, blenMax: nat): int
    requires blenMax > 0
  {
    if len == 0 then 1
    else if len <= blenMax then 0
    else if len + blenMax - 1 < U32 then 1
    else 1 - Pieces(len, blenMax)
  }

  function Balance(sgl: seq<Span>, blenMax: nat): int
    requires blenMax > 0
  {
    if |sgl| == 0 then 0 else Balance(sgl[..|sgl| - 1], blenMax) + Surplus(sgl[|sgl| - 1].len, blenMax)
  }

  /** The 32-bit quotient of the first loop. */
  function Quotient32(len: nat, blenMax: nat): nat
    requires blenMax > 0
  {
    (len + blenMax - 1) % U32 / blenMax
  }

  /** How many descriptors the first loop adds for an entry that is too long. */
  function Extra(len: nat, blenMax: nat): nat
    requires blenMax > 0
  {
    if len > blenMax then Quotient32(len, blenMax) else 0
  }

  /** Descriptors set aside: one an entry, and more for an entry that is too long. */
  function SetAside(sgl: seq<Span>, blenMax: nat): nat
    requires blenMax > 0
  {
    if |sgl| == 0 then 0
    else SetAside(sgl[..|sgl| - 1], blenMax) + 1 + Extra(sgl[|sgl| - 1].len, blenMax)
  }

  lemma EntrySurplus(s: Span, blenMax: nat)
    requires 0 < blenMax <= XDMA_DESC_BLEN_MAX && s.len < U32
    ensures 1 + Extra(s.len, blenMax) - |Cut(s, blenMax)| == Surplus(s.len, blenMax)
  {
    hide Cut;
    var sum := s.len + blenMax - 1;
    if s.len == 0 {
      QuotientIs(sum, blenMax, 0, blenMax - 1);
    } else if s.len <= blenMax {
      CeilOne(s.len, blenMax);
    } else if sum < U32 {
      assert sum % U32 == sum;
    } else {
      assert sum % U32 == sum - U32;
      QuotientIs(sum - U32, blenMax, 0, sum - U32);
    }
  }

  lemma {:induction false} SetAsideBalance(sgl: seq<Span>, blenMax: nat)
    requires Widths(sgl, blenMax)
    ensures SetAside(sgl, blenMax) - |Cuts(sgl, blenMax)| == Balance(sgl, blenMax)
  {
    hide Cut, Extra, Surplus;
    if |sgl| > 0 {
      SetAsideBalance(sgl[..|sgl| - 1], blenMax);
      EntrySurplus(sgl[|sgl| - 1], blenMax);
    }
  }

  /** What xdma_request_alloc asks for: the size of the header and of so many descriptors, in 32 bits. */
  function RequestSize(header: nat, count: nat): nat { (header + SW_DESC_SIZE * count) % U32 }

  /** The memory asked for holds the header and all descriptors that the second loop writes. */
  predicate Fits(sgl: seq<Span>, blenMax: nat, header: nat)
    requires blenMax > 0
  {
    header + SW_DESC_SIZE * |Cuts(sgl, blenMax)| <= RequestSize(header, SetAside(sgl, blenMax) % U32)
  }

  /** How often the size wraps. */
  function Wraps(sgl: seq<Span>, blenMax: nat, header: nat): nat
    requires blenMax > 0
  {
    (header + SW_DESC_SIZE * SetAside(sgl, blenMax)) / U32
  }

  /** Cutting the count to 32 bits first does not change the size. */
  lemma SizeOfCount(header: nat, count: nat)
    ensures RequestSize(header, count % U32) == RequestSize(header, count)
  {
    var turns, rest := count / U32, count % U32;
    var n := header + SW_DESC_SIZE * rest;
    assert header + SW_DESC_SIZE * count == n + SW_DESC_SIZE * turns * U32;
    RemainderOfSum(header + SW_DESC_SIZE * count, U32, n / U32, SW_DESC_SIZE * turns, n % U32);
  }

  /**
   * The request fits the memory that is asked for exactly when the surplus of the first loop pays for the entries whose
   * sum wraps and for every time that the size wraps.
   */
  lemma EnoughSetAside(sgl: seq<Span>, blenMax: nat, header: nat)
    requires Widths(sgl, blenMax)
    ensures Fits(sgl, blenMax, header) <==> Balance(sgl, blenMax) >= DESCS_PER_WRAP * Wraps(sgl, blenMax, header)
  {
    hide SetAside, Cuts;
    SetAsideBalance(sgl, blenMax);
    SizeOfCount(header, SetAside(sgl, blenMax));
  }

  predicate NoneEmpty(sgl: seq<Span>) { forall i :: 0 <= i < |sgl| ==> sgl[i].len > 0 }

  /**
   * For a table without empty entries no surplus ever makes good for a wrapped size, and the error return after the
   * second loop is never taken.
   */
  lemma FitsExactly(sgl: seq<Span>, blenMax: nat, header: nat)
    requires Widths(sgl, blenMax) && NoneEmpty(sgl)
    ensures Fits(sgl, blenMax, header) <==>
      Balance(sgl, blenMax) >= 0 && header + SW_DESC_SIZE * SetAside(sgl, blenMax) < U32
    ensures Countable(sgl, blenMax) ==> Balance(sgl, blenMax) >= 0
    ensures Fits(sgl, blenMax, header) ==> |Cuts(sgl, blenMax)| <= Signed32(SetAside(sgl, blenMax))
  {
    hide SetAside, Cuts, Balance;
    EnoughSetAside(sgl, blenMax, header);
    SetAsideBalance(sgl, blenMax);
    ThirdOfTheRoom(sgl, blenMax);
    var size, wraps := header + SW_DESC_SIZE * SetAside(sgl, blenMax), Wraps(sgl, blenMax, header);
    QuotientBounds(size, U32);
    assert size < U32 <==> wraps == 0;
    if Countable(sgl, blenMax) {
      CountableBalance(sgl, blenMax);
    }
  }

  /** Only an entry that needs two descriptors gets one too many. */
  lemma {:induction false} ThirdOfTheRoom(sgl: seq<Span>, blenMax: nat)
    requires Widths(sgl, blenMax) && NoneEmpty(sgl)
    ensures 2 * Balance(sgl, blenMax) <= |Cuts(sgl, blenMax)|
  {
    hide Cut, Pieces;
    if |sgl| > 0 {
      var s := sgl[|sgl| - 1];
      ThirdOfTheRoom(sgl[..|sgl| - 1], blenMax);
      if s.len > blenMax {
        CeilSteps(s.len, blenMax);
        AtLeastOnePiece(s.len - blenMax, blenMax);
      }
    }
  }

  lemma AtLeastOnePiece(len: nat, blenMax: nat)
    requires 0 < len && 0 < blenMax
    ensures Pieces(len, blenMax) >= 1
  {
    QuotientGrows(blenMax, len + blenMax - 1, blenMax);
  }

  /** A 32-bit number as an int. */
  function Signed32(x: nat): (r: int)
    ensures -0x8000_0000 <= r < 0x8000_0000 && (x - r) % 0x1_0000_0000 == 0
  {
    if x % U32 < 0x8000_0000 then x % U32 else x % U32 - U32
  }

  /** No sum wraps, and yet no descriptor is set aside: the count itself wraps. */
  lemma CountWraps(header: nat)
    ensures var sgl := [Span(0, U32 - 1)];
            && Widths(sgl, 1) && Countable(sgl, 1) && Balance(sgl, 1) >= 0
            && SetAside(sgl, 1) % U32 == 0 && !Fits(sgl, 1, header)
  {
    hide Cuts, Fits;
    var sgl := [Span(0, U32 - 1)];
    assert sgl[..0] == [];
    assert SetAside(sgl, 1) == U32;
    FitsExactly(sgl, 1, header);
  }

  function Copies(s: Span, n: nat): seq<Span> { seq(n, _ => s) }

  lemma {:induction false} SetAsideOfCopies(s: Span, n: nat, blenMax: nat)
    requires 0 < blenMax
    ensures SetAside(Copies(s, n), blenMax) == n * (1 + Extra(s.len, blenMax))
  {
    hide Extra;
    if n > 0 {
      SetAsideOfCopies(s, n - 1, blenMax);
      assert Copies(s, n)[..n - 1] == Copies(s, n - 1);
    }
  }

  /** Nor does it take long entries: with 65536 single pages the size wraps. */
  lemma SizeWraps(header: nat)
    ensures var sgl := Copies(Span(0, PAGE_SIZE), 65536);
            Widths(sgl, 1) && Countable(sgl, 1) && Balance(sgl, 1) >= 0 && !Fits(sgl, 1, header)
  {
    hide Cuts, Fits, SetAside, Balance;
    var sgl := Copies(Span(0, PAGE_SIZE), 65536);
    SetAsideOfCopies(Span(0, PAGE_SIZE), 65536, 1);
    FitsExactly(sgl, 1, header);
  }

  lemma {:induction false} CountableBalance(sgl: seq<Span>, blenMax: nat)
    requires blenMax > 0 && Countable(sgl, blenMax)
    ensures Balance(sgl, blenMax) >= 0
  {
    hide Pieces;
    if |sgl| > 0 {
      CountableBalance(sgl[..|sgl| - 1], blenMax);
    }
  }

  /** A single entry fits exactly when neither its sum nor the size wraps. */
  lemma OneEntryEnough(s: Span, blenMax: nat, header: nat)
    requires Widths([s], blenMax)
    ensures Fits([s], blenMax, header) <==>
      s.len + blenMax - 1 < U32 && header + SW_DESC_SIZE * SetAside([s], blenMax) < U32
  {
    hide Pieces, SetAside, Cuts, Fits;
    assert [s][..0] == [];
    assert Balance([s], blenMax) == Surplus(s.len, blenMax);
    EnoughSetAside([s], blenMax, header);
    QuotientBounds(header + SW_DESC_SIZE * SetAside([s], blenMax), U32);
    if s.len + blenMax - 1 >= U32 {
      assert [s][0].len < U32;
      CeilSteps(s.len, blenMax);
      CeilSteps(s.len - blenMax, blenMax);
    }
  }

  lemma {:induction false} CutsGrow(sgl: seq<Span>, blenMax: nat, i: nat)
    requires blenMax > 0 && i <= |sgl|
    ensures |Cuts(sgl[..i], blenMax)| <= |Cuts(sgl, blenMax)|
  {
    hide Cut;
    if i < |sgl| {
      CutsGrow(sgl[..|sgl| - 1], blenMax, i);
      assert sgl[..|sgl| - 1][..i] == sgl[..i];
    } else {
      assert sgl[..i] == sgl;
    }
  }

  /** One entry more in 32 bits. */
  lemma CountsOneMore(sgl: seq<Span>, blenMax: nat, i: nat)
    requires 0 < blenMax && i < |sgl|
    ensures SetAside(sgl[..i + 1], blenMax) == SetAside(sgl[..i], blenMax) + 1 + Extra(sgl[i].len, blenMax)
    ensures i <= SetAside(sgl[..i], blenMax) ==>
      (SetAside(sgl[..i + 1], blenMax) - (i + 1)) % U32
      == ((SetAside(sgl[..i], blenMax) - i) % U32 + Extra(sgl[i].len, blenMax)) % U32
  {
    hide Extra;
    assert sgl[..i + 1][..i] == sgl[..i];
    if i <= SetAside(sgl[..i], blenMax) {
      ModSum(U32, SetAside(sgl[..i], blenMax) - i, Extra(sgl[i].len, blenMax));
    }
  }

  /** The counting loop; extra and max are 32-bit numbers. */
  method CountSpans(sgl: seq<Span>, blenMax: nat) returns (max: nat)
    requires 0 < blenMax
    ensures max == SetAside(sgl, blenMax) % U32
  {
    hide Quotient32, SetAside;
    var extra, i := 0, 0;
    NoneSetAside(sgl, blenMax);
    while i < |sgl|
      invariant 0 <= i <= |sgl| && 0 <= extra < U32
      invariant SetAside(sgl[..i], blenMax) >= i && extra == (SetAside(sgl[..i], blenMax) - i) % U32
    {
      CountsOneMore(sgl, blenMax, i);
      var len := sgl[i].len;
      if len > blenMax {
        extra := (extra + Quotient32(len, blenMax)) % U32;
      }
      i := i + 1;
    }
    assert sgl[..i] == sgl;
    ModSum(U32, SetAside(sgl, blenMax) - |sgl|, |sgl|);
    max := (|sgl| + extra) % U32;
  }

  lemma NoneSetAside(sgl: seq<Span>, blenMax: nat)
    requires 0 < blenMax
    ensures SetAside(sgl[..0], blenMax) == 0
  {
  }

  /** The whole descriptors behind the header. */
  function Room(header: nat, max: nat): int { (RequestSize(header, max) - header) / SW_DESC_SIZE }

  lemma RoomIsEnough(sgl: seq<Span>, blenMax: nat, header: nat)
    requires 0 < blenMax && Fits(sgl, blenMax, header)
    ensures var max := SetAside(sgl, blenMax) % U32;
            && |Cuts(sgl, blenMax)| <= Room(header, max)
            && header + SW_DESC_SIZE * Room(header, max) <= RequestSize(header, max)
  {
    hide Cuts, SetAside, RequestSize;
  }

  /** The first piece of an entry, and the entry that is left. */
  function FirstPiece(s: Span, blenMax: nat): Span {
    if s.len > blenMax then Span(s.addr, blenMax) else s
  }

  function RestOf(s: Span, blenMax: nat): Span {
    if s.len > blenMax then Span(s.addr + blenMax, s.len - blenMax) else Span(s.addr, 0)
  }

  lemma CutOnce(s: Span, blenMax: nat, before: seq<Span>)
    requires 0 < blenMax && s.len > 0
    ensures before + Cut(s, blenMax) == before + [FirstPiece(s, blenMax)] + Cut(RestOf(s, blenMax), blenMax)
    ensures |Cut(s, blenMax)| == 1 + |Cut(RestOf(s, blenMax), blenMax)|
  {
  }

  lemma NothingToCut(s: Span, blenMax: nat)
    requires 0 < blenMax && s.len == 0
    ensures Cut(s, blenMax) == []
  {
  }

  /** Writes the pieces of one entry, and never past the end of the array. */
  method CutEntry(s: Span, blenMax: nat, sdesc: array<Span>, start: nat) returns (j: nat)
    requires 0 < blenMax && start + |Cut(s, blenMax)| <= sdesc.Length
    modifies sdesc
    ensures j == start + |Cut(s, blenMax)|
    ensures sdesc[..j] == old(sdesc[..start]) + Cut(s, blenMax)
  {
    hide Cut, Pieces;
    ghost var all := old(sdesc[..start]) + Cut(s, blenMax);
    var addr, tlen: int := s.addr, s.len;
    j := start;
    while tlen > 0
      invariant 0 <= addr && 0 <= tlen && start <= j
      invariant j + |Cut(Span(addr, tlen), blenMax)| == start + |Cut(s, blenMax)|
      invariant sdesc[..j] + Cut(Span(addr, tlen), blenMax) == all
    {
      ghost var before := sdesc[..j];
      CutOnce(Span(addr, tlen), blenMax, before);
      if tlen > blenMax {
        sdesc[j] := Span(addr, blenMax);
        addr := addr + blenMax;
        tlen := tlen - blenMax;
      } else {
        sdesc[j] := Span(addr, tlen);
        tlen := 0;
      }
      assert sdesc[..j + 1] == before + [sdesc[j]];
      j := j + 1;
    }
    NothingToCut(Span(addr, tlen), blenMax);
  }

  /** What one more entry adds. */
  lemma EntryAdds(sgl: seq<Span>, blenMax: nat, i: nat)
    requires Widths(sgl, blenMax) && i < |sgl|
    ensures Cuts(sgl[..i + 1], blenMax) == Cuts(sgl[..i], blenMax) + Cut(sgl[i], blenMax)
    ensures |Cuts(sgl[..i + 1], blenMax)| <= |Cuts(sgl, blenMax)|
    ensures TotalLen(sgl[..i + 1]) % U32 == (TotalLen(sgl[..i]) % U32 + sgl[i].len) % U32
  {
    hide Cut, Cuts, TotalLen;
    Grows(sgl, blenMax, i);
    CutsGrow(sgl, blenMax, i + 1);
    ModSum(U32, TotalLen(sgl[..i]), sgl[i].len);
  }

  lemma Grows(sgl: seq<Span>, blenMax: nat, i: nat)
    requires blenMax > 0 && i < |sgl|
    ensures Cuts(sgl[..i + 1], blenMax) == Cuts(sgl[..i], blenMax) + Cut(sgl[i], blenMax)
    ensures TotalLen(sgl[..i + 1]) == TotalLen(sgl[..i]) + sgl[i].len
  {
    hide Cut;
    assert sgl[..i + 1][..i] == sgl[..i];
  }

  /**
   * The request: its software descriptors, and the sum of their lengths in 32 bits. The precondition says exactly that
   * the second loop stays inside the memory that was asked for. Its int counter is then compared with max, which is
   * an int as well.
   */
  method InitRequest(sgl: seq<Span>, blenMax: nat, header: nat)
    returns (ok: bool, sdesc: array<Span>, swDescCnt: nat, totalLen: nat)
    requires Widths(sgl, blenMax) && Fits(sgl, blenMax, header)
    ensures fresh(sdesc) && swDescCnt <= sdesc.Length
    ensures header + SW_DESC_SIZE * sdesc.Length <= RequestSize(header, SetAside(sgl, blenMax) % U32)
    ensures sdesc[..swDescCnt] == Cuts(sgl, blenMax) && Bytes(sdesc[..swDescCnt]) == Bytes(sgl)
    ensures totalLen == TotalLen(sgl) % U32
    ensures ok <==> |Cuts(sgl, blenMax)| <= Signed32(SetAside(sgl, blenMax))
    ensures NoneEmpty(sgl) ==> ok
  {
    hide Cut, Cuts, SetAside, Bytes, TotalLen, NoneEmpty, Room, RequestSize, Fits, Signed32, Widths;
    PositiveLimit(sgl, blenMax);
    var max := CountSpans(sgl, blenMax);
    RoomIsEnough(sgl, blenMax, header);
    var room := Room(header, max);
    sdesc := new Span[room](_ => Span(0, 0));
    swDescCnt, totalLen := 0, 0;
    var i := 0;
    NothingYet(sgl, blenMax);
    while i < |sgl|
      invariant 0 <= i <= |sgl| && swDescCnt <= sdesc.Length == room
      invariant sdesc[..swDescCnt] == Cuts(sgl[..i], blenMax)
      invariant totalLen == TotalLen(sgl[..i]) % U32
    {
      EntryAdds(sgl, blenMax, i);
      totalLen := (totalLen + sgl[i].len) % U32;
      swDescCnt := CutEntry(sgl[i], blenMax, sdesc, swDescCnt);
      i := i + 1;
    }
    assert sgl[..i] == sgl;
    CutsKeepBytes(sgl, blenMax);
    SignedOfCount(SetAside(sgl, blenMax));
    ok := swDescCnt <= Signed32(max);
    if NoneEmpty(sgl) {
      FitsExactly(sgl, blenMax, header);
    }
  }

  lemma PositiveLimit(sgl: seq<Span>, blenMax: nat)
    requires Widths(sgl, blenMax)
    ensures 0 < blenMax
  {
  }

  lemma SignedOfCount(x: nat)
    ensures Signed32(x % U32) == Signed32(x)
  {
  }

  lemma NothingYet(sgl: seq<Span>, blenMax: nat)
    requires blenMax > 0
    ensures Cuts(sgl[..0], blenMax) == [] && TotalLen(sgl[..0]) == 0
  {
  }
}
