/** char_sgdma_map_user_buf_to_sgl of bench/pcie_linux_driver/hsha256.c: a user buffer as page pieces. */
module PageMap {
  import opened Division

  const PAGE_SIZE := 0x1000
  const U32 := 0x1_0000_0000
  const U64 := 0x1_0000_0000_0000_0000

  datatype Errno = EINVAL | ENOMEM | EFAULT | EIO

  datatype Result<T> = Ok(value: T) | Err(errno: Errno)

  /** A scatterlist entry: a run of bytes within one page. */
  datatype SgEntry = SgEntry(page: nat, length: nat, offset: nat)

  /** What the kernel answers: whether it has memory for the tables, and which pages it pinned. */
  datatype Kernel = Kernel(memory: bool, pinned: Result<seq<nat>>)

  /** A byte of memory: its page frame and its place in the page. */
  type Location = (nat, nat)

  function EntryBytes(e: SgEntry): seq<Location> { seq(e.length, k => (e.page, e.offset + k)) }

  function BytesOf(sgl: seq<SgEntry>): seq<Location> {
    if |sgl| == 0 then [] else BytesOf(sgl[..|sgl| - 1]) + EntryBytes(sgl[|sgl| - 1])
  }

  /** pages_nr, computed in 64 bits and kept in 32. */
  function PageCount(buf: nat, len: nat): nat {
    ((buf + len + PAGE_SIZE - 1) % U64 - buf / PAGE_SIZE * PAGE_SIZE) % U64 / PAGE_SIZE % U32
  }

  lemma PageCountOf(buf: nat, len: nat)
    requires len < U32
    ensures PageCount(buf, len) == (buf % PAGE_SIZE + len + PAGE_SIZE - 1) / PAGE_SIZE
  {
    var base := buf / PAGE_SIZE * PAGE_SIZE;
    var n := buf % PAGE_SIZE + len + PAGE_SIZE - 1;
    assert buf + len + PAGE_SIZE - 1 == base + n;
    assert (base + n) % U64 - base == n - U64 * ((base + n) / U64);
    assert (n - U64 * ((base + n) / U64)) % U64 == n;
  }

  /** The bytes of the buffer, if these are the page frames behind it. */
  function UserBytes(buf: nat, len: nat, pages: seq<nat>): (bytes: seq<Location>)
    requires PageCount(buf, len) <= |pages| && len < U32
    ensures |bytes| == len
  {
    PageCountOf(buf, len);
    seq(len, k requires 0 <= k < len => (pages[(buf % PAGE_SIZE + k) / PAGE_SIZE], (buf + k) % PAGE_SIZE))
  }

  predicate NoAdjacentTwins(pages: seq<nat>) { forall i :: 0 < i < |pages| ==> pages[i - 1] != pages[i] }

  /** All pages are there, and no two neighbours are the same. */
  predicate Pins(kernel: Kernel, n: nat) {
    kernel.memory && kernel.pinned.Ok? && |kernel.pinned.value| == n && NoAdjacentTwins(kernel.pinned.value)
  }

  method FindTwins(pages: seq<nat>) returns (found: bool)
    ensures found <==> !NoAdjacentTwins(pages)
  {
    var i := 1;
    while i < |pages|
      invariant 1 <= i
      invariant forall k :: 0 < k < i && k < |pages| ==> pages[k - 1] != pages[k]
    {
      if pages[i - 1] == pages[i] {
        return true;
      }
      i := i + 1;
    }
    return false;
  }

  /** min_t(unsigned int, PAGE_SIZE - offset, len): the length is first cut to 32 bits. */
  function PieceLength(buf: nat, len: nat): nat {
    if PAGE_SIZE - buf % PAGE_SIZE < len % U32 then PAGE_SIZE - buf % PAGE_SIZE else len % U32
  }

  /** Byte k of a piece that starts at offset o of page i. */
  lemma ByteOfPiece(buf: nat, done: nat, i: nat, o: nat, k: nat)
    requires o == (buf + done) % PAGE_SIZE && buf % PAGE_SIZE + done == i * PAGE_SIZE + o && o + k < PAGE_SIZE
    ensures (buf % PAGE_SIZE + (done + k)) / PAGE_SIZE == i && (buf + (done + k)) % PAGE_SIZE == o + k
  {
    QuotientIs(buf % PAGE_SIZE + done + k, PAGE_SIZE, i, o + k);
    RemainderIs(buf + done + k, PAGE_SIZE, (buf + done) / PAGE_SIZE, o + k);
  }

  lemma PieceStart(buf: nat, done: nat, i: nat)
    requires (buf % PAGE_SIZE + done) / PAGE_SIZE == i
    ensures buf % PAGE_SIZE + done == i * PAGE_SIZE + (buf + done) % PAGE_SIZE
  {
    ModSum(PAGE_SIZE, buf, done);
  }

  lemma NextPage(buf: nat, done: nat, n: nat, i: nat)
    requires buf % PAGE_SIZE + done == i * PAGE_SIZE + (buf + done) % PAGE_SIZE
      && n == PAGE_SIZE - (buf + done) % PAGE_SIZE
    ensures (buf % PAGE_SIZE + done + n) / PAGE_SIZE == i + 1
  {
    QuotientIs(buf % PAGE_SIZE + done + n, PAGE_SIZE, i + 1, 0);
  }

  lemma PieceBounds(buf: nat, left: nat)
    requires left < U32
    ensures var n := PieceLength(buf, left);
            n <= left && buf % PAGE_SIZE + n <= PAGE_SIZE && (n < left ==> n == PAGE_SIZE - buf % PAGE_SIZE)
  {
  }

  /** One piece carries the next bytes of the buffer, up to the end of the page. */
  lemma PieceIsNext(buf: nat, len: nat, pages: seq<nat>, i: nat, done: nat)
    requires len < U32 && done <= len && PageCount(buf, len) <= |pages| && i < |pages|
    requires done < len ==> (buf % PAGE_SIZE + done) / PAGE_SIZE == i
    ensures var n := PieceLength(buf + done, len - done);
            && done + n <= len
            && EntryBytes(SgEntry(pages[i], n, (buf + done) % PAGE_SIZE)) == UserBytes(buf, len, pages)[done..done + n]
            && (done + n < len ==> (buf % PAGE_SIZE + done + n) / PAGE_SIZE == i + 1)
  {
    hide PageCount, PieceLength;
    var o, n := (buf + done) % PAGE_SIZE, PieceLength(buf + done, len - done);
    PieceBounds(buf + done, len - done);
    if done < len {
      PieceStart(buf, done, i);
    }
    if done + n < len {
      NextPage(buf, done, n, i);
    }
    var entry := EntryBytes(SgEntry(pages[i], n, o));
    forall k | 0 <= k < n
      ensures entry[k] == UserBytes(buf, len, pages)[done + k]
    {
      ByteOfPiece(buf, done, i, o, k);
    }
  }

  /** The mapping loop. */
  method FillTable(buf: nat, len: nat, pages: seq<nat>, pagesNr: nat) returns (sgl: array<SgEntry>, left: nat)
    requires pagesNr == PageCount(buf, len) == |pages|
    ensures sgl.Length == pagesNr
    ensures len < U32 ==> left == 0 && BytesOf(sgl[..]) == UserBytes(buf, len, pages)
    ensures U32 <= len ==> left > 0
  {
    hide PageCount, BytesOf, PieceLength;
    sgl := new SgEntry[pagesNr](_ => SgEntry(0, 0, 0));
    var at, i := buf, 0;
    left := len;
    ghost var done := 0;
    StartsEmpty(sgl[..0]);
    while i < pagesNr
      invariant 0 <= i <= pagesNr && 0 <= done <= len && at == buf + done && left == len - done
      invariant len / U32 * U32 <= left
      invariant len < U32 ==> BytesOf(sgl[..i]) == UserBytes(buf, len, pages)[..done]
      invariant done < len < U32 ==> (buf % PAGE_SIZE + done) / PAGE_SIZE == i
    {
      var nbytes := PieceLength(at, left);
      if len < U32 {
        PieceIsNext(buf, len, pages, i, done);
      }
      PieceFits(at, left, len);
      sgl[i] := SgEntry(pages[i], nbytes, at % PAGE_SIZE);
      at, left, done := at + nbytes, left - nbytes, done + nbytes;
      i := i + 1;
      Appends(sgl[..i]);
      assert sgl[..i][..i - 1] == sgl[..i - 1];
    }
    assert sgl[..] == sgl[..pagesNr];
    if len < U32 {
      PageCountOf(buf, len);
    }
  }

  lemma StartsEmpty(sgl: seq<SgEntry>)
    requires sgl == []
    ensures BytesOf(sgl) == []
  {
  }

  lemma Appends(sgl: seq<SgEntry>)
    requires |sgl| > 0
    ensures BytesOf(sgl) == BytesOf(sgl[..|sgl| - 1]) + EntryBytes(sgl[|sgl| - 1])
  {
  }

  /** A piece never reaches into the part of the length that 32 bits cannot hold. */
  lemma PieceFits(buf: nat, left: nat, len: nat)
    requires len / U32 * U32 <= left <= len
    ensures PieceLength(buf, left) <= left && len / U32 * U32 <= left - PieceLength(buf, left)
  {
    assert left / U32 == len / U32;
  }

  /** The errno of a mapping that fails. */
  function Fault(kernel: Kernel, pagesNr: nat): Errno {
    if pagesNr == 0 then EINVAL
    else if !kernel.memory then ENOMEM
    else if kernel.pinned.Err? then kernel.pinned.errno
    else if !Pins(kernel, pagesNr) then EFAULT
    else EINVAL
  }

  /** The whole mapping: the kernel must play along, the buffer must touch a page, and its length must fit 32 bits. */
  method MapUserBuf(buf: nat, len: nat, kernel: Kernel) returns (r: Result<seq<SgEntry>>)
    requires buf + len <= U64
    ensures r.Ok? <==> 0 < PageCount(buf, len) && Pins(kernel, PageCount(buf, len)) && len < U32
    ensures r.Ok? ==> |r.value| == PageCount(buf, len) && BytesOf(r.value) == UserBytes(buf, len, kernel.pinned.value)
    ensures r.Err? ==> r.errno == Fault(kernel, PageCount(buf, len))
    ensures PageCount(buf, len) == 0 || (Pins(kernel, PageCount(buf, len)) && len >= U32) ==> r == Err(EINVAL)
    ensures 0 < PageCount(buf, len) && !kernel.memory ==> r == Err(ENOMEM)
    ensures 0 < PageCount(buf, len) && kernel.memory ==>
      if kernel.pinned.Err? then r == Err(kernel.pinned.errno)
      else Pins(kernel, PageCount(buf, len)) || r == Err(EFAULT)
  {
    hide PageCount, BytesOf;
    var pagesNr := PageCount(buf, len);
    if pagesNr == 0 {
      return Err(EINVAL);
    }
    if !kernel.memory {
      return Err(ENOMEM);
    }
    if kernel.pinned.Err? {
      return Err(kernel.pinned.errno);
    }
    if |kernel.pinned.value| != pagesNr {
      return Err(EFAULT);
    }
    var twins := FindTwins(kernel.pinned.value);
    if twins {
      return Err(EFAULT);
    }
    var sgl, left := FillTable(buf, len, kernel.pinned.value, pagesNr);
    if left != 0 {
      return Err(EINVAL);
    }
    return Ok(sgl[..]);
  }

  /** The buffers that touch no page. */
  lemma NoPages(buf: nat, len: nat)
    requires len < U32
    ensures PageCount(buf, len) == 0 <==> len == 0 && buf % PAGE_SIZE == 0
  {
    PageCountOf(buf, len);
  }
}
