/** make_chunk of bench/test_driver/src/main.rs: padding a message in place. */
module MakeChunk {
  import opened Division
  import opened Words
  import opened Fips180

  /** The values of usize on the target that .cargo/config selects. */
  const USIZE := 0x1_0000_0000

  /** The number of zero bytes between the separator and the length. */
  function ZerosAppended(n: nat): nat {
    var used := (n + 1) % 64;
    if used < 56 then 56 - used else 64 + 56 - used
  }

  function Chunked(message: seq<Byte>): seq<Byte> {
    message + [ByteOf(SEPARATOR)] + Zeros(ZerosAppended(|message|)) + BigEndianNumber(8 * |message| % USIZE, 8)
  }

  class Buffer {
    var bytes: seq<Byte>

    method MakeChunk()
      modifies this
      ensures bytes == Chunked(old(bytes))
    {
      var msgLen := (|bytes| * 8) % USIZE;
      bytes := bytes + [ByteOf(SEPARATOR)];
      var chunkUsedSpace := |bytes| % 64;
      if chunkUsedSpace < 56 {
        Resize(|bytes| + 56 - chunkUsedSpace);
      } else {
        Resize(|bytes| + 64 + 56 - chunkUsedSpace);
      }
      bytes := bytes + BigEndianNumber(msgLen, 8);
    }

    /** Vec::resize with zeros, for a length that is no smaller. */
    method Resize(n: nat)
      requires n >= |bytes|
      modifies this
      ensures bytes == old(bytes) + Zeros(n - |old(bytes)|)
    {
      bytes := bytes + seq(n - |bytes|, _ => ByteOf(0));
    }
  }

  // ---- Reading the length back ----

  function ReadNumber(s: seq<Byte>): nat {
    if |s| == 0 then 0 else 0x100 * ReadNumber(s[..|s| - 1]) + Value(s[|s| - 1])
  }

  lemma {:induction false} NumberRoundTrip(n: nat, bytes: nat)
    requires n < Pow2(8 * bytes)
    ensures ReadNumber(BigEndianNumber(n, bytes)) == n
  {
    if bytes > 0 {
      ByteFactor(bytes);
      NumberRoundTrip(n / 0x100, bytes - 1);
      var s := BigEndianNumber(n, bytes);
      assert s[..|s| - 1] == BigEndianNumber(n / 0x100, bytes - 1);
      ValueOfBits(n, 8);
      assert Pow2(8) == 0x100;
    }
  }

  lemma {:induction false} Pow2Adds(m: nat, n: nat)
    ensures Pow2(m + n) == Pow2(m) * Pow2(n)
  {
    if m > 0 {
      Pow2Adds(m - 1, n);
    }
  }

  lemma ByteFactor(bytes: nat)
    requires bytes > 0
    ensures Pow2(8 * bytes) == 0x100 * Pow2(8 * (bytes - 1))
  {
    Pow2Adds(8, 8 * (bytes - 1));
    assert Pow2(8) == 0x100;
  }

  lemma SixtyFourBits()
    ensures Pow2(8 * 8) == USIZE * USIZE
  {
    assert Pow2(8) == 0x100;
    Pow2Adds(8, 8);
    assert Pow2(16) == 0x1_0000;
    Pow2Adds(16, 16);
    assert Pow2(32) == USIZE;
    Pow2Adds(32, 32);
  }

  // ---- What make_chunk achieves ----

  lemma WholeBlocks(message: seq<Byte>)
    ensures |Chunked(message)| % 64 == 0
  {
  }

  /** It is the padding of section 5.1.1 exactly for these messages. */
  predicate Conforms(message: seq<Byte>) {
    |message| % 64 != 55 && 8 * |message| < USIZE
  }

  lemma ZerosAgree(n: nat)
    ensures ZerosAppended(n) == if n % 64 == 55 then ZeroBytes(n) + 64 else ZeroBytes(n)
  {
  }

  lemma SameHead(head: seq<Byte>, x: seq<Byte>, y: seq<Byte>)
    ensures head + x == head + y <==> x == y
  {
    assert (head + x)[|head|..] == x && (head + y)[|head|..] == y;
  }

  lemma SameNumber(m: nat, n: nat)
    requires m < Pow2(64) && n < Pow2(64)
    ensures BigEndianNumber(m, 8) == BigEndianNumber(n, 8) <==> m == n
  {
    hide Pow2, BigEndianNumber;
    NumberRoundTrip(m, 8);
    NumberRoundTrip(n, 8);
  }

  lemma CutLength(n: nat)
    requires n < Pow2(64)
    ensures n % USIZE < Pow2(64) && (n % USIZE == n <==> n < USIZE)
  {
    hide Pow2;
    SixtyFourBits();
  }

  lemma MakeChunkIsFipsPadding(message: seq<Byte>)
    requires 8 * |message| < Pow2(64)
    ensures Chunked(message) == Pad(message) <==> Conforms(message)
  {
    hide Pow2, BigEndianNumber, ByteOf, ZerosAppended, ZeroBytes, Zeros;
    var n := 8 * |message|;
    ZerosAgree(|message|);
    if |message| % 64 == 55 {
      assert |Chunked(message)| == |Pad(message)| + 64;
    } else {
      CutLength(n);
      SameNumber(n % USIZE, n);
      SameHead(message + [ByteOf(SEPARATOR)] + Zeros(ZeroBytes(|message|)), BigEndianNumber(n % USIZE, 8),
        BigEndianNumber(n, 8));
    }
  }

  /** The failing family: one block too many when the length just fits. */
  lemma OneBlockTooMany(message: seq<Byte>)
    requires |message| % 64 == 55 && 8 * |message| < Pow2(64)
    ensures |Chunked(message)| == |Pad(message)| + 64
  {
    hide Pow2, BigEndianNumber, ByteOf;
    ZerosAgree(|message|);
  }

  // ---- Reading the message back ----

  const FIELD_SIZE := 8

  /** The residues of a message length that the length field of a 32-bit usize tells apart. */
  const LENGTHS := USIZE / 8

  /** The padded length tells the message length to within 64, and the length field to within LENGTHS. */
  function LengthOf(padded: seq<Byte>): int
    requires |padded| >= FIELD_SIZE
  {
    var most := |padded| - 10;
    most - (most - ReadNumber(padded[|padded| - FIELD_SIZE..]) / 8) % LENGTHS
  }

  function Unchunk(padded: seq<Byte>): seq<Byte>
    requires |padded| >= FIELD_SIZE
  {
    var n := LengthOf(padded);
    if 0 <= n <= |padded| then padded[..n] else padded
  }

  /** The padding takes from 10 to 73 bytes. */
  lemma PaddingSize(message: seq<Byte>)
    ensures |message| + 10 <= |Chunked(message)| <= |message| + 73
  {
  }

  lemma LengthField(message: seq<Byte>)
    ensures var c := Chunked(message);
            ReadNumber(c[|c| - FIELD_SIZE..]) == 8 * |message| % USIZE
  {
    hide Pow2, BigEndianNumber, ByteOf, ReadNumber;
    var c := Chunked(message);
    var n := 8 * |message| % USIZE;
    assert c[|c| - FIELD_SIZE..] == BigEndianNumber(n, 8);
    SixtyFourBits();
    NumberRoundTrip(n, 8);
  }

  /** A number is known from its residue and an upper bound that is close enough. */
  lemma NearestBelow(n: nat, most: nat, field: nat)
    requires n <= most < n + 64 && field == n % LENGTHS
    ensures most - (most - field) % LENGTHS == n
  {
    RemainderIs(most - field, LENGTHS, n / LENGTHS, most - n);
  }

  lemma EightTimes(n: nat, q: nat, r: nat)
    requires n == q * LENGTHS + r
    ensures 8 * n == q * USIZE + 8 * r
  {
  }

  lemma BitsInField(n: nat)
    ensures 8 * n % USIZE / 8 == n % LENGTHS
  {
    var q, r := n / LENGTHS, n % LENGTHS;
    QuotientBounds(n, LENGTHS);
    EightTimes(n, q, r);
    RemainderIs(8 * n, USIZE, q, 8 * r);
    QuotientIs(8 * r, 8, r, 0);
  }

  lemma MessageComesFirst(message: seq<Byte>)
    ensures |message| <= |Chunked(message)| && Chunked(message)[..|message|] == message
  {
  }

  /** Every message can be read back, those whose bit count overflows included. */
  lemma MessageRecoverable(message: seq<Byte>)
    ensures Unchunk(Chunked(message)) == message
  {
    hide ReadNumber, Chunked;
    var c, n := Chunked(message), |message|;
    PaddingSize(message);
    LengthField(message);
    BitsInField(n);
    NearestBelow(n, |c| - 10, n % LENGTHS);
    MessageComesFirst(message);
  }

  /** Different messages are padded differently. */
  lemma PaddingIsInjective(message: seq<Byte>, other: seq<Byte>)
    requires Chunked(message) == Chunked(other)
    ensures message == other
  {
    hide Unchunk, Chunked;
    MessageRecoverable(message);
    MessageRecoverable(other);
  }

  /** A reader that takes the length field at face value. */
  function TrustingUnchunk(padded: seq<Byte>): seq<Byte>
    requires |padded| >= FIELD_SIZE
  {
    var n := ReadNumber(padded[|padded| - FIELD_SIZE..]) / 8;
    if n <= |padded| then padded[..n] else padded
  }

  /** Such a reader gets the message exactly when the bit count fits a usize. */
  lemma FieldSuffices(message: seq<Byte>)
    ensures TrustingUnchunk(Chunked(message)) == message <==> 8 * |message| < USIZE
  {
    hide ReadNumber, ZerosAppended;
    var c := Chunked(message);
    var n := 8 * |message| % USIZE;
    LengthField(message);
    assert n / 8 <= |message|;
    assert c[..n / 8] == message[..n / 8];
  }
}
