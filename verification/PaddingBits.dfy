/** Section 5.1.1 of FIPS 180-4 as it is written, in bits. */
module PaddingBits {
  import opened Division
  import opened Words
  import opened Fips180

  /** The bits of a byte, the most significant one first. */
  function ByteString(b: Byte): seq<bool> { [b[7], b[6], b[5], b[4], b[3], b[2], b[1], b[0]] }

  function BitString(bytes: seq<Byte>): seq<bool> {
    if |bytes| == 0 then [] else BitString(bytes[..|bytes| - 1]) + ByteString(bytes[|bytes| - 1])
  }

  /** A number in so many bits, the most significant one first. */
  function NumberString(n: nat, width: nat): (s: seq<bool>)
    ensures |s| == width
  {
    if width == 0 then [] else NumberString(n / 2, width - 1) + [n % 2 == 1]
  }

  function Clear(n: nat): seq<bool> { seq(n, _ => false) }

  lemma {:induction false} BitStringAppend(a: seq<Byte>, b: seq<Byte>)
    ensures BitString(a + b) == BitString(a) + BitString(b)
    ensures |BitString(a)| == 8 * |a|
    decreases |a| + |b|
  {
    hide ByteString;
    if |b| == 0 {
      assert a + b == a;
      BitCount(a);
    } else {
      var n := |b| - 1;
      assert (a + b)[..|a| + n] == a + b[..n];
      BitStringAppend(a, b[..n]);
    }
  }

  lemma {:induction false} BitCount(a: seq<Byte>)
    ensures |BitString(a)| == 8 * |a|
  {
    if |a| > 0 {
      BitCount(a[..|a| - 1]);
    }
  }

  lemma OneByte(b: Byte)
    ensures BitString([b]) == ByteString(b)
  {
    assert [b][..0] == [];
  }

  lemma BitOfHalf(n: nat, i: nat)
    ensures Bit(n / 2, i) == Bit(n, i + 1)
  {
    QuotientOfQuotient(n, 2, Pow2(i));
  }

  lemma BitZero(n: nat)
    ensures Bit(n, 0) <==> n % 2 == 1
  {
    assert Pow2(0) == 1;
  }

  /** The digits of a number are its bits. */
  lemma {:induction false} DigitIsBit(n: nat, width: nat, j: nat)
    requires j < width
    ensures NumberString(n, width)[j] == Bit(n, width - 1 - j)
  {
    hide Bit;
    if j == width - 1 {
      BitZero(n);
    } else {
      DigitIsBit(n / 2, width - 1, j);
      BitOfHalf(n, width - 2 - j);
    }
  }

  lemma ByteDigits(n: nat)
    ensures NumberString(n, 8) == ByteString(ByteOf(n))
  {
    hide Bit, NumberString;
    forall j | 0 <= j < 8
      ensures NumberString(n, 8)[j] == ByteString(ByteOf(n))[j]
    {
      DigitIsBit(n, 8, j);
    }
  }

  /** What is left of a number without its low digits. */
  function HighPart(n: nat, low: nat): nat { if low == 0 then n else HighPart(n / 2, low - 1) }

  lemma HighPartOfByte(n: nat)
    ensures HighPart(n, 8) == n / 0x100
  {
    var n1 := n / 2;
    var n2 := n1 / 2;
    var n3 := n2 / 2;
    var n4 := n3 / 2;
    var n5 := n4 / 2;
    var n6 := n5 / 2;
    var n7 := n6 / 2;
    assert HighPart(n7, 1) == n7 / 2;
    assert HighPart(n6, 2) == n7 / 2;
    assert HighPart(n5, 3) == n7 / 2;
    assert HighPart(n4, 4) == n7 / 2;
    assert HighPart(n3, 5) == n7 / 2;
    assert HighPart(n2, 6) == n7 / 2;
    assert HighPart(n1, 7) == n7 / 2;
  }

  lemma {:induction false} DigitsSplit(n: nat, high: nat, low: nat)
    ensures NumberString(n, high + low) == NumberString(HighPart(n, low), high) + NumberString(n, low)
  {
    if low > 0 {
      DigitsSplit(n / 2, high, low - 1);
    }
  }

  lemma LastByte(n: nat, bytes: nat)
    requires bytes > 0
    ensures BigEndianNumber(n, bytes) == BigEndianNumber(n / 0x100, bytes - 1) + [ByteOf(n)]
  {
  }

  /** The big-endian bytes of a number are its digits. */
  lemma {:induction false} NumberInBits(n: nat, bytes: nat)
    ensures BitString(BigEndianNumber(n, bytes)) == NumberString(n, 8 * bytes)
  {
    hide ByteString, ByteOf, HighPart, BigEndianNumber, NumberString, BitString;
    if bytes > 0 {
      NumberInBits(n / 0x100, bytes - 1);
      LastByte(n, bytes);
      BitStringAppend(BigEndianNumber(n / 0x100, bytes - 1), [ByteOf(n)]);
      OneByte(ByteOf(n));
      ByteDigits(n);
      HighPartOfByte(n);
      DigitsSplit(n, 8 * (bytes - 1), 8);
    } else {
      NoDigits(n);
    }
  }

  lemma NoDigits(n: nat)
    ensures BitString(BigEndianNumber(n, 0)) == NumberString(n, 0)
  {
  }

  lemma SeparatorInBits()
    ensures ByteString(ByteOf(0x80)) == [true] + Clear(7) && ByteString(ByteOf(0)) == Clear(8)
  {
    ByteDigits(0x80);
    ByteDigits(0);
    assert NumberString(0, 8) == Clear(8);
    assert NumberString(0x80, 8) == [true] + Clear(7);
  }

  lemma {:induction false} ZerosInBits(n: nat)
    ensures BitString(Zeros(n)) == Clear(8 * n)
  {
    if n > 0 {
      hide ByteString;
      ZerosInBits(n - 1);
      assert Zeros(n)[..n - 1] == Zeros(n - 1);
      SeparatorInBits();
      assert Clear(8 * (n - 1)) + Clear(8) == Clear(8 * n);
    }
  }

  /** So many zero bits after a message of l bits and the 1 bit leave just room for the length in the last block. */
  predicate ZerosFit(l: nat, k: nat) { (l + 1 + k) % 512 == 448 }

  lemma FitsFits(n: nat, z: nat)
    requires LengthFits(n, z)
    ensures ZerosFit(8 * n, 7 + 8 * z)
  {
    var q := (n + 1 + z) / 64;
    RemainderIs(8 * n + 1 + (7 + 8 * z), 512, q, 448);
  }

  lemma FitsOnly(n: nat, k: nat)
    requires ZerosFit(8 * n, k)
    ensures k % 8 == 7 && LengthFits(n, k / 8)
  {
    var q := (8 * n + 1 + k) / 512;
    var w := 64 * q + 55 - n;
    assert k == 8 * w + 7;
    RemainderIs(n + 1 + w, 64, q, 56);
  }

  /** The least k with that property. */
  lemma LeastZeros(n: nat, k: nat)
    ensures ZerosFit(8 * n, 7 + 8 * ZeroBytes(n))
    ensures ZerosFit(8 * n, k) ==> 7 + 8 * ZeroBytes(n) <= k
  {
    hide ZerosFit, LengthFits;
    FitsFits(n, ZeroBytes(n));
    if ZerosFit(8 * n, k) {
      FitsOnly(n, k);
      assert ZeroBytes(n) <= k / 8;
    }
  }

  /**
   * The padded message: the message, a 1 bit, the least number of 0 bits that fits, and the length of the message in
   * bits as a number of 64 bits.
   */
  lemma PaddingInBits(message: seq<Byte>) returns (k: nat)
    requires 8 * |message| < Pow2(64)
    ensures ZerosFit(8 * |message|, k) && forall k': nat :: ZerosFit(8 * |message|, k') ==> k <= k'
    ensures BitString(Pad(message)) == BitString(message) + [true] + Clear(k) + NumberString(8 * |message|, 64)
  {
    hide BitString, ByteString, ByteOf, NumberString, Zeros, BigEndianNumber, ZeroBytes, ZerosFit, Pow2;
    var z, l := ZeroBytes(|message|), 8 * |message|;
    k := 7 + 8 * z;
    LeastZeros(|message|, 0);
    forall k': nat | ZerosFit(l, k')
      ensures k <= k'
    {
      LeastZeros(|message|, k');
    }
    BitStringAppend(message, [ByteOf(0x80)]);
    OneByte(ByteOf(0x80));
    SeparatorInBits();
    BitStringAppend(message + [ByteOf(0x80)], Zeros(z));
    ZerosInBits(z);
    BitStringAppend(message + [ByteOf(0x80)] + Zeros(z), BigEndianNumber(l, 8));
    NumberInBits(l, 8);
    assert [true] + Clear(7) + Clear(8 * z) == [true] + Clear(k);
    var m, number := BitString(message), NumberString(l, 64);
    assert m + ([true] + Clear(7)) + Clear(8 * z) + number == m + ([true] + Clear(7) + Clear(8 * z)) + number;
    assert m + ([true] + Clear(k)) + number == m + [true] + Clear(k) + number;
  }
}
