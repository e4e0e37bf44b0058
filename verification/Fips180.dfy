/**
 * SHA-256 as FIPS 180-4 defines it. The round constants are shared with the ROM; ConstantDerivation.dfy derives
 * them, and the initial hash value, from the primes.
 */
module Fips180 {
  import opened Words
  import opened RoundConstants

  // ---- Section 4.1.2: functions ----

  function Rotr(x: Word, n: nat): Word
    requires n < 32
  {
    Or(Shr(x, n), Shl(x, 32 - n))
  }

  function Ch(x: Word, y: Word, z: Word): Word { Xor(And(x, y), And(Not(x), z)) }

  function Maj(x: Word, y: Word, z: Word): Word { Xor(Xor(And(x, y), And(x, z)), And(y, z)) }

  function BigSigma0(x: Word): Word { Xor(Xor(Rotr(x, 2), Rotr(x, 13)), Rotr(x, 22)) }

  function BigSigma1(x: Word): Word { Xor(Xor(Rotr(x, 6), Rotr(x, 11)), Rotr(x, 25)) }

  function SmallSigma0(x: Word): Word { Xor(Xor(Rotr(x, 7), Rotr(x, 18)), Shr(x, 3)) }

  function SmallSigma1(x: Word): Word { Xor(Xor(Rotr(x, 17), Rotr(x, 19)), Shr(x, 10)) }

  // ---- Section 6.2.2: hash computation ----

  datatype Vars = Vars(a: Word, b: Word, c: Word, d: Word, e: Word, f: Word, g: Word, h: Word)

  /** Enough of a block has been given to compute the first n words of its schedule. */
  predicate Determines(block: seq<Word>, n: nat) {
    |block| >= 16 || n <= |block|
  }

  /** W_t, the message schedule. */
  function Schedule(block: seq<Word>, t: nat): Word
    requires Determines(block, t + 1)
    decreases block, t
  {
    if t < 16 then block[t]
    else Add(Add(Add(SmallSigma1(Schedule(block, t - 2)), Schedule(block, t - 7)),
                 SmallSigma0(Schedule(block, t - 15))), Schedule(block, t - 16))
  }

  function Temp1(v: Vars, k: Word, w: Word): Word {
    Add(Add(Add(Add(v.h, BigSigma1(v.e)), Ch(v.e, v.f, v.g)), k), w)
  }

  function Temp2(v: Vars): Word { Add(BigSigma0(v.a), Maj(v.a, v.b, v.c)) }

  /** One round, step 3 of the algorithm. */
  function Round(v: Vars, k: Word, w: Word): Vars {
    var t1 := Temp1(v, k, w);
    Vars(Add(t1, Temp2(v)), v.a, v.b, v.c, Add(v.d, t1), v.e, v.f, v.g)
  }

  /** The working variables after the first n rounds over a block. */
  function Rounds(hash: Vars, block: seq<Word>, n: nat): Vars
    requires n <= 64 && Determines(block, n)
    decreases block, n
  {
    if n == 0 then hash
    else Round(Rounds(hash, block, n - 1), WordOf(Rom(n - 1)), Schedule(block, n - 1))
  }

  /** Step 4: the next intermediate hash value. */
  function AddVars(x: Vars, y: Vars): Vars {
    Vars(Add(x.a, y.a), Add(x.b, y.b), Add(x.c, y.c), Add(x.d, y.d),
         Add(x.e, y.e), Add(x.f, y.f), Add(x.g, y.g), Add(x.h, y.h))
  }

  function Compress(hash: Vars, block: seq<Word>): Vars
    requires |block| == 16
  {
    AddVars(hash, Rounds(hash, block, 64))
  }

  /** Section 5.3.3: the initial hash value. */
  function InitialWord(t: nat): nat
    requires t < 8
  {
    match t
    case 0 => 0x6a09e667 case 1 => 0xbb67ae85 case 2 => 0x3c6ef372 case 3 => 0xa54ff53a
    case 4 => 0x510e527f case 5 => 0x9b05688c case 6 => 0x1f83d9ab case _ => 0x5be0cd19
  }

  function InitialHash(): Vars {
    Vars(WordOf(InitialWord(0)), WordOf(InitialWord(1)), WordOf(InitialWord(2)), WordOf(InitialWord(3)),
         WordOf(InitialWord(4)), WordOf(InitialWord(5)), WordOf(InitialWord(6)), WordOf(InitialWord(7)))
  }

  /** The hash value after the first n sixteen-word blocks of a word sequence. */
  function HashBlocks(words: seq<Word>, n: nat): Vars
    requires 16 * n <= |words|
  {
    if n == 0 then InitialHash()
    else Compress(HashBlocks(words, n - 1), words[16 * (n - 1)..16 * n])
  }

  // ---- Section 5.1.1: padding, for messages of whole bytes ----

  const SEPARATOR := 0x80

  /** A number in so many bytes, the most significant one first. */
  function BigEndianNumber(n: nat, bytes: nat): (s: seq<Byte>)
    ensures |s| == bytes
  {
    if bytes == 0 then [] else BigEndianNumber(n / 0x100, bytes - 1) + [ByteOf(n)]
  }

  function Zeros(n: nat): (z: seq<Byte>)
    ensures |z| == n
  {
    seq(n, _ => ByteOf(0))
  }

  /** With k zero bytes after n message bytes and the separator, the length just fills a block. */
  predicate LengthFits(n: nat, k: nat) { (n + 1 + k) % 64 == 56 }

  /** The least such number of zero bytes. */
  function ZeroBytes(n: nat): (z: nat)
    ensures LengthFits(n, z)
    ensures forall k: nat :: LengthFits(n, k) ==> z <= k
  {
    (119 - n % 64) % 64
  }

  function Pad(message: seq<Byte>): seq<Byte>
    requires 8 * |message| < Pow2(64)
  {
    message + [ByteOf(SEPARATOR)] + Zeros(ZeroBytes(|message|)) + BigEndianNumber(8 * |message|, 8)
  }

  // ---- Sections 5.2.1 and 6.2: parsing and the digest ----

  function Parse(bytes: seq<Byte>): (words: seq<Word>)
    ensures |words| == |bytes| / 4
  {
    seq(|bytes| / 4, i requires 0 <= i < |bytes| / 4 =>
      BigEndian(bytes[4 * i], bytes[4 * i + 1], bytes[4 * i + 2], bytes[4 * i + 3]))
  }

  function Digest(h: Vars): (d: seq<Byte>)
    ensures |d| == 32
  {
    BigEndianBytes(h.a) + BigEndianBytes(h.b) + BigEndianBytes(h.c) + BigEndianBytes(h.d)
    + BigEndianBytes(h.e) + BigEndianBytes(h.f) + BigEndianBytes(h.g) + BigEndianBytes(h.h)
  }

  /** The hash of a sequence of words, taken in blocks of sixteen. */
  function HashWords(words: seq<Word>): Vars { HashBlocks(words, |words| / 16) }

  function Sha256(message: seq<Byte>): seq<Byte>
    requires 8 * |message| < Pow2(64)
  {
    Digest(HashWords(Parse(Pad(message))))
  }
}
