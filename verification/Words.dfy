/** Registers as rows of bits, least significant bit first, and the two byte orders that meet on the bus. */
module Words {
  import opened Division

  type Byte = b: seq<bool> | |b| == 8 witness seq(8, _ => false)
  type Word = w: seq<bool> | |w| == 32 witness seq(32, _ => false)

  // ---- Bitwise operations ----

  function Zero(): Word { seq(32, _ => false) }

  function And(x: Word, y: Word): Word { seq(32, i requires 0 <= i < 32 => x[i] && y[i]) }

  function Or(x: Word, y: Word): Word { seq(32, i requires 0 <= i < 32 => x[i] || y[i]) }

  function Xor(x: Word, y: Word): Word { seq(32, i requires 0 <= i < 32 => x[i] != y[i]) }

  function Not(x: Word): Word { seq(32, i requires 0 <= i < 32 => !x[i]) }

  /** Shift right by n: towards bit 0. */
  function Shr(x: Word, n: nat): Word { seq(32, i requires 0 <= i < 32 => i + n < 32 && x[i + n]) }

  /** Shift left by n: towards bit 31. */
  function Shl(x: Word, n: nat): Word { seq(32, i requires 0 <= i < 32 => i >= n && x[i - n]) }

  // ---- Numbers ----

  function Pow2(n: nat): (p: nat)
    ensures p > 0
  {
    if n == 0 then 1 else 2 * Pow2(n - 1)
  }

  function BitValue(b: bool): nat { if b then 1 else 0 }

  /** The number that a row of bits stands for. */
  function Value(x: seq<bool>): nat {
    if |x| == 0 then 0 else Value(x[..|x| - 1]) + Pow2(|x| - 1) * BitValue(x[|x| - 1])
  }

  /** Bit i of a number. */
  predicate Bit(n: nat, i: nat) { n / Pow2(i) % 2 == 1 }

  /** The low bits of a number. */
  function Bits(n: nat, width: nat): (b: seq<bool>)
    ensures |b| == width
  {
    seq(width, i requires i >= 0 => Bit(n, i))
  }

  function WordOf(n: nat): Word { Bits(n, 32) }

  function ByteOf(n: nat): Byte { Bits(n, 8) }

  lemma {:induction false} ValueBound(x: seq<bool>)
    ensures Value(x) < Pow2(|x|)
  {
    if |x| > 0 {
      ValueBound(x[..|x| - 1]);
    }
  }

  lemma {:induction false} ValueInjective(x: seq<bool>, y: seq<bool>)
    requires |x| == |y| && Value(x) == Value(y)
    ensures x == y
  {
    if |x| > 0 {
      var n := |x| - 1;
      ValueBound(x[..n]);
      ValueBound(y[..n]);
      ValueInjective(x[..n], y[..n]);
      assert x == x[..n] + [x[n]] && y == y[..n] + [y[n]];
    }
  }

  /** One more bit of a remainder. */
  lemma ModuloOfDouble(n: nat, p: nat)
    requires p > 0
    ensures n % (2 * p) == n % p + p * (n / p % 2)
  {
    var q, r := n / p, n % p;
    QuotientBounds(n, p);
    QuotientBounds(q, 2);
    Regroup(q / 2, q % 2, p);
    LessThanDouble(r, q % 2, p);
    RemainderIs(n, 2 * p, q / 2, r + p * (q % 2));
  }

  lemma Regroup(h: nat, b: nat, p: nat)
    ensures (h * 2 + b) * p == h * (2 * p) + p * b
  {
  }

  lemma LessThanDouble(r: nat, b: nat, p: nat)
    requires r < p && b < 2
    ensures r + p * b < 2 * p
  {
  }

  lemma {:induction false} ValueOfBits(n: nat, width: nat)
    ensures Value(Bits(n, width)) == n % Pow2(width)
  {
    if width > 0 {
      ValueOfBits(n, width - 1);
      assert Bits(n, width)[..width - 1] == Bits(n, width - 1);
      ModuloOfDouble(n, Pow2(width - 1));
    }
  }

  // ---- Addition in registers of 32 bits ----

  predicate Carry(x: seq<bool>, y: seq<bool>, n: nat)
    requires n <= |x| == |y|
  {
    n > 0 && (if x[n - 1] == y[n - 1] then x[n - 1] else Carry(x, y, n - 1))
  }

  /** The adder; the carry out of bit 31 is lost. */
  function Add(x: Word, y: Word): Word {
    seq(32, i requires 0 <= i < 32 => (x[i] != y[i]) != Carry(x, y, i))
  }

  /** One cell of the adder. */
  lemma FullAdder(a: bool, b: bool, c: bool, p: nat)
    ensures p * BitValue((a != b) != c) + 2 * p * BitValue(if a == b then a else c)
         == p * BitValue(a) + p * BitValue(b) + p * BitValue(c)
  {
  }

  lemma ValueOfPrefix(x: seq<bool>, n: nat)
    requires 0 < n <= |x|
    ensures Value(x[..n]) == Value(x[..n - 1]) + Pow2(n - 1) * BitValue(x[n - 1])
  {
    assert x[..n][..n - 1] == x[..n - 1];
  }

  lemma {:induction false} AdderPrefix(x: Word, y: Word, n: nat)
    requires n <= 32
    ensures Value(Add(x, y)[..n]) + Pow2(n) * BitValue(Carry(x, y, n)) == Value(x[..n]) + Value(y[..n])
  {
    if n > 0 {
      hide Value, BitValue;
      AdderPrefix(x, y, n - 1);
      ValueOfPrefix(Add(x, y), n);
      ValueOfPrefix(x, n);
      ValueOfPrefix(y, n);
      FullAdder(x[n - 1], y[n - 1], Carry(x, y, n - 1), Pow2(n - 1));
    }
  }

  /** The remainder modulo 2^32. */
  function Wrapped(n: nat): nat { Slot(Pow2(32), n) }

  /** The adder adds modulo 2^32. */
  lemma AddIsModular(x: Word, y: Word)
    ensures Value(Add(x, y)) == Wrapped(Value(x) + Value(y))
  {
    hide Pow2, Value, Add, Carry;
    AdderPrefix(x, y, 32);
    var s := Add(x, y);
    assert s[..32] == s && x[..32] == x && y[..32] == y;
    ValueBound(s);
    RemainderIs(Value(x) + Value(y), Pow2(32), BitValue(Carry(x, y, 32)), Value(s));
  }

  lemma AddCommutes(x: Word, y: Word)
    ensures Add(x, y) == Add(y, x)
  {
    AddIsModular(x, y);
    AddIsModular(y, x);
    ValueInjective(Add(x, y), Add(y, x));
  }

  lemma AddAssociates(x: Word, y: Word, z: Word)
    ensures Add(Add(x, y), z) == Add(x, Add(y, z))
  {
    hide Add, Pow2, Value, Slot;
    AddIsModular(x, y);
    AddIsModular(y, z);
    AddIsModular(Add(x, y), z);
    AddIsModular(x, Add(y, z));
    SlotAssociates(Pow2(32), Value(x), Value(y), Value(z));
    ValueInjective(Add(Add(x, y), z), Add(x, Add(y, z)));
  }

  // ---- Byte order ----

  /** The byte swap of sha256.v:77, and of the function lsb_to_msb in sha256_chunk_compress.v. */
  function SwapBytes(x: Word): Word { x[24..] + x[16..24] + x[8..16] + x[..8] }

  function SwapAll(xs: seq<Word>): (ys: seq<Word>)
    ensures |ys| == |xs|
    ensures forall i :: 0 <= i < |xs| ==> ys[i] == SwapBytes(xs[i])
  {
    seq(|xs|, i requires 0 <= i < |xs| => SwapBytes(xs[i]))
  }

  /** Most significant byte first: how FIPS 180-4 reads a message. */
  function BigEndian(b0: Byte, b1: Byte, b2: Byte, b3: Byte): Word { b3 + b2 + b1 + b0 }

  /** Least significant byte first: how a little-endian processor loads a bus word. */
  function LittleEndian(b0: Byte, b1: Byte, b2: Byte, b3: Byte): Word { b0 + b1 + b2 + b3 }

  function BigEndianBytes(x: Word): seq<Byte> { [x[24..], x[16..24], x[8..16], x[..8]] }

  function LittleEndianBytes(x: Word): seq<Byte> { [x[..8], x[8..16], x[16..24], x[24..]] }

  /** A byte swap turns one byte order into the other, on the way in and on the way out. */
  lemma SwapTurnsOrder(b0: Byte, b1: Byte, b2: Byte, b3: Byte, x: Word)
    ensures SwapBytes(LittleEndian(b0, b1, b2, b3)) == BigEndian(b0, b1, b2, b3)
    ensures LittleEndianBytes(SwapBytes(x)) == BigEndianBytes(x)
  {
    var y := LittleEndian(b0, b1, b2, b3);
    assert y[..8] == b0 && y[8..16] == b1 && y[16..24] == b2 && y[24..] == b3;
    var z := SwapBytes(x);
    assert z[..8] == x[24..] && z[8..16] == x[16..24] && z[16..24] == x[8..16] && z[24..] == x[..8];
  }
}
