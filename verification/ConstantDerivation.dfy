/** Where the constants come from: sections 4.2.2 and 5.3.3 of FIPS 180-4. */
module ConstantDerivation {
  import opened RoundConstants
  import opened Fips180
  import opened Primes

  function Square(x: nat): nat { x * x }

  function Cube(x: nat): nat { x * x * x }

  /** k holds the first 32 bits of the fraction of the cube root of p, for p from 1 to 342. */
  predicate CubeRoot(p: nat, k: nat) {
    var floor := if p < 8 then 1 else if p < 27 then 2 else if p < 64 then 3
                 else if p < 125 then 4 else if p < 216 then 5 else 6;
    var root := floor * 0x1_0000_0000 + k;
    k < 0x1_0000_0000 && Cube(root) <= p * 0x1_0000_0000_0000_0000_0000_0000 < Cube(root + 1)
  }

  /** k holds the first 32 bits of the fraction of the square root of p, for p from 1 to 24. */
  predicate SquareRoot(p: nat, k: nat) {
    var floor := if p < 4 then 1 else if p < 9 then 2 else if p < 16 then 3 else 4;
    var root := floor * 0x1_0000_0000 + k;
    k < 0x1_0000_0000 && Square(root) <= p * 0x1_0000_0000_0000_0000 < Square(root + 1)
  }

  /** Every word of the ROM is the fraction of the cube root of its prime: the one that exactly t primes precede. */
  lemma RomFromCubeRoots(t: nat)
    requires t < 64
    ensures IsPrime(PrimeAt(t)) && PrimesBelow(PrimeAt(t)) == t && CubeRoot(PrimeAt(t), Rom(t))
  {
    hide PrimeAt, IsPrime, PrimesBelow, CubeRoot, Rom;
    TableOfPrimes(t);
    RomOfTable(t);
  }

  lemma CubeGrows(x: nat, y: nat)
    requires x <= y
    ensures Cube(x) <= Cube(y)
  {
    assert x * x <= y * y;
    assert x * x * x <= y * y * y;
  }

  /** The fraction is determined by the number. */
  lemma CubeRootIsUnique(p: nat, j: nat, k: nat)
    requires CubeRoot(p, j) && CubeRoot(p, k)
    ensures j == k
  {
    hide Cube;
    var floor := if p < 8 then 1 else if p < 27 then 2 else if p < 64 then 3
                 else if p < 125 then 4 else if p < 216 then 5 else 6;
    var x, y := floor * 0x1_0000_0000 + j, floor * 0x1_0000_0000 + k;
    if j < k {
      CubeGrows(x + 1, y);
    } else if k < j {
      CubeGrows(y + 1, x);
    }
  }

  lemma RomOfTable(t: nat)
    requires t < 64
    ensures CubeRoot(PrimeAt(t), Rom(t))
  {
    hide CubeRoot;
    CubeRoots0();
    CubeRoots1();
    CubeRoots2();
    CubeRoots3();
    match t {
      case 0 => case 1 => case 2 => case 3 => case 4 => case 5 => case 6 => case 7 =>
      case 8 => case 9 => case 10 => case 11 => case 12 => case 13 => case 14 => case 15 =>
      case 16 => case 17 => case 18 => case 19 => case 20 => case 21 => case 22 => case 23 =>
      case 24 => case 25 => case 26 => case 27 => case 28 => case 29 => case 30 => case 31 =>
      case 32 => case 33 => case 34 => case 35 => case 36 => case 37 => case 38 => case 39 =>
      case 40 => case 41 => case 42 => case 43 => case 44 => case 45 => case 46 => case 47 =>
      case 48 => case 49 => case 50 => case 51 => case 52 => case 53 => case 54 => case 55 =>
      case 56 => case 57 => case 58 => case 59 => case 60 => case 61 => case 62 => case _ =>
    }
  }

  lemma CubeRoots0()
    ensures CubeRoot(2, 0x428a2f98) && CubeRoot(3, 0x71374491) && CubeRoot(5, 0xb5c0fbcf)
    ensures CubeRoot(7, 0xe9b5dba5) && CubeRoot(11, 0x3956c25b) && CubeRoot(13, 0x59f111f1)
    ensures CubeRoot(17, 0x923f82a4) && CubeRoot(19, 0xab1c5ed5) && CubeRoot(23, 0xd807aa98)
    ensures CubeRoot(29, 0x12835b01) && CubeRoot(31, 0x243185be) && CubeRoot(37, 0x550c7dc3)
    ensures CubeRoot(41, 0x72be5d74) && CubeRoot(43, 0x80deb1fe) && CubeRoot(47, 0x9bdc06a7)
    ensures CubeRoot(53, 0xc19bf174)
  {
  }

  lemma CubeRoots1()
    ensures CubeRoot(59, 0xe49b69c1) && CubeRoot(61, 0xefbe4786) && CubeRoot(67, 0x0fc19dc6)
    ensures CubeRoot(71, 0x240ca1cc) && CubeRoot(73, 0x2de92c6f) && CubeRoot(79, 0x4a7484aa)
    ensures CubeRoot(83, 0x5cb0a9dc) && CubeRoot(89, 0x76f988da) && CubeRoot(97, 0x983e5152)
    ensures CubeRoot(101, 0xa831c66d) && CubeRoot(103, 0xb00327c8) && CubeRoot(107, 0xbf597fc7)
    ensures CubeRoot(109, 0xc6e00bf3) && CubeRoot(113, 0xd5a79147) && CubeRoot(127, 0x06ca6351)
    ensures CubeRoot(131, 0x14292967)
  {
  }

  lemma CubeRoots2()
    ensures CubeRoot(137, 0x27b70a85) && CubeRoot(139, 0x2e1b2138) && CubeRoot(149, 0x4d2c6dfc)
    ensures CubeRoot(151, 0x53380d13) && CubeRoot(157, 0x650a7354) && CubeRoot(163, 0x766a0abb)
    ensures CubeRoot(167, 0x81c2c92e) && CubeRoot(173, 0x92722c85) && CubeRoot(179, 0xa2bfe8a1)
    ensures CubeRoot(181, 0xa81a664b) && CubeRoot(191, 0xc24b8b70) && CubeRoot(193, 0xc76c51a3)
    ensures CubeRoot(197, 0xd192e819) && CubeRoot(199, 0xd6990624) && CubeRoot(211, 0xf40e3585)
    ensures CubeRoot(223, 0x106aa070)
  {
  }

  lemma CubeRoots3()
    ensures CubeRoot(227, 0x19a4c116) && CubeRoot(229, 0x1e376c08) && CubeRoot(233, 0x2748774c)
    ensures CubeRoot(239, 0x34b0bcb5) && CubeRoot(241, 0x391c0cb3) && CubeRoot(251, 0x4ed8aa4a)
    ensures CubeRoot(257, 0x5b9cca4f) && CubeRoot(263, 0x682e6ff3) && CubeRoot(269, 0x748f82ee)
    ensures CubeRoot(271, 0x78a5636f) && CubeRoot(277, 0x84c87814) && CubeRoot(281, 0x8cc70208)
    ensures CubeRoot(283, 0x90befffa) && CubeRoot(293, 0xa4506ceb) && CubeRoot(307, 0xbef9a3f7)
    ensures CubeRoot(311, 0xc67178f2)
  {
  }

  /** Every word of the initial hash value is the fraction of the square root of its prime. */
  lemma InitialHashFromSquareRoots(t: nat)
    requires t < 8
    ensures IsPrime(PrimeAt(t)) && PrimesBelow(PrimeAt(t)) == t && SquareRoot(PrimeAt(t), InitialWord(t))
  {
    hide PrimeAt, IsPrime, PrimesBelow, SquareRoot, InitialWord;
    TableOfPrimes(t);
    InitialHashOfTable(t);
  }

  lemma InitialHashOfTable(t: nat)
    requires t < 8
    ensures SquareRoot(PrimeAt(t), InitialWord(t))
  {
    hide SquareRoot;
    SquareRoots();
    match t {
      case 0 => case 1 => case 2 => case 3 => case 4 => case 5 => case 6 => case _ =>
    }
  }

  lemma SquareRoots()
    ensures SquareRoot(2, 0x6a09e667) && SquareRoot(3, 0xbb67ae85) && SquareRoot(5, 0x3c6ef372)
    ensures SquareRoot(7, 0xa54ff53a) && SquareRoot(11, 0x510e527f) && SquareRoot(13, 0x9b05688c)
    ensures SquareRoot(17, 0x1f83d9ab) && SquareRoot(19, 0x5be0cd19)
  {
  }
}
