/** The first sixty-four primes. */
module Primes {
  import opened Division

  /** A table of sixty-four numbers, which TableOfPrimes shows to be the first primes. */
  function PrimeAt(t: nat): nat
    requires t < 64
  {
    match t
    case 0 => 2 case 1 => 3 case 2 => 5 case 3 => 7 case 4 => 11 case 5 => 13
    case 6 => 17 case 7 => 19 case 8 => 23 case 9 => 29 case 10 => 31 case 11 => 37
    case 12 => 41 case 13 => 43 case 14 => 47 case 15 => 53 case 16 => 59 case 17 => 61
    case 18 => 67 case 19 => 71 case 20 => 73 case 21 => 79 case 22 => 83 case 23 => 89
    case 24 => 97 case 25 => 101 case 26 => 103 case 27 => 107 case 28 => 109 case 29 => 113
    case 30 => 127 case 31 => 131 case 32 => 137 case 33 => 139 case 34 => 149 case 35 => 151
    case 36 => 157 case 37 => 163 case 38 => 167 case 39 => 173 case 40 => 179 case 41 => 181
    case 42 => 191 case 43 => 193 case 44 => 197 case 45 => 199 case 46 => 211 case 47 => 223
    case 48 => 227 case 49 => 229 case 50 => 233 case 51 => 239 case 52 => 241 case 53 => 251
    case 54 => 257 case 55 => 263 case 56 => 269 case 57 => 271 case 58 => 277 case 59 => 281
    case 60 => 283 case 61 => 293 case 62 => 307 case _ => 311
  }

  predicate IsPrime(n: nat) { n >= 2 && forall d :: 2 <= d < n ==> n % d != 0 }

  /** The number of primes smaller than n. */
  function PrimesBelow(n: nat): nat {
    if n == 0 then 0 else PrimesBelow(n - 1) + if IsPrime(n - 1) then 1 else 0
  }

  // ---- Trial division by the primes up to 17 decides primality up to 360 ----

  predicate Survives(n: nat, p: nat)
    requires p > 0
  {
    n == p || n % p != 0
  }

  predicate Sieved(n: nat) {
    n >= 2 && Survives(n, 2) && Survives(n, 3) && Survives(n, 5) && Survives(n, 7) && Survives(n, 11)
    && Survives(n, 13) && Survives(n, 17)
  }

  lemma SmallPrimeFactor(m: nat) returns (q: nat)
    requires 2 <= m <= 18
    ensures q in {2, 3, 5, 7, 11, 13, 17} && q <= m && m % q == 0
  {
    q := if m % 2 == 0 then 2 else if m % 3 == 0 then 3 else if m % 5 == 0 then 5 else if m % 7 == 0 then 7 else m;
  }

  lemma ProductOfLarge(d: nat, e: nat)
    requires d >= 19 && e >= 19
    ensures d * e >= 361
  {
    assert d * e >= 19 * e;
  }

  lemma FactorOfProduct(q: nat, c: nat, e: nat)
    requires q > 0
    ensures (q * c * e) % q == 0
  {
    assert q * c * e == (c * e) * q;
    RemainderIs(q * c * e, q, c * e, 0);
  }

  lemma DividesOn(n: nat, m: nat, e: nat, q: nat)
    requires n == m * e && q > 0 && m % q == 0
    ensures n % q == 0
  {
    QuotientBounds(m, q);
    var c := m / q;
    assert m == q * c;
    FactorOfProduct(q, c, e);
  }

  lemma ProductIsSievedOut(n: nat, m: nat, k: nat)
    requires n == m * k && 2 <= m <= 18 && k >= 2
    ensures !Sieved(n)
  {
    var q := SmallPrimeFactor(m);
    DividesOn(n, m, k, q);
    assert m * k >= 2 * m;
  }

  lemma Cofactor(n: nat, d: nat) returns (e: nat)
    requires 2 <= d < n && n % d == 0
    ensures n == d * e && e >= 2
  {
    QuotientBounds(n, d);
    e := n / d;
    assert e == 0 ==> d * e == 0;
    assert e == 1 ==> d * e == d;
  }

  /** A number below 361 that has a divisor has one of the seven small primes as a divisor. */
  lemma CompositeIsSievedOut(n: nat, d: nat)
    requires n < 361 && 2 <= d < n && n % d == 0
    ensures !Sieved(n)
  {
    hide Sieved;
    var e := Cofactor(n, d);
    if d >= 19 && e >= 19 {
      ProductOfLarge(d, e);
    } else if d <= 18 {
      ProductIsSievedOut(n, d, e);
    } else {
      ProductIsSievedOut(n, e, d);
    }
  }

  lemma PrimeIsSieved(n: nat)
    requires n < 361
    ensures IsPrime(n) <==> Sieved(n)
  {
    if n >= 2 && !IsPrime(n) {
      var d :| 2 <= d < n && n % d == 0;
      CompositeIsSievedOut(n, d);
    }
    if IsPrime(n) && !Sieved(n) {
      SmallDivisor(n);
    }
  }

  lemma SmallDivisor(n: nat)
    requires n >= 2 && !Sieved(n)
    ensures !IsPrime(n)
  {
    var p := if !Survives(n, 2) then 2 else if !Survives(n, 3) then 3 else if !Survives(n, 5) then 5
             else if !Survives(n, 7) then 7 else if !Survives(n, 11) then 11 else if !Survives(n, 13) then 13 else 17;
    assert n % p == 0 && n != p;
    if n < p {
      RemainderIs(n, p, 0, n);
    }
  }

  // ---- The table ----

  lemma Survivors0()
    ensures Sieved(2) && Sieved(3) && Sieved(5) && Sieved(7) && Sieved(11) && Sieved(13)
    ensures Sieved(17) && Sieved(19) && Sieved(23) && Sieved(29) && Sieved(31) && Sieved(37)
    ensures Sieved(41) && Sieved(43) && Sieved(47) && Sieved(53)
  {
  }

  lemma Survivors1()
    ensures Sieved(59) && Sieved(61) && Sieved(67) && Sieved(71) && Sieved(73) && Sieved(79)
    ensures Sieved(83) && Sieved(89) && Sieved(97) && Sieved(101) && Sieved(103) && Sieved(107)
    ensures Sieved(109) && Sieved(113) && Sieved(127) && Sieved(131)
  {
  }

  lemma Survivors2()
    ensures Sieved(137) && Sieved(139) && Sieved(149) && Sieved(151) && Sieved(157) && Sieved(163)
    ensures Sieved(167) && Sieved(173) && Sieved(179) && Sieved(181) && Sieved(191) && Sieved(193)
    ensures Sieved(197) && Sieved(199) && Sieved(211) && Sieved(223)
  {
  }

  lemma Survivors3()
    ensures Sieved(227) && Sieved(229) && Sieved(233) && Sieved(239) && Sieved(241) && Sieved(251)
    ensures Sieved(257) && Sieved(263) && Sieved(269) && Sieved(271) && Sieved(277) && Sieved(281)
    ensures Sieved(283) && Sieved(293) && Sieved(307) && Sieved(311)
  {
  }

  lemma Quarter0(t: nat)
    requires 0 <= t < 16
    ensures Sieved(PrimeAt(t)) && 2 <= PrimeAt(t) <= 311 && (t > 0 ==> PrimeAt(t - 1) < PrimeAt(t))
  {
    hide Sieved;
    Survivors0();
  }

  lemma Quarter1(t: nat)
    requires 16 <= t < 32
    ensures Sieved(PrimeAt(t)) && 2 <= PrimeAt(t) <= 311 && (t > 0 ==> PrimeAt(t - 1) < PrimeAt(t))
  {
    hide Sieved;
    Survivors1();
  }

  lemma Quarter2(t: nat)
    requires 32 <= t < 48
    ensures Sieved(PrimeAt(t)) && 2 <= PrimeAt(t) <= 311 && (t > 0 ==> PrimeAt(t - 1) < PrimeAt(t))
  {
    hide Sieved;
    Survivors2();
  }

  lemma Quarter3(t: nat)
    requires 48 <= t < 64
    ensures Sieved(PrimeAt(t)) && 2 <= PrimeAt(t) <= 311 && (t > 0 ==> PrimeAt(t - 1) < PrimeAt(t))
  {
    hide Sieved;
    Survivors3();
  }

  lemma TableIsSieved(t: nat)
    requires t < 64
    ensures Sieved(PrimeAt(t)) && 2 <= PrimeAt(t) <= 311
    ensures t > 0 ==> PrimeAt(t - 1) < PrimeAt(t)
  {
    hide Sieved, PrimeAt;
    if t < 16 {
      Quarter0(t);
    } else if t < 32 {
      Quarter1(t);
    } else if t < 48 {
      Quarter2(t);
    } else {
      Quarter3(t);
    }
  }

  lemma EvenIsOut(n: nat)
    requires n > 2 && n % 2 == 0
    ensures !Sieved(n)
  {
  }

  lemma OddOut0()
    ensures !Sieved(9) && !Sieved(15) && !Sieved(21)
  {
  }

  lemma Gap0(t: nat, n: nat)
    requires 0 <= t < 8 && PrimeAt(t) < n < PrimeAt(t + 1)
    ensures !Sieved(n)
  {
    hide Sieved;
    OddOut0();
    if n % 2 == 0 {
      EvenIsOut(n);
    }
  }

  lemma OddOut1()
    ensures !Sieved(25) && !Sieved(27) && !Sieved(33) && !Sieved(35) && !Sieved(39) && !Sieved(45)
    ensures !Sieved(49) && !Sieved(51) && !Sieved(55) && !Sieved(57)
  {
  }

  lemma Gap1(t: nat, n: nat)
    requires 8 <= t < 16 && PrimeAt(t) < n < PrimeAt(t + 1)
    ensures !Sieved(n)
  {
    hide Sieved;
    OddOut1();
    if n % 2 == 0 {
      EvenIsOut(n);
    }
  }

  lemma OddOut2()
    ensures !Sieved(63) && !Sieved(65) && !Sieved(69) && !Sieved(75) && !Sieved(77) && !Sieved(81)
    ensures !Sieved(85) && !Sieved(87) && !Sieved(91) && !Sieved(93) && !Sieved(95)
  {
  }

  lemma Gap2(t: nat, n: nat)
    requires 16 <= t < 24 && PrimeAt(t) < n < PrimeAt(t + 1)
    ensures !Sieved(n)
  {
    hide Sieved;
    OddOut2();
    if n % 2 == 0 {
      EvenIsOut(n);
    }
  }

  lemma OddOut3()
    ensures !Sieved(99) && !Sieved(105) && !Sieved(111) && !Sieved(115) && !Sieved(117) && !Sieved(119)
    ensures !Sieved(121) && !Sieved(123) && !Sieved(125) && !Sieved(129) && !Sieved(133) && !Sieved(135)
  {
  }

  lemma Gap3(t: nat, n: nat)
    requires 24 <= t < 32 && PrimeAt(t) < n < PrimeAt(t + 1)
    ensures !Sieved(n)
  {
    hide Sieved;
    OddOut3();
    if n % 2 == 0 {
      EvenIsOut(n);
    }
  }

  lemma OddOut4()
    ensures !Sieved(141) && !Sieved(143) && !Sieved(145) && !Sieved(147) && !Sieved(153) && !Sieved(155)
    ensures !Sieved(159) && !Sieved(161) && !Sieved(165) && !Sieved(169) && !Sieved(171) && !Sieved(175)
    ensures !Sieved(177)
  {
  }

  lemma Gap4(t: nat, n: nat)
    requires 32 <= t < 40 && PrimeAt(t) < n < PrimeAt(t + 1)
    ensures !Sieved(n)
  {
    hide Sieved;
    OddOut4();
    if n % 2 == 0 {
      EvenIsOut(n);
    }
  }

  lemma OddOut5()
    ensures !Sieved(183) && !Sieved(185) && !Sieved(187) && !Sieved(189) && !Sieved(195) && !Sieved(201)
    ensures !Sieved(203) && !Sieved(205) && !Sieved(207) && !Sieved(209) && !Sieved(213) && !Sieved(215)
    ensures !Sieved(217) && !Sieved(219) && !Sieved(221) && !Sieved(225)
  {
  }

  lemma Gap5(t: nat, n: nat)
    requires 40 <= t < 48 && PrimeAt(t) < n < PrimeAt(t + 1)
    ensures !Sieved(n)
  {
    hide Sieved;
    OddOut5();
    if n % 2 == 0 {
      EvenIsOut(n);
    }
  }

  lemma OddOut6()
    ensures !Sieved(231) && !Sieved(235) && !Sieved(237) && !Sieved(243) && !Sieved(245) && !Sieved(247)
    ensures !Sieved(249) && !Sieved(253) && !Sieved(255) && !Sieved(259) && !Sieved(261) && !Sieved(265)
    ensures !Sieved(267)
  {
  }

  lemma Gap6(t: nat, n: nat)
    requires 48 <= t < 56 && PrimeAt(t) < n < PrimeAt(t + 1)
    ensures !Sieved(n)
  {
    hide Sieved;
    OddOut6();
    if n % 2 == 0 {
      EvenIsOut(n);
    }
  }

  lemma OddOut7()
    ensures !Sieved(273) && !Sieved(275) && !Sieved(279) && !Sieved(285) && !Sieved(287) && !Sieved(289)
    ensures !Sieved(291) && !Sieved(295) && !Sieved(297) && !Sieved(299) && !Sieved(301) && !Sieved(303)
    ensures !Sieved(305) && !Sieved(309)
  {
  }

  lemma Gap7(t: nat, n: nat)
    requires 56 <= t < 63 && PrimeAt(t) < n < PrimeAt(t + 1)
    ensures !Sieved(n)
  {
    hide Sieved;
    OddOut7();
    if n % 2 == 0 {
      EvenIsOut(n);
    }
  }

  /** Nothing between two neighbours of the table is prime. */
  lemma Gap(t: nat, n: nat)
    requires t < 63 && PrimeAt(t) < n < PrimeAt(t + 1)
    ensures !Sieved(n)
  {
    hide PrimeAt, Sieved;
    if t < 8 {
      Gap0(t, n);
    } else if t < 16 {
      Gap1(t, n);
    } else if t < 24 {
      Gap2(t, n);
    } else if t < 32 {
      Gap3(t, n);
    } else if t < 40 {
      Gap4(t, n);
    } else if t < 48 {
      Gap5(t, n);
    } else if t < 56 {
      Gap6(t, n);
    } else {
      Gap7(t, n);
    }
  }

  lemma {:induction false} CountThroughGap(t: nat, n: nat)
    requires t < 63 && PrimeAt(t) < n <= PrimeAt(t + 1)
    ensures PrimesBelow(n) == PrimesBelow(PrimeAt(t)) + 1
  {
    hide PrimeAt, Sieved, IsPrime;
    TableIsSieved(t);
    TableIsSieved(t + 1);
    PrimeIsSieved(n - 1);
    if n - 1 > PrimeAt(t) {
      CountThroughGap(t, n - 1);
      Gap(t, n - 1);
    }
  }

  lemma NoPrimeBelowTwo()
    ensures PrimeAt(0) == 2 && PrimesBelow(2) == 0
  {
    assert !IsPrime(0) && !IsPrime(1);
    assert PrimesBelow(0) == 0 && PrimesBelow(1) == 0;
  }

  /** Entry t of the table is prime, and exactly t primes are smaller. */
  lemma {:induction false} TableOfPrimes(t: nat)
    requires t < 64
    ensures IsPrime(PrimeAt(t)) && PrimesBelow(PrimeAt(t)) == t
  {
    hide PrimeAt, Sieved, IsPrime, PrimesBelow;
    TableIsSieved(t);
    PrimeIsSieved(PrimeAt(t));
    if t == 0 {
      NoPrimeBelowTwo();
    } else {
      TableOfPrimes(t - 1);
      CountThroughGap(t - 1, PrimeAt(t));
    }
  }
}
