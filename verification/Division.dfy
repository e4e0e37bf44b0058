/** The few facts about division that the DMA proofs need. */
module Division {

  lemma QuotientBounds(n: nat, d: nat)
    requires 0 < d
    ensures n / d * d <= n < n / d * d + d && n == n / d * d + n % d
  {
  }

  lemma {:induction false} MultiplesApart(a: nat, b: nat, d: nat)
    requires a < b
    ensures a * d + d <= b * d
  {
    assert b * d == (b - 1) * d + d;
    if a < b - 1 {
      MultiplesApart(a, b - 1, d);
    }
  }

  lemma QuotientIs(n: nat, d: nat, q: nat, r: nat)
    requires n == q * d + r && r < d
    ensures n / d == q
  {
    var k := n / d;
    QuotientBounds(n, d);
    if k < q {
      MultiplesApart(k, q, d);
    } else if q < k {
      MultiplesApart(q, k, d);
    }
  }

  lemma RemainderIs(n: nat, d: nat, q: nat, r: nat)
    requires n == q * d + r && r < d
    ensures n % d == r
  {
    QuotientIs(n, d, q, r);
    QuotientBounds(n, d);
  }

  lemma QuotientGrows(x: nat, y: nat, d: nat)
    requires x <= y && 0 < d
    ensures x / d <= y / d
  {
    QuotientBounds(x, d);
    QuotientBounds(y, d);
    if y / d < x / d {
      MultiplesApart(y / d, x / d, d);
    }
  }

  lemma OneTurnMore(x: nat, d: nat)
    requires 0 < d
    ensures (x + d) / d == x / d + 1 && (x + d) % d == x % d
  {
    QuotientBounds(x, d);
    assert (x / d + 1) * d == x / d * d + d;
    QuotientIs(x + d, d, x / d + 1, x % d);
    RemainderIs(x + d, d, x / d + 1, x % d);
  }

  lemma RemainderOfSum(n: nat, d: nat, x: nat, y: nat, r: nat)
    requires n == x * d + y * d + r && r < d
    ensures n % d == r
  {
    assert (x + y) * d == x * d + y * d;
    RemainderIs(n, d, x + y, r);
  }

  /** A partial sum may be reduced early. */
  lemma ModSum(m: nat, p: nat, n: nat)
    requires m > 0
    ensures (p % m + n) % m == (p + n) % m
  {
    var s := p % m + n;
    QuotientBounds(p, m);
    QuotientBounds(s, m);
    RemainderOfSum(p + n, m, p / m, s / m, s % m);
  }

  /** Where position x lies on a ring of m places. */
  function Slot(m: nat, x: nat): (s: nat)
    requires 0 < m
    ensures s < m
  {
    x % m
  }

  lemma SlotSum(m: nat, p: nat, n: nat)
    requires 0 < m
    ensures Slot(m, Slot(m, p) + n) == Slot(m, p + n)
    ensures p < m ==> Slot(m, p) == p
    ensures Slot(m, m) == 0
  {
    ModSum(m, p, n);
    RemainderIs(m, m, 1, 0);
    if p < m {
      RemainderIs(p, m, 0, p);
    }
  }

  lemma SlotAssociates(m: nat, x: nat, y: nat, z: nat)
    requires 0 < m
    ensures Slot(m, Slot(m, x + y) + z) == Slot(m, x + Slot(m, y + z))
  {
    hide Slot;
    SlotSum(m, x + y, z);
    SlotSum(m, y + z, x);
  }

  lemma ApartWithin(m: nat, x: nat, r: nat, n: nat, y: nat, s: nat, k: nat)
    requires x + r + n <= y + s && y + s + k - (x + r) <= m && r + n <= m && s + k <= m
    requires y == x || y == x + m
    ensures r + n <= s || s + k <= r
  {
  }

  lemma NextMultiple(m: nat, a: nat)
    ensures m * (a + 1) == m * a + m
  {
  }

  /** The full turns before position x. */
  function Turns(m: nat, x: nat): nat
    requires 0 < m
  {
    m * (x / m)
  }

  lemma TurnsAndSlot(m: nat, x: nat)
    requires 0 < m
    ensures x == Turns(m, x) + Slot(m, x)
  {
  }

  lemma SameOrNextTurn(m: nat, p: nat, q: nat)
    requires 0 < m && p <= q <= p + m
    ensures Turns(m, q) == Turns(m, p) || Turns(m, q) == Turns(m, p) + m
  {
    QuotientGrows(p, q, m);
    QuotientGrows(q, p + m, m);
    OneTurnMore(p, m);
    var a, b := p / m, q / m;
    assert b == a || b == a + 1;
    NextMultiple(m, a);
  }

  /** Two windows that lie within one turn of a ring, and do not cross its end, have no slot in common. */
  lemma WindowsApart(m: nat, p: nat, n: nat, q: nat, k: nat)
    requires 0 < m && 0 < n && 0 < k && p + n <= q && q + k - p <= m
    requires Slot(m, p) + n <= m && Slot(m, q) + k <= m
    ensures Slot(m, p) + n <= Slot(m, q) || Slot(m, q) + k <= Slot(m, p)
  {
    hide Slot, Turns;
    SameOrNextTurn(m, p, q);
    TurnsAndSlot(m, p);
    TurnsAndSlot(m, q);
    ApartWithin(m, Turns(m, p), Slot(m, p), n, Turns(m, q), Slot(m, q), k);
  }

  lemma SlotFurther(m: nat, x: nat, n: nat)
    requires 0 < m && Slot(m, x) + n < m
    ensures Slot(m, x + n) == Slot(m, x) + n
  {
    hide Slot;
    SlotSum(m, x, n);
    SlotSum(m, Slot(m, x) + n, 0);
  }

  /** They have a slot in common as soon as they no longer lie within one turn. */
  lemma WindowsApartExactly(m: nat, p: nat, n: nat, q: nat, k: nat)
    requires 0 < m && 0 < n && 0 < k && p + n <= q <= p + m
    requires Slot(m, p) + n <= m && Slot(m, q) + k <= m
    ensures Slot(m, p) + n <= Slot(m, q) || Slot(m, q) + k <= Slot(m, p) <==> q + k - p <= m
  {
    hide Slot;
    if q + k - p <= m {
      WindowsApart(m, p, n, q, k);
    } else {
      var d := p + m - q;
      SlotFurther(m, q, d);
      SlotSum(m, m, p);
      SlotSum(m, p, m);
      OneTurnOn(m, p);
    }
  }

  lemma OneTurnOn(m: nat, p: nat)
    requires 0 < m
    ensures Slot(m, p + m) == Slot(m, p)
  {
    OneTurnMore(p, m);
  }

  lemma QuotientOfQuotient(n: nat, a: nat, b: nat)
    requires 0 < a && 0 < b
    ensures 0 < a * b && n / (a * b) == n / a / b
  {
    var q, r := n / a, n % a;
    QuotientBounds(n, a);
    QuotientBounds(q, b);
    var h, l := q / b, q % b;
    Nested(h, l, a, b);
    Below(l, r, a, b);
    QuotientIs(n, a * b, h, l * a + r);
  }

  lemma Nested(h: nat, l: nat, a: nat, b: nat)
    ensures (h * b + l) * a == h * (a * b) + l * a
  {
  }

  lemma Below(l: nat, r: nat, a: nat, b: nat)
    requires l < b && r < a
    ensures l * a + r < a * b
  {
    MultiplesApart(l, b, a);
  }
}
