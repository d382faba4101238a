/** Remainders of sums and of remainders. */
module Mods {
  lemma ModUnique(x: int, m: int, q: int, r: int)
    requires m > 0 && x == q * m + r && 0 <= r < m
    ensures x % m == r && x / m == q
  {
    SameQuotient(q, r, x / m, x % m, m);
  }

  lemma SameQuotient(q: int, r: int, q': int, r': int, m: int)
    requires m > 0 && q * m + r == q' * m + r' && 0 <= r < m && 0 <= r' < m
    ensures q == q' && r == r'
  {
    Distribute(q, q', m);
    Distribute(q', q, m);
    if q > q' {
      AtLeast(q - q', m);
    } else if q < q' {
      AtLeast(q' - q, m);
    }
  }

  lemma Distribute(a: int, b: int, m: int)
    ensures (a - b) * m == a * m - b * m
  {
  }

  lemma AtLeast(d: int, m: int)
    requires d >= 1 && m > 0
    ensures d * m >= m
  {
  }

  lemma SmallMod(x: nat, m: nat)
    requires x < m
    ensures x % m == x
  {
  }

  lemma AddMod(a: int, b: int, m: int)
    requires m > 0
    ensures (a % m + b) % m == (a + b) % m
  {
    var q, r := a / m, a % m;
    var q2, r2 := (r + b) / m, (r + b) % m;
    assert a + b == (q + q2) * m + r2;
    ModUnique(a + b, m, q + q2, r2);
  }

  lemma ModMod(a: int, m: int, n: int)
    requires m > 0 && n > 0
    ensures (a % (m * n)) % m == a % m
  {
    var q, r := a / (m * n), a % (m * n);
    assert a == q * (m * n) + r;
    var q2, r2 := r / m, r % m;
    assert q * (m * n) == (q * n) * m;
    assert a == (q * n + q2) * m + r2;
    ModUnique(a, m, q * n + q2, r2);
  }

  /** Fewer than m apart, two numbers differ modulo m. */
  lemma ModApart(a: int, b: int, m: int)
    requires m > 0 && a < b < a + m
    ensures a % m != b % m
  {
    if a % m == b % m {
      Distribute(b / m, a / m, m);
      if b / m > a / m {
        AtLeast(b / m - a / m, m);
      } else {
        AtMost(b / m - a / m, m);
      }
    }
  }

  lemma AtMost(d: int, m: int)
    requires d <= 0 && m > 0
    ensures d * m <= 0
  {
  }
}
