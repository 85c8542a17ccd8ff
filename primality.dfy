/** The primality test of a session: trial division by 2, 3 and the pairs
    i, i + 2 for i = 5, 11, 17, ... while i * i does not exceed n. */
module Primality {

  /** The C++ `int64_t`. */
  newtype int64 = x: int | -0x8000_0000_0000_0000 <= x < 0x8000_0000_0000_0000

  const MinInt64: int := -0x8000_0000_0000_0000
  const MaxInt64: int := 0x7FFF_FFFF_FFFF_FFFF

  /** The mathematical definition: at least 2 and divisible by no integer
      strictly between 1 and itself. */
  predicate Prime(n: int) {
    n >= 2 && forall d :: 2 <= d < n ==> n % d != 0
  }

  /** No factor d with 2 <= d and d * d <= n. */
  ghost predicate NoFactorUpToRoot(n: int) {
    forall d :: 2 <= d && d * d <= n ==> n % d != 0
  }

  lemma MulAtLeast(a: int, b: int, c: int)
    requires a >= 0 && b >= c
    ensures a * b >= a * c
  {
    assert a * b - a * c == a * (b - c);
  }

  /** k divides every multiple of k. */
  lemma MultipleMod(k: int, m: int)
    requires k > 0
    ensures (k * m) % k == 0
  {
    var q, r := (k * m) / k, (k * m) % k;
    var t := m - q;
    assert k * t == r;
    if t >= 1 {
      MulAtLeast(k, t, 1);
    } else if t <= -1 {
      MulAtLeast(k, -1, t);
    }
  }

  /** The cofactor of a proper factor d of n is itself a proper factor. */
  lemma Cofactor(n: int, d: int) returns (e: int)
    requires 2 <= d < n && n % d == 0
    ensures n == d * e && 2 <= e && n % e == 0
  {
    e := n / d;
    assert n == d * e;
    if e <= 1 {
      MulAtLeast(d, 1, e);
    }
    MultipleMod(e, d);
    assert e * d == n;
  }

  /** Every composite n has a factor e with e * e <= n. */
  lemma SmallFactor(n: int, d: int) returns (e: int)
    requires 2 <= d < n && n % d == 0
    ensures 2 <= e && e * e <= n && n % e == 0
  {
    var c := Cofactor(n, d);
    if d * d <= n {
      e := d;
    } else {
      if c >= d {
        MulAtLeast(d, c, d);
      }
      MulAtLeast(c, d, c);
      e := c;
    }
  }

  /** Divisibility is transitive. */
  lemma DividesTransitive(n: int, d: int, k: int)
    requires n > 0 && d > 0 && k > 0
    requires n % d == 0 && d % k == 0
    ensures n % k == 0
  {
    var q, r := n / d, d / k;
    assert n == d * q;
    assert d == k * r;
    assert n == k * (r * q);
    MultipleMod(k, r * q);
  }

  /** A composite n has a factor whose square does not exceed n, hence
      testing the factors up to the square root decides primality. */
  lemma PrimeIffNoFactorUpToRoot(n: int)
    requires n >= 2
    ensures Prime(n) <==> NoFactorUpToRoot(n)
  {
    if Prime(n) {
      forall d | 2 <= d && d * d <= n
        ensures n % d != 0
      {
        MulAtLeast(d, d, 2);
      }
    } else {
      var d :| 2 <= d < n && n % d == 0;
      var e := SmallFactor(n, d);
    }
  }

  /** One round of the loop: no factor of n is among i, i + 1, ..., i + 5,
      because i + 1, i + 3, i + 5 are even and i + 4 is a multiple of 3. */
  lemma RoundExcludesSixCandidates(n: int, i: int)
    requires n > 0 && n % 2 != 0 && n % 3 != 0
    requires i >= 5 && i % 6 == 5
    requires n % i != 0 && n % (i + 2) != 0
    requires forall d :: 2 <= d < i ==> n % d != 0
    ensures forall d :: 2 <= d < i + 6 ==> n % d != 0
  {
    var q := i / 6;
    assert i == 6 * q + 5;
    forall d | i <= d < i + 6
      ensures n % d != 0
    {
      if d == i + 1 || d == i + 3 || d == i + 5 {
        assert d % 2 == 0 by {
          assert d == 2 * (3 * q + 3) || d == 2 * (3 * q + 4) || d == 2 * (3 * q + 5);
          MultipleMod(2, d / 2);
        }
        if n % d == 0 {
          DividesTransitive(n, d, 2);
        }
      } else if d == i + 4 {
        assert d % 3 == 0 by {
          assert d == 3 * (2 * q + 3);
          MultipleMod(3, 2 * q + 3);
        }
        if n % d == 0 {
          DividesTransitive(n, d, 3);
        }
      }
    }
  }

  /** Before the loop: an n divisible by neither 2 nor 3 has no factor
      below 5. */
  lemma FirstCandidates(n: int)
    requires n > 0 && n % 2 != 0 && n % 3 != 0
    ensures forall d :: 2 <= d < 5 ==> n % d != 0
  {
    if n % 4 == 0 {
      DividesTransitive(n, 4, 2);
    }
  }

  /** While the loop runs, both candidates i and i + 2 lie below n. */
  lemma CandidatesBelow(n: int, i: int)
    requires 5 <= i && i * i <= n
    ensures i + 2 < n
  {
    MulAtLeast(i, i, 5);
  }

  /** When the loop stops, no factor is left below i and i * i exceeds n:
      n is prime. */
  lemma NoFactorBelowBound(n: int, i: int)
    requires n >= 2 && i >= 0 && i * i > n
    requires forall d :: 2 <= d < i ==> n % d != 0
    ensures Prime(n)
  {
    forall d | 2 <= d && d * d <= n
      ensures n % d != 0
    {
      if d >= i {
        MulAtLeast(d, d, i);
        MulAtLeast(i, d, i);
      }
    }
    PrimeIffNoFactorUpToRoot(n);
  }

  /** `is_prime`: true exactly for the primes, computed by the 6k +/- 1 loop. */
  method IsPrime(n: int64) returns (b: bool)
    ensures b == Prime(n as int)
    ensures n <= 1 ==> !b
    ensures n == 2 || n == 3 ==> b
  {
    if n <= 1 {
      return false;
    }
    if n <= 3 {
      return true;
    }
    var m := n as int;
    if m % 2 == 0 || m % 3 == 0 {
      return false;
    }
    FirstCandidates(m);
    var i := 5;
    while i * i <= m
      invariant 5 <= i && i % 6 == 5
      invariant forall d :: 2 <= d < i ==> m % d != 0
      decreases m - i
    {
      CandidatesBelow(m, i);
      if m % i == 0 || m % (i + 2) == 0 {
        return false;
      }
      RoundExcludesSixCandidates(m, i);
      i := i + 6;
    }
    NoFactorBelowBound(m, i);
    return true;
  }
}
