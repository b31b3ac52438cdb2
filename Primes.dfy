/*
 * Reference definitions the sieve is proved against: primality by trial
 * division, the ascending list of primes up to a bound, and what it means
 * for a number to be the n-th prime (counting from 0).
 */
module Primes {

  /** p is prime: it is at least 2 and no number strictly between 1 and p divides it. */
  predicate IsPrime(p: int) {
    p >= 2 && forall d :: 2 <= d < p ==> p % d != 0
  }

  /** The primes in [2, limit], in ascending order. */
  function PrimesUpTo(limit: int): seq<int>
    decreases limit
  {
    if limit < 2 then [] else PrimesUpTo(limit - 1) + (if IsPrime(limit) then [limit] else [])
  }

  predicate StrictlyAscending(s: seq<int>) {
    forall i, j :: 0 <= i < j < |s| ==> s[i] < s[j]
  }

  /** p is the n-th prime, counting from 0: p is prime and exactly n primes lie below it. */
  predicate IsNthPrime(p: int, n: int) {
    IsPrime(p) && |PrimesUpTo(p - 1)| == n
  }

  // ---------------------------------------------------------------------------
  // The list of primes up to a bound

  /** PrimesUpTo(limit) holds every prime of [2, limit] and nothing else. */
  lemma {:induction false} PrimesUpToMembers(limit: int)
    ensures forall p :: p in PrimesUpTo(limit) <==> 2 <= p <= limit && IsPrime(p)
    decreases limit
  {
    if limit >= 2 {
      PrimesUpToMembers(limit - 1);
    }
  }

  /** PrimesUpTo(limit) is strictly ascending (so it has no duplicates). */
  lemma {:induction false} PrimesUpToAscending(limit: int)
    ensures StrictlyAscending(PrimesUpTo(limit))
    decreases limit
  {
    if limit >= 2 {
      var s := PrimesUpTo(limit - 1);
      PrimesUpToAscending(limit - 1);
      PrimesUpToMembers(limit - 1);
      if IsPrime(limit) {
        forall i, j | 0 <= i < j < |s| + 1
          ensures (s + [limit])[i] < (s + [limit])[j]
        {
          if j == |s| {
            assert s[i] in s;
          }
        }
      }
    }
  }

  /** Raising the bound only appends primes: the shorter list is a prefix of the longer one. */
  lemma {:induction false} PrimesUpToPrefix(a: int, b: int)
    requires a <= b
    ensures |PrimesUpTo(a)| <= |PrimesUpTo(b)|
    ensures PrimesUpTo(b)[..|PrimesUpTo(a)|] == PrimesUpTo(a)
    decreases b - a
  {
    if a < b {
      PrimesUpToPrefix(a, b - 1);
      if b >= 2 {
        var s := PrimesUpTo(b - 1);
        var extra := if IsPrime(b) then [b] else [];
        assert PrimesUpTo(b) == s + extra;
        assert (s + extra)[..|PrimesUpTo(a)|] == s[..|PrimesUpTo(a)|];
      }
    }
  }

  /** A prime p closes the list up to p: PrimesUpTo(p) is PrimesUpTo(p - 1) followed by p. */
  lemma PrimesUpToPrime(p: int)
    requires IsPrime(p)
    ensures PrimesUpTo(p) == PrimesUpTo(p - 1) + [p]
  {
  }

  /** The element at position n of any list of primes up to a bound is the n-th prime. */
  lemma NthOfPrimesUpTo(limit: int, n: nat)
    requires n < |PrimesUpTo(limit)|
    ensures IsNthPrime(PrimesUpTo(limit)[n], n)
  {
    var s := PrimesUpTo(limit);
    var p := s[n];
    PrimesUpToMembers(limit);
    assert p in s;
    PrimesUpToPrefix(p, limit);
    PrimesUpToPrime(p);
    var k := |PrimesUpTo(p - 1)|;
    assert PrimesUpTo(p)[k] == p;
    assert s[k] == p;
    PrimesUpToAscending(limit);
  }

  /** The n-th prime grows with n, and each index has at most one n-th prime. */
  lemma NthPrimeOrder(p: int, m: int, q: int, n: int)
    requires IsNthPrime(p, m) && IsNthPrime(q, n)
    ensures m < n <==> p < q
    ensures m == n <==> p == q
  {
    if p < q {
      PrimesUpToPrime(p);
      PrimesUpToPrefix(p, q - 1);
    } else if q < p {
      PrimesUpToPrime(q);
      PrimesUpToPrefix(q, p - 1);
    }
  }

  // ---------------------------------------------------------------------------
  // There are infinitely many primes (Euclid): every list of primes can be
  // outgrown by raising the bound.

  function Factorial(m: nat): (f: nat)
    ensures f >= 1
  {
    if m == 0 then 1 else m * Factorial(m - 1)
  }

  lemma MulAtLeast(d: int, k: int)
    requires d > 0 && k >= 1
    ensures d * k >= d
  {
  }

  /** d divides every multiple of d. */
  lemma MultipleMod(d: int, x: int)
    requires d > 0
    ensures (d * x) % d == 0
  {
    var r := (d * x) % d;
    var k := x - (d * x) / d;
    assert d * k == r;
    if k >= 1 {
      MulAtLeast(d, k);
    } else if k <= -1 {
      MulAtLeast(d, -k);
    }
  }

  /** Divisibility is transitive: d | e and e | x give d | x. */
  lemma DividesTransitive(d: int, e: int, x: int)
    requires d > 0 && e > 0
    requires e % d == 0 && x % e == 0
    ensures x % d == 0
  {
    var a := x / e;
    var b := e / d;
    assert x == e * a;
    assert e == d * b;
    assert x == d * (b * a);
    MultipleMod(d, b * a);
  }

  /** Every number from 1 to m divides m!. */
  lemma {:induction false} FactorialDivisible(m: nat, d: int)
    requires 1 <= d <= m
    ensures Factorial(m) % d == 0
    decreases m
  {
    var f := Factorial(m - 1);
    assert Factorial(m) == m * f;
    if d == m {
      MultipleMod(m, f);
    } else {
      FactorialDivisible(m - 1, d);
      MultipleMod(f, m);
      DividesTransitive(d, f, Factorial(m));
    }
  }

  /** The least divisor of x that is at least d. */
  function LeastDivisorFrom(x: int, d: int): (r: int)
    requires 2 <= d <= x
    ensures d <= r <= x && x % r == 0
    ensures forall e :: d <= e < r ==> x % e != 0
    decreases x - d
  {
    if x % d == 0 then d else LeastDivisorFrom(x, d + 1)
  }

  /** The least divisor above 1 of a number x >= 2 is prime. */
  lemma LeastDivisorIsPrime(x: int)
    requires x >= 2
    ensures IsPrime(LeastDivisorFrom(x, 2))
  {
    var r := LeastDivisorFrom(x, 2);
    forall e | 2 <= e < r
      ensures r % e != 0
    {
      if r % e == 0 {
        DividesTransitive(e, r, x);
      }
    }
  }

  /** No d >= 2 divides both f and f + 1. */
  lemma SuccessorNotDivisible(f: int, d: int)
    requires d >= 2 && f % d == 0
    ensures (f + 1) % d != 0
  {
    var k := (f + 1) / d - f / d;
    assert d * k == 1 - (f + 1) % d;
    if k >= 1 {
      MulAtLeast(d, k);
    } else if k <= -1 {
      MulAtLeast(d, -k);
    }
  }

  /** Above every number there is a prime. */
  lemma PrimeAbove(m: int) returns (p: int)
    ensures IsPrime(p) && p > m
  {
    var x := Factorial(if m < 0 then 0 else m) + 1;
    p := LeastDivisorFrom(x, 2);
    LeastDivisorIsPrime(x);
    if p <= m {
      FactorialDivisible(m, p);
      SuccessorNotDivisible(Factorial(m), p);
    }
  }

  /** For every n some bound has more than n primes below it. */
  lemma {:induction false} EnoughPrimes(n: nat) returns (limit: int)
    ensures |PrimesUpTo(limit)| > n
    decreases n
  {
    if n == 0 {
      limit := 2;
      assert PrimesUpTo(2) == [2];
    } else {
      var below := EnoughPrimes(n - 1);
      limit := PrimeAbove(below);
      PrimesUpToPrefix(below, limit - 1);
      PrimesUpToPrime(limit);
    }
  }

  /** Every index has its prime. */
  lemma NthPrimeExists(n: nat) returns (p: int)
    ensures IsNthPrime(p, n)
  {
    var limit := EnoughPrimes(n);
    p := PrimesUpTo(limit)[n];
    NthOfPrimesUpTo(limit, n);
  }

  // ---------------------------------------------------------------------------
  // The first primes

  /** 2, 3, 5, 7, 11, 13 are the primes at positions 0 to 5. */
  lemma FirstPrimes()
    ensures IsNthPrime(2, 0) && IsNthPrime(3, 1) && IsNthPrime(5, 2)
    ensures IsNthPrime(7, 3) && IsNthPrime(11, 4) && IsNthPrime(13, 5)
  {
    assert !IsPrime(4) by { assert 4 % 2 == 0; }
    assert !IsPrime(6) by { assert 6 % 2 == 0; }
    assert !IsPrime(8) by { assert 8 % 2 == 0; }
    assert !IsPrime(9) by { assert 9 % 3 == 0; }
    assert !IsPrime(10) by { assert 10 % 2 == 0; }
    assert !IsPrime(12) by { assert 12 % 2 == 0; }
    assert PrimesUpTo(12) == [2, 3, 5, 7, 11];
  }
}
