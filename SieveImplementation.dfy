/*
 * The n-th prime (counting from 0) by a Sieve of Eratosthenes that is rerun
 * on a growing bound until it yields enough primes.
 */
module SieveImplementation {
  import opened Primes

  /** The single error NthPrime raises: a negative index. */
  datatype Error = InvalidArgument

  datatype Result<T> = Ok(value: T) | Err(error: Error)

  /** What NthPrime does with an index before any sieving. */
  datatype Route = Reject | Literal(prime: int) | Sieve

  /**
   * The guard and the fast path of NthPrime: a negative index is rejected,
   * indices 0 to 4 are answered with a constant, and every other index goes
   * to the sieve.
   */
  function Dispatch(n: int): (r: Route)
    ensures r.Reject? <==> n < 0
    ensures r.Sieve? <==> n >= 5
    ensures r.Literal? ==> IsNthPrime(r.prime, n)
  {
    FirstPrimes();
    if n < 0 then Reject
    else if n == 0 then Literal(2)
    else if n == 1 then Literal(3)
    else if n == 2 then Literal(5)
    else if n == 3 then Literal(7)
    else if n == 4 then Literal(11)
    else Sieve
  }

  /**
   * The n-th prime, counting from 0, or InvalidArgument when n is negative.
   * `scaledLogEstimate` is the value of the floating-point expression
   * EstimateSize truncates; it is only used for n >= 6, where it is not negative.
   */
  method NthPrime(n: int, scaledLogEstimate: int) returns (r: Result<int>)
    requires n >= 6 ==> scaledLogEstimate >= 0
    ensures r.Err? <==> n < 0
    ensures r.Err? ==> r.error == InvalidArgument
    ensures r.Ok? ==> IsNthPrime(r.value, n)
  {
    match Dispatch(n)
    case Reject =>
      r := Err(InvalidArgument);
    case Literal(p) =>
      r := Ok(p);
    case Sieve =>
      var p := FindWithSieve(n, scaledLogEstimate);
      r := Ok(p);
  }

  /**
   * The initial sieve bound: 20 for small n, otherwise the truncated
   * logarithmic estimate plus a margin of 100. Only its lower bound matters
   * for correctness; the retry loop in FindWithSieve does the rest.
   */
  function EstimateSize(n: int, scaledLogEstimate: int): (t: int)
    requires n >= 6 ==> scaledLogEstimate >= 0
    ensures t >= 20
    ensures n < 6 ==> t == 20
    ensures n >= 6 ==> t >= 100
  {
    if n < 6 then 20 else scaledLogEstimate + 100
  }

  /** The bound times 1.5, truncated: floor(3t/2). It strictly grows every bound t >= 2. */
  function GrowBound(t: int): (r: int)
    requires t >= 0
    ensures 2 * r <= 3 * t < 2 * r + 2
    ensures t >= 2 ==> r > t
  {
    t * 3 / 2
  }

  /**
   * Sieves up to an estimated bound and raises the bound by half until the
   * sieve returns more than n primes; then returns the one at position n.
   */
  method FindWithSieve(n: nat, scaledLogEstimate: int) returns (p: int)
    requires n >= 6 ==> scaledLogEstimate >= 0
    ensures IsNthPrime(p, n)
  {
    var bound := EstimateSize(n, scaledLogEstimate);
    var found: seq<int> := [];
    // A bound with more than n primes below it; once the sieve bound reaches
    // it the loop stops.
    ghost var enough := EnoughPrimes(n);
    while |found| <= n
      invariant bound >= 2
      invariant |found| > n ==> found == PrimesUpTo(bound)
      decreases (if bound < enough then enough - bound else 0) + (if |found| <= n then 1 else 0)
    {
      found := SieveOfEratosthenes(bound);
      if |found| <= n {
        if enough <= bound {
          PrimesUpToPrefix(enough, bound);
        }
        bound := GrowBound(bound);
      }
    }
    NthOfPrimesUpTo(bound, n);
    p := found[n];
  }

  // ---------------------------------------------------------------------------
  // The bound arithmetic in 32-bit integers, as the source writes it. The
  // members above compute the bound without overflow; these show what the
  // `int` arithmetic of EstimarTamanio and of the growth step does instead.

  const IntMin := -0x8000_0000
  const IntMax := 0x7FFF_FFFF

  /** Two's-complement wrap-around of an `int` sum to 32 bits. */
  function WrapInt32(x: int): (r: int)
    ensures IntMin <= r <= IntMax
    ensures (r - x) % 0x1_0000_0000 == 0
  {
    (x - IntMin) % 0x1_0000_0000 + IntMin
  }

  /** The cast `(int)` of an integral double: exact in range, saturating outside it. */
  function CastToInt32(x: int): (r: int)
    ensures IntMin <= r <= IntMax
  {
    if x < IntMin then IntMin else if x > IntMax then IntMax else x
  }

  /**
   * EstimarTamanio in 32-bit arithmetic: the truncated estimate is cast to
   * `int` and 100 is added with wrap-around. It agrees with EstimateSize while
   * the estimate fits, and is negative once it does not.
   */
  function EstimateSizeInt32(n: int, scaledLogEstimate: int): (t: int)
    requires n >= 6 ==> scaledLogEstimate >= 0
    ensures IntMin <= t <= IntMax
    ensures scaledLogEstimate <= IntMax - 100 ==> t == EstimateSize(n, scaledLogEstimate)
    ensures n >= 6 && scaledLogEstimate > IntMax - 100 ==> t < 0
  {
    if n < 6 then 20 else WrapInt32(CastToInt32(scaledLogEstimate) + 100)
  }

  /**
   * `(int)(t * 1.5)` in 32-bit arithmetic: the product is truncated toward
   * zero and then cast. It agrees with GrowBound while the result fits, and it
   * never lifts a negative bound.
   */
  function GrowBoundInt32(t: int): (r: int)
    requires IntMin <= t <= IntMax
    ensures IntMin <= r <= IntMax
    ensures 0 <= t && t * 3 / 2 <= IntMax ==> r == GrowBound(t)
    ensures t < 0 ==> r <= t
  {
    CastToInt32(if t >= 0 then t * 3 / 2 else -((-t) * 3 / 2))
  }

  /** The bound after k rounds of the retry loop that each found too few primes, in 32-bit arithmetic. */
  function BoundAfterInt32(start: int, k: nat): (t: int)
    requires IntMin <= start <= IntMax
    ensures IntMin <= t <= IntMax
  {
    if k == 0 then start else GrowBoundInt32(BoundAfterInt32(start, k - 1))
  }

  /**
   * As written, an estimate too large for `int` gives a negative starting
   * bound; every sieve round then finds no prime and every growth step keeps
   * the bound negative, so the loop guard `Count <= n` never turns false.
   */
  lemma {:induction false} OverflowedEstimateNeverEnds(n: int, scaledLogEstimate: int, k: nat)
    requires n >= 6 && scaledLogEstimate > IntMax - 100
    ensures BoundAfterInt32(EstimateSizeInt32(n, scaledLogEstimate), k) < 0
    ensures |PrimesUpTo(BoundAfterInt32(EstimateSizeInt32(n, scaledLogEstimate), k))| <= n
    decreases k
  {
    if k > 0 {
      OverflowedEstimateNeverEnds(n, scaledLogEstimate, k - 1);
    }
  }

  // ---------------------------------------------------------------------------
  // The sieve

  /** No d with 2 <= d < i (and d < k) divides k. */
  ghost predicate NoDivisorBelow(k: int, i: int) {
    forall d :: 2 <= d < i && d < k ==> k % d != 0
  }

  /**
   * The state of the table `s` over [0, limit] once every candidate below i
   * has been processed: 0 and 1 are crossed out, every entry still set has no
   * divisor below i, and every entry crossed out is not prime.
   */
  ghost predicate SievedBelow(s: seq<bool>, limit: int, i: int) {
    |s| == limit + 1 && limit >= 1 && !s[0] && !s[1]
    && (forall k :: 2 <= k <= limit && s[k] ==> NoDivisorBelow(k, i))
    && (forall k :: 2 <= k <= limit && !s[k] ==> !IsPrime(k))
  }

  /** A table whose entries are set exactly on [2, limit] is sieved below 2. */
  lemma SievedInitially(s: seq<bool>, limit: int)
    requires limit >= 2 && |s| == limit + 1
    requires forall k :: 0 <= k <= limit ==> s[k] == (2 <= k)
    ensures SievedBelow(s, limit, 2)
  {
  }

  /** If k is a multiple of i with i < k < i*i, then k has a divisor in [2, i). */
  lemma CofactorBelow(k: int, i: int) returns (q: int)
    requires 2 <= i < k < i * i && k % i == 0
    ensures 2 <= q < i && q < k && k % q == 0
  {
    q := k / i;
    assert k == i * q;
    if q >= i {
      MulAtLeast(i, q - i + 1);
    }
    MultipleMod(q, i);
  }

  /**
   * Crossing out the multiples of i from i*i on keeps the table sieved and
   * moves its frontier from i to i + 1, when i is still set.
   */
  lemma CrossOutStep(b: seq<bool>, c: seq<bool>, limit: int, i: int)
    requires 2 <= i && i * i <= limit
    requires SievedBelow(b, limit, i) && b[i]
    requires |c| == |b|
    requires forall k :: 0 <= k <= limit ==> c[k] == (b[k] && !(i * i <= k && k % i == 0))
    ensures SievedBelow(c, limit, i + 1)
  {
    forall k | 2 <= k <= limit && c[k]
      ensures NoDivisorBelow(k, i + 1)
    {
      assert NoDivisorBelow(k, i);
      if i < k && k % i == 0 {
        var q := CofactorBelow(k, i);
        assert false;
      }
    }
    forall k | 2 <= k <= limit && !c[k]
      ensures !IsPrime(k)
    {
      if b[k] {
        MulAtLeast(i, i);
        assert k % i == 0 && 2 <= i < k;
      }
    }
  }

  /** Leaving the table alone at a crossed-out i also moves its frontier to i + 1. */
  lemma SkipStep(b: seq<bool>, limit: int, i: int)
    requires 2 <= i <= limit
    requires SievedBelow(b, limit, i) && !b[i]
    ensures SievedBelow(b, limit, i + 1)
  {
    forall k | 2 <= k <= limit && b[k]
      ensures NoDivisorBelow(k, i + 1)
    {
      assert NoDivisorBelow(k, i);
      if i < k && k % i == 0 {
        assert !IsPrime(i);
        var d :| 2 <= d < i && i % d == 0;
        DividesTransitive(d, i, k);
        assert false;
      }
    }
  }

  /** A composite k has a divisor e >= 2 with e * e <= k. */
  lemma SmallDivisor(k: int, d: int) returns (e: int)
    requires 2 <= d < k && k % d == 0
    ensures 2 <= e < k && e * e <= k && k % e == 0
  {
    if d * d <= k {
      e := d;
    } else {
      e := k / d;
      assert k == d * e;
      if e > d {
        MulAtLeast(d, e - d);
        assert false;
      }
      assert e * e <= d * e;
      MultipleMod(e, d);
    }
  }

  /** Squares order like their non-negative roots. */
  lemma SquareBelow(e: int, i: int)
    requires 0 <= e && 0 <= i && e * e < i * i
    ensures e < i
  {
    if e >= i {
      MulAtLeast(e, e - i + 1);
      MulAtLeast(i, e - i + 1);
    }
  }

  /** Once i * i exceeds the limit, the entries still set are exactly the primes. */
  lemma SievedFinally(s: seq<bool>, limit: int, i: int)
    requires 2 <= i && limit < i * i
    requires SievedBelow(s, limit, i)
    ensures forall k :: 0 <= k <= limit ==> (s[k] <==> IsPrime(k))
  {
    forall k | 2 <= k <= limit && s[k]
      ensures IsPrime(k)
    {
      if !IsPrime(k) {
        var d :| 2 <= d < k && k % d == 0;
        var e := SmallDivisor(k, d);
        SquareBelow(e, i);
        assert false;
      }
    }
  }

  /**
   * The Sieve of Eratosthenes: the ascending list of all primes up to `limit`,
   * computed on a table of flags that is filled in and crossed out in place.
   */
  method SieveOfEratosthenes(limit: int) returns (primes: seq<int>)
    ensures primes == PrimesUpTo(limit)
    ensures StrictlyAscending(primes)
    ensures forall p :: p in primes <==> 2 <= p <= limit && IsPrime(p)
  {
    if limit < 2 {
      PrimesUpToMembers(limit);
      return [];
    }

    // isPrime[k] == true means "k may be prime"; a new table is all false
    var isPrime := new bool[limit + 1](_ => false);
    for i := 2 to limit + 1
      invariant forall k :: 0 <= k <= limit ==> isPrime[k] == (2 <= k < i)
    {
      isPrime[i] := true;
    }
    SievedInitially(isPrime[..], limit);

    var i := 2;
    while i * i <= limit
      invariant 2 <= i
      invariant SievedBelow(isPrime[..], limit, i)
      decreases limit - i
    {
      MulAtLeast(i, i);
      if isPrime[i] {
        ghost var before := isPrime[..];
        var multiple := i * i;
        MultipleMod(i, i);
        while multiple <= limit
          invariant i * i <= multiple && multiple % i == 0
          invariant forall k :: 0 <= k <= limit ==>
            isPrime[k] == (before[k] && !(i * i <= k < multiple && k % i == 0))
        {
          isPrime[multiple] := false;
          NextMultiple(multiple, i);
          multiple := multiple + i;
        }
        CrossOutStep(before, isPrime[..], limit, i);
      } else {
        SkipStep(isPrime[..], limit, i);
      }
      i := i + 1;
    }
    SievedFinally(isPrime[..], limit, i);

    primes := [];
    for j := 2 to limit + 1
      invariant primes == PrimesUpTo(j - 1)
    {
      if isPrime[j] {
        primes := primes + [j];
      }
    }
    PrimesUpToAscending(limit);
    PrimesUpToMembers(limit);
  }

  /** Stepping from a multiple m of i to m + i skips no multiple of i. */
  lemma NextMultiple(m: int, i: int)
    requires i > 0 && m % i == 0
    ensures (m + i) % i == 0
    ensures forall k :: m < k < m + i ==> k % i != 0
  {
    MultipleMod(i, m / i + 1);
    assert m + i == i * (m / i + 1);
    forall k | m < k < m + i
      ensures k % i != 0
    {
      if k % i == 0 {
        var j := k / i - m / i;
        assert i * j == k - m;
        if j >= 1 {
          MulAtLeast(i, j);
        } else if j <= -1 {
          MulAtLeast(i, -j);
        }
      }
    }
  }
}
