# The n-th prime by a growing Sieve of Eratosthenes

This project models `SieveImplementation` (csharp/Sieve/Sieve.cs). It returns
the n-th prime, counting from 0 (2 is prime number 0). It works like this:

- It rejects a negative index with an argument error.
- It answers indices 0 to 4 with the constants 2, 3, 5, 7 and 11.
- For any other index it starts from an estimated bound. It runs a Sieve of
  Eratosthenes up to that bound. It multiplies the bound by 1.5 (truncated)
  until the sieve returns more than n primes. Then it returns the prime at
  position n.

Two modules:

- `Primes` (Primes.dfy) holds the reference definitions the code is proved
  against. `IsPrime` is primality by trial division. `PrimesUpTo(limit)` is the
  ascending list of primes in [2, limit]. `IsNthPrime(p, n)` says that p is
  prime and exactly n primes lie below it. The module proves facts about them:
  the list holds exactly those primes, it is strictly ascending, raising the
  bound only appends to it, and its element at position n is the n-th prime.
  It also proves Euclid's theorem (factorial plus one), which gives every n a
  bound with more than n primes. That fact is what makes the retry loop
  terminate.
- `SieveImplementation` (SieveImplementation.dfy) holds the four members of
  the C# class:
  - `NthPrime` models `NthPrime`. The guard and the fast path are the function
    `Dispatch`.
  - `FindWithSieve` models `EncontrarPrimoConCriba`: a `while` loop that
    carries a termination measure.
  - `SieveOfEratosthenes` models `CribaDeEratostenes`. It allocates a
    `bool` array initialised to false, as a new C# `bool[]` is. It sets entries
    2..limit in one loop. It crosses out multiples in place in two nested
    loops, and collects the survivors into a sequence.
  - `EstimateSize` models `EstimarTamanio`.

The sieve's outer loop keeps the table in the state `SievedBelow(table, limit, i)`.
In that state, entries 0 and 1 are false, every entry still true has no divisor
in [2, i), and every entry that is false is not prime. The lemmas
`CrossOutStep` and `SkipStep` carry that state from i to i + 1. `SievedFinally`
turns it into "true exactly at the primes" once i * i > limit.

The growth step `(int)(t * 1.5)` has no minimum-increment safeguard. None is
needed: the bound starts at 20 or more, and `GrowBound` proves that
floor(1.5 t) > t for every t >= 2. The step could only stall at t = 0 or
t = 1, and with unbounded integers no bound is ever below 20. In the source's
32-bit `int` arithmetic the bound can become negative, and then the loop never
ends; see "## Findings".

## Model

| member | source | states |
|---|---|---|
| `SieveImplementation.NthPrime` | csharp/Sieve/Sieve.cs:15-29 | fails with InvalidArgument exactly when n < 0; otherwise returns a p that is prime with exactly n primes below it (the n-th prime, 0-indexed, as the doc comment at line 13 says) |
| `SieveImplementation.Dispatch` | csharp/Sieve/Sieve.cs:17-25 | rejects exactly the negative indices; sends exactly the indices >= 5 to the sieve; each constant answer for 0..4 (2, 3, 5, 7, 11) is the prime at that position |
| `SieveImplementation.EstimateSize` | csharp/Sieve/Sieve.cs:106-116 | the starting bound is 20 for n < 6 and at least 100 otherwise, so always at least 20 |
| `SieveImplementation.GrowBound` | csharp/Sieve/Sieve.cs:48 | the new bound r is floor(1.5 t) (2r <= 3t < 2r + 2) and is strictly larger than t whenever t >= 2 |
| `SieveImplementation.FindWithSieve` | csharp/Sieve/Sieve.cs:34-53 | the retry loop terminates for every n >= 0 and every non-negative estimate, exits only with more than n primes, and returns the n-th prime |
| `SieveImplementation.SieveOfEratosthenes` | csharp/Sieve/Sieve.cs:60-98 | returns an empty list when limit < 2; otherwise returns exactly the primes in [2, limit], strictly ascending, equal to `PrimesUpTo(limit)` |
| `SieveImplementation.SievedInitially` | csharp/Sieve/Sieve.cs:64-71 | the table with entries true exactly on [2, limit] (0 and 1 false) satisfies the sieve invariant for i = 2 |
| `SieveImplementation.CrossOutStep` | csharp/Sieve/Sieve.cs:76-83 | crossing out i*i, i*i + i, ... up to limit, when entry i is still true, turns false only non-primes and leaves true only numbers with no divisor in [2, i] |
| `SieveImplementation.SkipStep` | csharp/Sieve/Sieve.cs:74-76 | when entry i is already false (i is composite), no entry still true has i as a proper divisor, so the invariant moves to i + 1 unchanged |
| `SieveImplementation.SievedFinally` | csharp/Sieve/Sieve.cs:74 | once i * i > limit, an entry is true exactly when its index is prime |
| `SieveImplementation.NextMultiple` | csharp/Sieve/Sieve.cs:80 | the step `multiplo += i` goes from one multiple of i to the next and skips none |
| `SieveImplementation.WrapInt32` | csharp/Sieve/Sieve.cs:115 | the `+ 100` on an `int`: the result is a 32-bit value congruent to the exact sum modulo 2^32 |
| `SieveImplementation.EstimateSizeInt32` | csharp/Sieve/Sieve.cs:106-116 | EstimarTamanio in 32-bit arithmetic: equal to EstimateSize while the truncated estimate is at most int.MaxValue - 100, and negative for n >= 6 once it is larger |
| `SieveImplementation.GrowBoundInt32` | csharp/Sieve/Sieve.cs:48 | `(int)(t * 1.5)` in 32-bit arithmetic: equal to GrowBound while 1.5 t fits in an `int`, and never above t when t is negative |
| `SieveImplementation.OverflowedEstimateNeverEnds` | csharp/Sieve/Sieve.cs:42-50 | with an estimate larger than int.MaxValue - 100 and n >= 6, the bound stays negative after every round and each round's sieve finds at most n primes (none), so the loop never exits |
| `Primes.PrimesUpToMembers` | csharp/Sieve/Sieve.cs:88-97 | the collected list holds every prime in [2, limit] and nothing else ("all primes found") |
| `Primes.PrimesUpToAscending` | csharp/Sieve/Sieve.cs:89-95 | the collected list is strictly ascending |
| `Primes.PrimesUpToPrefix` | csharp/Sieve/Sieve.cs:44-49 | a larger bound only appends primes: the list for a smaller bound is a prefix of the list for a larger one |
| `Primes.NthOfPrimesUpTo` | csharp/Sieve/Sieve.cs:52 | for any bound whose list has more than n elements, the element at position n is the n-th prime, whatever the bound |
| `Primes.NthPrimeOrder` | csharp/Sieve/Sieve.cs:13 | the n-th prime is unique (so every call with the same n returns the same value) and strictly increasing in n |
| `Primes.EnoughPrimes` | csharp/Sieve/Sieve.cs:42-50 | for every n some bound has more than n primes up to it, which bounds the number of retries |
| `Primes.PrimeAbove` | csharp/Sieve/Sieve.cs:42-50 | above every number there is a prime (Euclid) |
| `Primes.NthPrimeExists` | csharp/Sieve/Sieve.cs:13 | every index n >= 0 has an n-th prime |
| `Primes.FirstPrimes` | csharp/Sieve/Sieve.cs:21-25 | 2, 3, 5, 7, 11 and 13 are the primes at positions 0 to 5 |

## Findings

| source | as written | input that shows it | evidently intended | confidence | as-written member | corrected member |
|---|---|---|---|---|---|---|
| csharp/Sieve/Sieve.cs:115 | `(int)(estimacion * 1.2) + 100` is computed in 32-bit `int`. From about n = 84,600,000 on, the estimate exceeds int.MaxValue, so the starting bound comes out negative. The sieve then returns no primes (line 62), and `(int)(t * 1.5)` at line 48 keeps the bound negative, so the loop at lines 42-50 never exits. | n = 100,000,000: the estimate is about 2.56e9 > 2,147,483,647, yet the answer (about 2.04e9) fits in an `int` | a positive starting bound (bound arithmetic in `long`, or a clamp), so the retry loop grows the bound until it holds more than n primes | not executed; high | `SieveImplementation.OverflowedEstimateNeverEnds` | `SieveImplementation.FindWithSieve` |

The as-written member uses `EstimateSizeInt32` and `GrowBoundInt32`. `CastToInt32` saturates, as .NET 9 and later do. Earlier .NET runtimes on x86/x64 return int.MinValue for an out-of-range cast, and the bound is negative in that case too. The rest of the model computes the bound without overflow (`EstimateSize`, `GrowBound`). There `FindWithSieve` is proved to terminate and return the n-th prime.

## Left out

- `EstimateSize`: `Math.Log` and the double arithmetic of lines 111-115 are not modelled. The truncated value of `estimacion * 1.2`, as an unbounded integer, is a parameter (`scaledLogEstimate`) of `NthPrime`, `FindWithSieve`, `EstimateSize` and `EstimateSizeInt32`. It is only required to be non-negative for n >= 6. The mathematical value is (n * (ln n + ln ln n) > 0 there), but its 32-bit cast is not for large n (see "## Findings"). `EstimateSize`, and so `NthPrime` and `FindWithSieve`, assume that the cast does not overflow. Correctness never depends on the estimate's size: the result is the n-th prime for every non-negative value.
- `GrowBound`: the double multiply `t * 1.5` and its truncation are modelled as the integer `t * 3 / 2`. For t >= 0 this equals the truncated product exactly.
- Machine integers are unbounded in `NthPrime`, `FindWithSieve` and `SieveOfEratosthenes`, and the C# `long` and `int` are both `int` there. Only the starting-bound overflow at line 115 and the growth step at line 48 are modelled in 32 bits, by the members listed under "## Findings". Three overflows in the sieve are not modelled at all: `i * i` in the outer loop's guard (line 74), `multiplo += i` in the inner loop (line 80), and `limite + 1` for a bound of int.MaxValue (line 65). The first makes the source's sieve throw for every bound of 2,147,395,600 (46340 squared) or more. At such a bound `i` reaches 46341, `i * i` wraps to a negative number and passes the guard, and the next prime still marked (46349) starts crossing out at a negative index, which raises IndexOutOfRangeException. `multiplo += i` wraps the same way for bounds within i of int.MaxValue. The model does not capture these exceptions. The `(int)n` cast at line 52 cannot overflow: it is reached only once an `int` count exceeds n. A retry that grows a valid bound past int.MaxValue (line 48) is modelled only in `GrowBoundInt32`.
- The `primosEncontrados == null` test in the loop guard (line 42) can never be true and is left out.
- `List<int>` is modelled as an immutable `seq<int>` that is reassigned. The lists are always freshly made inside one call, so no aliasing is lost.
- The `ISieve` interface (lines 6-9) is a signature with no behaviour.
- Running out of memory or time for very large n is an environmental failure. It is not modelled.
