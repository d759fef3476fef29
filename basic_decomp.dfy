/** The basic variant: a sequential prime search by trial division, then the
  * factorisation of every number below the limit against that table, one
  * output line per number. */
module BasicDecomp {
  import opened NumberTheory
  import opened FactorLine
  import opened Machine

  /** Newton iterations that `isqrt` performs. */
  const ISQRT_STEPS: nat := 1000

  lemma SquareMonotone(u: nat, v: nat)
    requires u <= v
    ensures u * u <= v * v
  {
    MulLe(u, u, v);
    MulLe(v, u, v);
  }

  /** (a + b)^2 >= 4ab. */
  lemma SquareOfSum(a: nat, b: nat)
    ensures (a + b) * (a + b) >= 4 * (a * b)
  {
    var d: int := a - b;
    assert (a + b) * (a + b) == 4 * (a * b) + d * d;
  }

  /** A Newton step from any x in [1, n) stays in [1, n) and lands at or
    * above the integer square root of n. */
  lemma NewtonStep(n: nat, x: nat)
    requires 1 <= x < n
    ensures 1 <= (x + n / x) / 2 < n
    ensures n < ((x + n / x) / 2 + 1) * ((x + n / x) / 2 + 1)
  {
    var q := n / x;
    NewtonQuotient(n, x);
    NewtonAbove(n, x, q);
    MulLe(q, 1, x);
  }

  /** With n < x * (q + 1), the mean of x and q, rounded down, is at least
    * the integer square root of n. */
  lemma NewtonAbove(n: nat, x: nat, q: nat)
    requires n < x * (q + 1)
    ensures n < ((x + q) / 2 + 1) * ((x + q) / 2 + 1)
  {
    var y := (x + q) / 2;
    SquareOfSum(x, q + 1);
    SquareMonotone(x + q + 1, 2 * (y + 1));
    assert 4 * ((y + 1) * (y + 1)) == (2 * (y + 1)) * (2 * (y + 1));
  }

  /** The quotient of one Newton step: at least 1, at most n / 2 once x >= 2,
    * and with n < x * (q + 1). */
  lemma NewtonQuotient(n: nat, x: nat)
    requires 1 <= x < n
    ensures n / x >= 1 && n < x * (n / x + 1) && x * (n / x) <= n
  {
    var q := n / x;
    assert n == x * q + n % x && n % x < x;
    assert x * (q + 1) == x * q + x;
  }

  /** `isqrt`: ISQRT_STEPS Newton steps from num / 2. The result need not be
    * the exact floor of the root (the iteration can alternate between it and
    * the next integer), but it is never below it, and it stays below num. */
  method Isqrt(num: nat) returns (x: nat)
    requires num >= 2
    ensures 1 <= x < num && num < (x + 1) * (x + 1)
  {
    x := num / 2;
    var i := 0;
    while i < ISQRT_STEPS
      invariant 0 <= i <= ISQRT_STEPS
      invariant 1 <= x < num
      invariant i > 0 ==> num < (x + 1) * (x + 1)
    {
      NewtonStep(num, x);
      x := (x + num / x) / 2;
      i := i + 1;
    }
  }

  /** Every d with d * d <= num is at most the `isqrt` result. */
  lemma BelowRoot(num: nat, x: nat, d: nat)
    requires num < (x + 1) * (x + 1) && d * d <= num
    ensures d <= x
  {
    if d > x {
      SquareMonotone(x + 1, d);
    }
  }

  /** The trial division inside `findPrimes`: i is prime unless some j in
    * [2, isqrt(i)] divides it. */
  method IsPrimeByTrial(i: nat) returns (isPrime: bool)
    requires i >= 2
    ensures isPrime <==> IsPrime(i)
  {
    isPrime := true;
    var maxPrime := Isqrt(i);
    var j := 2;
    while j <= maxPrime
      invariant 2 <= j <= maxPrime + 1
      invariant isPrime
      invariant forall d :: 2 <= d < j ==> i % d != 0
    {
      if i % j == 0 {
        isPrime := false;
        break;
      }
      j := j + 1;
    }
    if isPrime && !IsPrime(i) {
      CompositeHasSmallPrimeFactor(i);
      var q: nat :| IsPrime(q) && q * q <= i && i % q == 0;
      BelowRoot(i, maxPrime, q);
      assert false;
    }
  }

  /** `findPrimes`: writes the primes below limit to the front of `primes`,
    * ascending, and returns how many there are. */
  method FindPrimes(primes: array<nat>, limit: nat) returns (count: nat)
    requires |PrimesBelow(limit)| <= primes.Length
    modifies primes
    ensures count <= primes.Length
    ensures primes[..count] == PrimesBelow(limit)
    ensures primes[count..] == old(primes[count..])
  {
    count := 0;
    var i := 2;
    while i < limit
      invariant 2 <= i && (i <= limit || i == 2)
      invariant count <= primes.Length
      invariant primes[..count] == PrimesIn(2, i)
      invariant primes[count..] == old(primes[count..])
    {
      var isPrime := IsPrimeByTrial(i);
      PrimesInSplit(2, i + 1, limit);
      if isPrime {
        assert PrimesIn(2, i + 1) == PrimesIn(2, i) + [i];
        primes[count] := i;
        assert primes[..count + 1] == primes[..count] + [i];
        count := count + 1;
      }
      i := i + 1;
    }
  }

  /** The table `findPrimes` produces is ascending, holds exactly the primes
    * below the limit, and has at most one entry per candidate. */
  lemma FoundPrimesAreTable(limit: nat)
    ensures IsPrimeTable(PrimesBelow(limit), limit)
    ensures limit >= 2 ==> |PrimesBelow(limit)| <= limit - 2
  {
    PrimesBelowIsTable(limit);
    PrimesInLength(2, limit);
  }

  /** `indexOfPrime` (binary search without a guard on `mid`): the index of
    * `prime` in the table, or NOT_FOUND. The search may only step left of
    * index 0 when `prime < primes[0]`, where `right` would wrap; the caller
    * never asks for such a value. */
  method IndexOfPrime(primes: array<nat>, primeCount: nat, prime: nat) returns (index: nat)
    requires primeCount <= primes.Length && primeCount < WORD
    requires StrictlyIncreasing(primes[..primeCount])
    requires 0 < primeCount && primes[0] <= prime
    ensures index == NOT_FOUND <==> prime !in primes[..primeCount]
    ensures index != NOT_FOUND ==> index < primeCount && primes[index] == prime
  {
    var left: nat, right: nat := 0, primeCount - 1;
    while left <= right
      invariant right < primeCount && left <= primeCount
      invariant forall k :: 0 <= k < primeCount && primes[k] == prime ==> left <= k <= right
      decreases right + 1 - left
    {
      var mid := (right + left) / 2;
      var midPrime := primes[mid];
      if prime == midPrime {
        return mid;
      } else if prime < midPrime {
        assert primes[..primeCount][0] == primes[0];
        assert mid > 0;
        forall k | 0 <= k < primeCount && primes[k] == prime
          ensures k < mid
        {
          assert primes[..primeCount][k] == primes[k] && primes[..primeCount][mid] == primes[mid];
        }
        right := mid - 1;
      } else {
        forall k | 0 <= k < primeCount && primes[k] == prime
          ensures k > mid
        {
          assert primes[..primeCount][k] == primes[k] && primes[..primeCount][mid] == primes[mid];
        }
        left := mid + 1;
      }
    }
    index := NOT_FOUND;
  }

  /** `clearArray`: zeroes the first `size` slots. */
  method ClearArray(a: array<nat>, size: nat)
    requires size <= a.Length
    modifies a
    ensures forall k :: 0 <= k < size ==> a[k] == 0
    ensures forall k :: size <= k < a.Length ==> a[k] == old(a[k])
  {
    var i := 0;
    while i < size
      invariant i <= size
      invariant forall k :: 0 <= k < i ==> a[k] == 0
      invariant forall k :: i <= k < a.Length ==> a[k] == old(a[k])
    {
      a[i] := 0;
      i := i + 1;
    }
  }

  /** A non-empty table of all primes below some bound starts with 2. */
  lemma TableStartsAtTwo(t: seq<nat>, bound: nat)
    requires IsPrimeTable(t, bound) && |t| > 0
    ensures t[0] == 2
  {
    assert 2 in t by {
      assert IsPrime(2);
      assert 2 <= t[0] < bound;
    }
    var k :| 0 <= k < |t| && t[k] == 2;
    if k > 0 {
      assert t[0] < t[k];
    }
  }

  /** What trial division leaves: once no table prime below t[j] divides m
    * and t[j] * t[j] > m, the remainder m (if above 1) is prime. */
  lemma RemainderIsPrime(t: seq<nat>, bound: nat, j: nat, m: nat)
    requires IsPrimeTable(t, bound) && j < |t| && m >= 2
    requires m < t[j] * t[j]
    requires forall k :: 0 <= k < j ==> m % t[k] != 0
    ensures IsPrime(m)
  {
    if !IsPrime(m) {
      CompositeHasSmallPrimeFactor(m);
      var q: nat :| IsPrime(q) && q * q <= m && m % q == 0;
      if q >= t[j] {
        SquareMonotone(t[j], q);
      }
      TableBelow(t, bound, j, q);
    }
  }

  /** A prime's exponents against a table: 1 at its own entry, 0 elsewhere. */
  lemma ExponentsOfPrime(t: seq<nat>, bound: nat, m: nat, k: nat)
    requires IsPrimeTable(t, bound) && IsPrime(m) && k < |t|
    ensures Exponents(t, m)[k] == if t[k] == m then 1 else 0
  {
    MultiplicityOfPrime(t[k], m);
  }

  /** 0 and 1 have no prime factor. */
  lemma ExponentsOfUnit(t: seq<nat>, bound: nat, m: nat, k: nat)
    requires IsPrimeTable(t, bound) && m <= 1 && k < |t|
    ensures Exponents(t, m)[k] == 0
  {
    if m == 1 {
      ModSmall(1, t[k]);
    }
  }

  /** Dividing m by the table prime t[j] keeps it free of the earlier table
    * primes and lowers the exponent of t[j] by one. */
  lemma DivideStep(t: seq<nat>, bound: nat, m: nat, j: nat)
    requires IsPrimeTable(t, bound) && j < |t| && m > 0 && m % t[j] == 0
    requires forall k :: 0 <= k < j ==> m % t[k] != 0
    ensures forall k :: 0 <= k < j ==> (m / t[j]) % t[k] != 0
    ensures Exponents(t, m) == Exponents(t, m / t[j])[j := Exponents(t, m / t[j])[j] + 1]
  {
    var p := t[j];
    ExponentsQuotient(t, bound, m, j);
    forall k | 0 <= k < j ensures (m / p) % t[k] != 0 {
      if (m / p) % t[k] == 0 {
        assert m == p * (m / p);
        MulMod(t[k], (m / p) / t[k]);
        assert m == t[k] * (p * ((m / p) / t[k]));
        MulMod(t[k], p * ((m / p) / t[k]));
      }
    }
  }

  /** The exponents of the remainder m after trial division, as the final
    * lookup counts them: 1 at the entry found for m, 0 elsewhere (also when
    * m is 0 or 1, or m is absent from the table). */
  lemma RemainderExponents(t: seq<nat>, bound: nat, m: nat, index: nat, k: nat)
    requires IsPrimeTable(t, bound) && k < |t|
    requires m > 1 ==> IsPrime(m)
    requires m > 1 ==> (index == NOT_FOUND <==> m !in t)
    requires m > 1 && index != NOT_FOUND ==> index < |t| && t[index] == m
    ensures Exponents(t, m)[k] == if m > 1 && index != NOT_FOUND && k == index then 1 else 0
  {
    if m > 1 {
      ExponentsOfPrime(t, bound, m, k);
      if index != NOT_FOUND && k != index {
        assert t[k] != t[index] by {
          if k < index { assert t[k] < t[index]; } else if k > index { assert t[index] < t[k]; }
        }
      }
      if index == NOT_FOUND {
        assert t[k] in t;
      }
    } else {
      ExponentsOfUnit(t, bound, m, k);
    }
  }

  /** The counts so far plus the exponents still in the remainder add up to
    * the starting counts plus the exponents of the number. */
  ghost predicate Accounted(f: seq<nat>, rest: seq<nat>, e0: seq<nat>, target: seq<nat>)
  {
    |f| == |rest| == |e0| == |target|
    && forall k :: 0 <= k < |f| ==> f[k] + rest[k] == e0[k] + target[k]
  }

  /** Counting t[j] once more while dividing it out keeps the account. */
  lemma AccountedStep(t: seq<nat>, bound: nat, m: nat, j: nat, f: seq<nat>, e0: seq<nat>, target: seq<nat>)
    requires IsPrimeTable(t, bound) && j < |t| && m > 0 && m % t[j] == 0
    requires forall k :: 0 <= k < j ==> m % t[k] != 0
    requires Accounted(f, Exponents(t, m), e0, target)
    ensures forall k :: 0 <= k < j ==> (m / t[j]) % t[k] != 0
    ensures Accounted(f[j := f[j] + 1], Exponents(t, m / t[j]), e0, target)
  {
    DivideStep(t, bound, m, j);
  }

  /** The trial-division loop of `decomposeNumber`: divides out each table
    * prime in turn while its square does not exceed what is left of the
    * number, counting each division. What is left is 0, 1 or a prime. */
  method DivideOut(primes: array<nat>, factors: array<nat>, primeCount: nat, number: nat, ghost bound: nat)
    returns (m: nat, j: nat)
    requires primes != factors
    requires 0 < primeCount <= primes.Length && factors.Length == primeCount
    requires IsPrimeTable(primes[..primeCount], bound)
    requires number < primes[primeCount - 1] * primes[primeCount - 1]
    modifies factors
    ensures j < primeCount && m < primes[j] * primes[j]
    ensures forall k :: 0 <= k < j ==> m % primes[k] != 0
    ensures Accounted(factors[..], Exponents(primes[..primeCount], m), old(factors[..]), Exponents(primes[..primeCount], number))
  {
    ghost var t := primes[..primeCount];
    ghost var e0 := factors[..];
    ghost var target := Exponents(t, number);
    m, j := number, 0;
    while primes[j] * primes[j] <= m
      invariant j < primeCount && primes[..primeCount] == t
      invariant m <= number && (number > 0 ==> m > 0)
      invariant forall k :: 0 <= k < j ==> m % t[k] != 0
      invariant Accounted(factors[..], Exponents(t, m), e0, target)
      decreases m, primeCount - j
    {
      m, j := TrialRound(primes, factors, primeCount, number, bound, m, j, t, e0, target);
    }
  }

  /** One round of the trial loop: divide the remainder by primes[j] once, or
    * move on to the next prime. */
  method TrialRound(primes: array<nat>, factors: array<nat>, primeCount: nat, number: nat, ghost bound: nat,
                    m: nat, j: nat, ghost t: seq<nat>, ghost e0: seq<nat>, ghost target: seq<nat>)
    returns (m': nat, j': nat)
    requires primes != factors && 0 < primeCount <= primes.Length && factors.Length == primeCount
    requires IsPrimeTable(t, bound) && primes[..primeCount] == t
    requires number < t[primeCount - 1] * t[primeCount - 1]
    requires j < primeCount && m <= number && (number > 0 ==> m > 0)
    requires forall k :: 0 <= k < j ==> m % t[k] != 0
    requires Accounted(factors[..], Exponents(t, m), e0, target)
    requires primes[j] * primes[j] <= m
    modifies factors
    ensures j' < primeCount && m' <= number && (number > 0 ==> m' > 0)
    ensures forall k :: 0 <= k < j' ==> m' % t[k] != 0
    ensures Accounted(factors[..], Exponents(t, m'), e0, target)
    ensures m' < m || (m' == m && j < j')
  {
    if m % primes[j] == 0 {
      m' := DivideRound(primes, factors, primeCount, number, bound, m, j, t, e0, target);
      j' := j;
    } else {
      if j == primeCount - 1 {
        assert false;
      }
      m', j' := m, j + 1;
    }
  }

  /** `factors[j]++; num /= primes[j]`: one more count of primes[j]. */
  method DivideRound(primes: array<nat>, factors: array<nat>, primeCount: nat, number: nat, ghost bound: nat,
                     m: nat, j: nat, ghost t: seq<nat>, ghost e0: seq<nat>, ghost target: seq<nat>)
    returns (m': nat)
    requires primes != factors && primeCount <= primes.Length && factors.Length == primeCount
    requires IsPrimeTable(t, bound) && primes[..primeCount] == t
    requires j < primeCount && m <= number && m > 0
    requires forall k :: 0 <= k < j ==> m % t[k] != 0
    requires Accounted(factors[..], Exponents(t, m), e0, target)
    requires m % primes[j] == 0
    modifies factors
    ensures 0 < m' < m
    ensures forall k :: 0 <= k < j ==> m' % t[k] != 0
    ensures Accounted(factors[..], Exponents(t, m'), e0, target)
  {
    var p := primes[j];
    assert p == t[j] && p >= 2;
    QuotientBounds(m, p);
    AccountedStep(t, bound, m, j, factors[..], e0, target);
    m' := m / p;
    factors[j] := factors[j] + 1;
  }

  /** `decomposeNumber`: the trial division, then the lookup of the remainder
    * in the table, counted there when found. Every count grows by the
    * exponent of its prime in `number`; a remainder that is not in the table
    * is dropped. */
  method DecomposeNumber(primes: array<nat>, factors: array<nat>, primeCount: nat, number: nat, ghost bound: nat)
    requires primes != factors
    requires 0 < primeCount <= primes.Length && factors.Length == primeCount && primeCount < WORD
    requires IsPrimeTable(primes[..primeCount], bound)
    requires number < primes[primeCount - 1] * primes[primeCount - 1]
    modifies factors
    ensures forall k :: 0 <= k < primeCount ==>
      factors[k] == old(factors[k]) + Exponents(primes[..primeCount], number)[k]
  {
    ghost var t := primes[..primeCount];
    ghost var e0 := factors[..];
    var m, j := DivideOut(primes, factors, primeCount, number, bound);
    ghost var f := factors[..];
    var index := NOT_FOUND;
    if m > 1 {
      RemainderIsPrime(t, bound, j, m);
      TableStartsAtTwo(t, bound);
      index := IndexOfPrime(primes, primeCount, m);
      if index != NOT_FOUND {
        factors[index] := factors[index] + 1;
      }
    }
    forall k | 0 <= k < primeCount
      ensures factors[k] == e0[k] + Exponents(t, number)[k]
    {
      RemainderExponents(t, bound, m, index, k);
      assert f[k] + Exponents(t, m)[k] == e0[k] + Exponents(t, number)[k];
    }
  }

  /** One table entry of `writeFactorsToFile`: nothing for count 0, else the
    * separator, the prime and, above one, its count. */
  method WriteTerm(text: string, first: bool, p: nat, c: nat) returns (text': string, first': bool)
    ensures text' == text + (if c > 0 then Term(p, c, first) else "")
    ensures first' == (first && c == 0)
  {
    text', first' := text, first;
    if c > 0 {
      var sep: string;
      if first {
        sep := " = ";
        first' := false;
      } else {
        sep := " * ";
      }
      var power := if c > 1 then "^" + Decimal(c) else "";
      text' := text' + (sep + Decimal(p) + power);
    }
  }

  /** `writeFactorsToFile`, with the text it writes returned as a string. */
  method WriteFactorsToFile(primes: array<nat>, factors: array<nat>, primeCount: nat, number: nat) returns (text: string)
    requires primeCount <= primes.Length && primeCount <= factors.Length
    ensures text == Line(number, primes[..primeCount], factors[..primeCount])
  {
    ghost var ps, fs := primes[..primeCount], factors[..primeCount];
    var first := true;
    text := Decimal(number);
    var j := 0;
    while j < primeCount
      invariant j <= primeCount
      invariant text == Decimal(number) + Terms(ps[..j], fs[..j])
      invariant first == NoneCounted(fs[..j])
    {
      var p := primes[j];
      var c := factors[j];
      assert p == ps[j] && c == fs[j];
      TermsStep(ps, fs, j);
      NoneCountedStep(fs, j);
      Associative(Decimal(number), Terms(ps[..j], fs[..j]), if c > 0 then Term(p, c, first) else "");
      text, first := WriteTerm(text, first, p, c);
      j := j + 1;
    }
    assert ps[..j] == ps && fs[..j] == fs;
    text := text + "\n";
  }

  /** `decomp`: for every i below tableSize, clears the counts, decomposes i
    * and writes its line. Reaching the end of the table needs its last
    * prime squared to exceed every number decomposed. */
  method Decomp(primes: array<nat>, primeCount: nat, tableSize: nat, ghost bound: nat) returns (lines: seq<string>)
    requires 0 < primeCount <= primes.Length && primeCount < WORD
    requires IsPrimeTable(primes[..primeCount], bound)
    requires tableSize <= primes[primeCount - 1] * primes[primeCount - 1]
    ensures |lines| == tableSize
    ensures forall i :: 0 <= i < tableSize ==>
      lines[i] == Line(i, primes[..primeCount], Exponents(primes[..primeCount], i))
  {
    var factors := new nat[primeCount];
    lines := [];
    var i := 0;
    while i < tableSize
      invariant i <= tableSize && |lines| == i
      invariant forall k :: 0 <= k < i ==>
        lines[k] == Line(k, primes[..primeCount], Exponents(primes[..primeCount], k))
    {
      ClearArray(factors, primeCount);
      DecomposeNumber(primes, factors, primeCount, i, bound);
      assert factors[..] == Exponents(primes[..primeCount], i);
      var line := WriteFactorsToFile(primes, factors, primeCount, i);
      assert factors[..primeCount] == factors[..];
      lines := lines + [line];
      i := i + 1;
    }
  }

  /** With the table of every prime below the limit, each line the basic
    * variant writes for 1 <= n < limit lists a factorisation of n, and 0 and
    * 1 are written with no factor. */
  lemma LinesFactorise(limit: nat, n: nat)
    requires n < limit
    ensures 1 <= n ==> Prod(PrimesBelow(limit), Exponents(PrimesBelow(limit), n)) == n
    ensures n <= 1 ==> Line(n, PrimesBelow(limit), Exponents(PrimesBelow(limit), n)) == Decimal(n) + "\n"
  {
    var t := PrimesBelow(limit);
    PrimesBelowIsTable(limit);
    if 1 <= n {
      ProdExponents(t, limit, n);
    }
    if n <= 1 {
      forall k | 0 <= k < |t| ensures Exponents(t, n)[k] == 0 {
        ExponentsOfUnit(t, limit, n, k);
      }
      TermsOfNothing(t, Exponents(t, n));
    }
  }

  /** A remainder with no table entry is lost: against [2, 3, 5], 14 is
    * counted as 2 alone. */
  lemma DropsMissingRemainder()
    ensures Exponents([2, 3, 5], 14) == [1, 0, 0]
    ensures Prod([2, 3, 5], [1, 0, 0]) == 2
  {
    assert Multiplicity(2, 7) == 0;
    assert Multiplicity(2, 14) == 1;
    assert Multiplicity(3, 14) == 0;
    assert Multiplicity(5, 14) == 0;
    assert [2, 3, 5][..2] == [2, 3] && [1, 0, 0][..2] == [1, 0];
    assert [2, 3][..1] == [2] && [1, 0][..1] == [1];
  }
}
