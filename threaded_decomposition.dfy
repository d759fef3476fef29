/** The threaded variant's decomposition stage: every number of
  * [0, tableSize) is factored over the prime table by one of several
  * workers, each owning a contiguous range. Counts are zeroed lazily, as the
  * trial division walks the table, and the line is written only up to the
  * greatest counted prime. */
module ThreadedDecomposition {
  import opened NumberTheory
  import opened FactorLine
  import opened Machine
  import opened Outcome
  import opened Partition
  import opened BasicDecomp

  /** `indexOfPrime`: binary search with unsigned bounds. `right` starts at
    * primeCount - 1, which wraps for an empty table, and wraps again when the
    * search leaves the table on the left; the `mid >= primeCount` test turns
    * both into "not found". With primeCount below half a word, `right + left`
    * never wraps. */
  method IndexOfPrime(primes: array<nat>, primeCount: nat, prime: nat) returns (index: nat)
    requires primeCount <= primes.Length && primeCount < WORD / 2
    requires StrictlyIncreasing(primes[..primeCount])
    ensures index == NOT_FOUND <==> prime !in primes[..primeCount]
    ensures index != NOT_FOUND ==> index < primeCount && primes[index] == prime
  {
    ghost var t := primes[..primeCount];
    var left: nat, right: nat := 0, Decrement(primeCount);
    while left <= right
      invariant left <= primeCount && t == primes[..primeCount]
      invariant right < primeCount || (right == WORD - 1 && left == 0)
      invariant forall k :: 0 <= k < primeCount && primes[k] == prime ==> left <= k <= right && right < primeCount
      decreases if right < primeCount then right + 2 - left else 0
    {
      var mid := (right + left) / 2;
      if mid >= primeCount {
        return NOT_FOUND;
      }
      var midPrime := primes[mid];
      assert midPrime == t[mid];
      if midPrime == prime {
        return mid;
      }
      if prime < midPrime {
        forall k | 0 <= k < primeCount && primes[k] == prime
          ensures k < mid
        {
          assert t[k] == primes[k];
        }
        right := Decrement(mid);
      } else {
        forall k | 0 <= k < primeCount && primes[k] == prime
          ensures k > mid
        {
          assert t[k] == primes[k];
        }
        left := mid + 1;
      }
    }
    index := NOT_FOUND;
  }

  // ----- `decomposeSingle` as written (a value model of its steps) ----------

  predicate TableShape(t: seq<nat>)
  {
    |t| > 0 && StrictlyIncreasing(t) && forall k :: 0 <= k < |t| ==> t[k] >= 2
  }

  /** The trial loop of `decomposeSingle`: divides by t[j] while its square does
    * not exceed the number, counting in f[j] and remembering j as the
    * greatest counted index; otherwise moves to j + 1 and zeroes f[j + 1].
    * Returns the counts, j, the remainder and the greatest index. */
  function LoopAsWritten(t: seq<nat>, f: seq<nat>, j: nat, m: nat, greatest: nat): (r: (seq<nat>, nat, nat, nat))
    requires TableShape(t) && |f| == |t| && j < |t|
    requires m < t[|t| - 1] * t[|t| - 1]
    ensures |r.0| == |t| && r.1 < |t|
    decreases m, |t| - j
  {
    if t[j] * t[j] <= m then
      if m % t[j] == 0 then
        SquareMonotone(1, t[j]);
        QuotientBounds(m, t[j]);
        LoopAsWritten(t, f[j := f[j] + 1], j, m / t[j], j)
      else
        assert j + 1 < |t|;
        LoopAsWritten(t, f[j + 1 := 0], j + 1, m, greatest)
    else (f, j, m, greatest)
  }

  /** The position of x in t. */
  function IndexIn(t: seq<nat>, x: nat): (k: nat)
    requires x in t
    ensures k < |t| && t[k] == x
  {
    if t[0] == x then 0 else 1 + IndexIn(t[1..], x)
  }

  /** f with the entries of [lo, hi) set to zero. */
  function ZeroBetween(f: seq<nat>, lo: nat, hi: nat): (r: seq<nat>)
    ensures |r| == |f|
  {
    seq(|f|, k requires 0 <= k < |f| => if lo <= k < hi then 0 else f[k])
  }

  /** `decomposeSingle` as written, on the counts f0 it is given (their content
    * is whatever the buffer held). A remainder above 1 found in the table
    * zeroes the counts between the last trial index and its own, then sets its
    * own count to 1, whatever was counted there. Returns the counts and the
    * greatest counted index, or aborts when the remainder is missing. */
  function DecomposeSingleAsWritten(t: seq<nat>, f0: seq<nat>, number: nat): Result<(seq<nat>, nat)>
    requires TableShape(t) && |f0| == |t|
    requires number < t[|t| - 1] * t[|t| - 1]
  {
    var (f, j, m, greatest) := LoopAsWritten(t, f0[0 := 0], 0, number, 0);
    if m > 1 then
      if m in t then
        var index := IndexIn(t, m);
        Ok((ZeroBetween(f, j + 1, index)[index := 1], index))
      else Abort(MISSING_PRIME_ERROR)
    else Ok((f, greatest))
  }

  /** The line written from a result of `decomposeSingle`: up to the greatest
    * counted index. */
  function WrittenLine(t: seq<nat>, number: nat, r: (seq<nat>, nat)): string
    requires |r.0| == |t| && r.1 < |t|
  {
    Line(number, t[..r.1 + 1], r.0[..r.1 + 1])
  }

  /** 8 = 2^3 is written "8 = 2": the last division leaves 2, which is the
    * prime just divided by, and its count of 2 is overwritten with 1. */
  lemma EightAsWritten()
    ensures DecomposeSingleAsWritten([2, 3, 5], [0, 0, 0], 8) == Ok(([1, 0, 0], 0))
    ensures WrittenLine([2, 3, 5], 8, ([1, 0, 0], 0)) == "8 = 2\n"
    ensures Exponents([2, 3, 5], 8) == [3, 0, 0]
  {
    EightCounts();
    EightLine();
    EightExponents();
  }

  lemma EightCounts()
    ensures DecomposeSingleAsWritten([2, 3, 5], [0, 0, 0], 8) == Ok(([1, 0, 0], 0))
  {
    var t := [2, 3, 5];
    assert [0, 0, 0][0 := 0] == [0, 0, 0];
    assert [0, 0, 0][0 := 1] == [1, 0, 0] && [1, 0, 0][0 := 2] == [2, 0, 0];
    assert LoopAsWritten(t, [0, 0, 0], 0, 8, 0) == LoopAsWritten(t, [1, 0, 0], 0, 4, 0);
    assert LoopAsWritten(t, [1, 0, 0], 0, 4, 0) == LoopAsWritten(t, [2, 0, 0], 0, 2, 0);
    assert LoopAsWritten(t, [2, 0, 0], 0, 2, 0) == ([2, 0, 0], 0, 2, 0);
    assert IndexIn(t, 2) == 0;
    assert 2 in t && ZeroBetween([2, 0, 0], 1, 0) == [2, 0, 0];
    assert [2, 0, 0][0 := 1] == [1, 0, 0];
  }

  lemma EightLine()
    ensures WrittenLine([2, 3, 5], 8, ([1, 0, 0], 0)) == "8 = 2\n"
  {
    assert [2, 3, 5][..1] == [2] && [1, 0, 0][..1] == [1];
    assert Terms([2], [1]) == " = 2" by {
      assert [2][..0] == [] && [1][..0] == [];
      assert Decimal(2) == "2";
    }
    assert Decimal(8) == "8";
    LineOf(8, [2], [1], "8", " = 2");
  }

  lemma EightExponents()
    ensures Exponents([2, 3, 5], 8) == [3, 0, 0]
  {
    assert Multiplicity(2, 1) == 0 && Multiplicity(2, 2) == 1 && Multiplicity(2, 4) == 2;
    assert Multiplicity(2, 8) == 3 && Multiplicity(3, 8) == 0 && Multiplicity(5, 8) == 0;
  }

  /** 18 = 2 * 3^2 is written "18 = 2 * 3". */
  lemma EighteenAsWritten()
    ensures DecomposeSingleAsWritten([2, 3, 5], [0, 0, 0], 18) == Ok(([1, 1, 0], 1))
    ensures Prod([2, 3, 5], [1, 1, 0]) == 6
  {
    EighteenCounts();
    assert [2, 3, 5][..2] == [2, 3] && [1, 1, 0][..2] == [1, 1];
    assert [2, 3][..1] == [2] && [1, 1][..1] == [1];
    assert Prod([2], [1]) == 2;
  }

  lemma EighteenCounts()
    ensures DecomposeSingleAsWritten([2, 3, 5], [0, 0, 0], 18) == Ok(([1, 1, 0], 1))
  {
    var t := [2, 3, 5];
    assert [0, 0, 0][0 := 0] == [0, 0, 0];
    assert [0, 0, 0][0 := 1] == [1, 0, 0] && [1, 0, 0][1 := 0] == [1, 0, 0] && [1, 0, 0][1 := 1] == [1, 1, 0];
    assert LoopAsWritten(t, [0, 0, 0], 0, 18, 0) == LoopAsWritten(t, [1, 0, 0], 0, 9, 0);
    assert LoopAsWritten(t, [1, 0, 0], 0, 9, 0) == LoopAsWritten(t, [1, 0, 0], 1, 9, 0);
    assert LoopAsWritten(t, [1, 0, 0], 1, 9, 0) == LoopAsWritten(t, [1, 1, 0], 1, 3, 1);
    assert LoopAsWritten(t, [1, 1, 0], 1, 3, 1) == ([1, 1, 0], 1, 3, 1);
    assert IndexIn(t, 3) == 1;
    assert 3 in t && ZeroBetween([1, 1, 0], 2, 1) == [1, 1, 0];
    assert [1, 1, 0][1 := 1] == [1, 1, 0];
  }

  /** A square of a prime, p^2 = 4 here, is written with p alone. */
  lemma FourAsWritten()
    ensures DecomposeSingleAsWritten([2, 3, 5], [7, 7, 7], 4) == Ok(([1, 7, 7], 0))
  {
    var t := [2, 3, 5];
    assert [7, 7, 7][0 := 0] == [0, 7, 7] && [0, 7, 7][0 := 1] == [1, 7, 7];
    assert LoopAsWritten(t, [0, 7, 7], 0, 4, 0) == LoopAsWritten(t, [1, 7, 7], 0, 2, 0);
    assert LoopAsWritten(t, [1, 7, 7], 0, 2, 0) == ([1, 7, 7], 0, 2, 0);
    assert IndexIn(t, 2) == 0;
    assert 2 in t && ZeroBetween([1, 7, 7], 1, 0) == [1, 7, 7];
    assert [1, 7, 7][0 := 1] == [1, 7, 7];
  }

  /** 0 and 1 leave no remainder to look up: the greatest index stays 0 and its
    * count 0, so the line is the bare number. */
  lemma UnitsAsWritten(f0: seq<nat>, n: nat)
    requires |f0| == 3 && n <= 1
    ensures DecomposeSingleAsWritten([2, 3, 5], f0, n) == Ok((f0[0 := 0], 0))
    ensures WrittenLine([2, 3, 5], n, (f0[0 := 0], 0)) == Decimal(n) + "\n"
  {
    assert f0[0 := 0][..1] == [0];
    assert Terms([2], [0]) == "" by {
      assert [2][..0] == [] && [0][..0] == [];
    }
    assert [2, 3, 5][..1] == [2];
  }

  // ----- `decomposeSingle` corrected -----------------------------------------

  /** Raising count j by one and dividing the remainder by t[j] keeps their
    * product. */
  lemma ProdDivide(t: seq<nat>, counts: seq<nat>, j: nat, m: nat)
    requires |t| == |counts| && j < |t| && t[j] >= 2 && m % t[j] == 0
    ensures Prod(t, counts[j := counts[j] + 1]) * (m / t[j]) == Prod(t, counts) * m
  {
    ProdIncrement(t, counts, j);
    Regroup(Prod(t, counts), t[j], m);
  }

  lemma Regroup(p: nat, a: nat, m: nat)
    requires a > 0 && m % a == 0
    ensures (p * a) * (m / a) == p * m
  {
    var q := m / a;
    assert m == a * q;
    assert (p * a) * q == p * (a * q);
  }

  /** A product with a factor of at least 2 is below the whole. */
  lemma ProperPart(p: nat, m: nat, n: nat)
    requires p * m == n && m >= 2
    ensures n >= 1 ==> p < n
  {
    if n >= 1 {
      assert p * m >= p * 2;
    }
  }

  /** One division of the trial loop keeps the account of the counts and of
    * their product. */
  lemma DivisionKeeps(t: seq<nat>, bound: nat, m: nat, j: nat, counts: seq<nat>, number: nat, target: seq<nat>)
    requires IsPrimeTable(t, bound) && j < |t| && m % t[j] == 0 && t[j] * t[j] <= m
    requires forall k :: 0 <= k < j ==> m % t[k] != 0
    requires Accounted(counts, Exponents(t, m), Zeros(|t|), target)
    requires Prod(t, counts) * m == number
    ensures 1 <= m / t[j] < m
    ensures forall k :: 0 <= k < j ==> (m / t[j]) % t[k] != 0
    ensures Accounted(counts[j := counts[j] + 1], Exponents(t, m / t[j]), Zeros(|t|), target)
    ensures Prod(t, counts[j := counts[j] + 1]) * (m / t[j]) == number
  {
    assert t[j] in t;
    SquareMonotone(1, t[j]);
    QuotientBounds(m, t[j]);
    AccountedStep(t, bound, m, j, counts, Zeros(|t|), target);
    ProdDivide(t, counts, j, m);
  }

  /** What the trial loop keeps: the buffer agrees with `counts` up to j,
    * `counts` is zero after the greatest counted index, and `counts` together
    * with the remainder m account for the number, both as exponents and as a
    * product. */
  ghost predicate Tally(t: seq<nat>, f: seq<nat>, number: nat, bound: nat, m: nat, j: nat, greatest: nat, counts: seq<nat>)
  {
    0 < |t| && |f| == |t|
    && IsPrimeTable(t, bound)
    && j < |t| && greatest <= j
    && m <= number && (number > 0 ==> m > 0)
    && (forall k :: 0 <= k < j ==> m % t[k] != 0)
    && |counts| == |t|
    && (forall k :: 0 <= k <= j ==> f[k] == counts[k])
    && (forall k :: greatest < k < |t| ==> counts[k] == 0)
    && Accounted(counts, Exponents(t, m), Zeros(|t|), Exponents(t, number))
    && Prod(t, counts) * m == number
  }

  /** The dividing branch: one more count of primes[j], which becomes the
    * greatest counted index. */
  method DivideOnce(primes: array<nat>, factors: array<nat>, primeCount: nat, number: nat, ghost bound: nat,
                    m: nat, j: nat, greatest: nat, ghost counts: seq<nat>)
    returns (m': nat, ghost counts': seq<nat>)
    requires primes != factors && primeCount <= primes.Length && factors.Length == primeCount
    requires Tally(primes[..primeCount], factors[..], number, bound, m, j, greatest, counts)
    requires m % primes[j] == 0 && primes[j] * primes[j] <= m
    modifies factors
    ensures m' < m && Tally(primes[..primeCount], factors[..], number, bound, m', j, j, counts')
  {
    ghost var t := primes[..primeCount];
    assert primes[j] == t[j];
    DivisionKeeps(t, bound, m, j, counts, number, Exponents(t, number));
    m' := m / primes[j];
    factors[j] := factors[j] + 1;
    counts' := counts[j := counts[j] + 1];
    assert primes[..primeCount] == t;
  }

  /** The other branch: the next prime, its count zeroed on the way. */
  method Advance(primes: array<nat>, factors: array<nat>, primeCount: nat, number: nat, ghost bound: nat,
                 m: nat, j: nat, greatest: nat, ghost counts: seq<nat>)
    requires primes != factors && primeCount <= primes.Length && factors.Length == primeCount
    requires Tally(primes[..primeCount], factors[..], number, bound, m, j, greatest, counts)
    requires m % primes[j] != 0 && j + 1 < primeCount
    modifies factors
    ensures Tally(primes[..primeCount], factors[..], number, bound, m, j + 1, greatest, counts)
  {
    ghost var t := primes[..primeCount];
    factors[j + 1] := 0;
    assert primes[..primeCount] == t;
  }

  /** The trial loop with lazily zeroed counts. `counts` is what the counts
    * stand for across the whole table; the buffer agrees with it up to j. */
  method DivideOutLazily(primes: array<nat>, factors: array<nat>, primeCount: nat, number: nat, ghost bound: nat)
    returns (m: nat, j: nat, greatest: nat, ghost counts: seq<nat>)
    requires primes != factors
    requires 0 < primeCount <= primes.Length && factors.Length == primeCount
    requires IsPrimeTable(primes[..primeCount], bound)
    requires number < primes[primeCount - 1] * primes[primeCount - 1]
    modifies factors
    ensures Tally(primes[..primeCount], factors[..], number, bound, m, j, greatest, counts)
    ensures m < primes[j] * primes[j]
  {
    ghost var t := primes[..primeCount];
    ProdZeros(t, Zeros(primeCount));
    factors[0] := 0;
    m, j, greatest := number, 0, 0;
    counts := Zeros(primeCount);
    assert primes[..primeCount] == t;
    while primes[j] * primes[j] <= m
      invariant Tally(primes[..primeCount], factors[..], number, bound, m, j, greatest, counts)
      decreases m, primeCount - j
    {
      m, j, greatest, counts := LazyStep(primes, factors, primeCount, number, bound, m, j, greatest, counts);
    }
  }

  /** One round of the lazy trial loop: divide by primes[j], or move on to
    * the next prime, zeroing its count. */
  method LazyStep(primes: array<nat>, factors: array<nat>, primeCount: nat, number: nat, ghost bound: nat,
                  m: nat, j: nat, greatest: nat, ghost counts: seq<nat>)
    returns (m': nat, j': nat, greatest': nat, ghost counts': seq<nat>)
    requires primes != factors && 0 < primeCount <= primes.Length && factors.Length == primeCount
    requires number < primes[primeCount - 1] * primes[primeCount - 1]
    requires Tally(primes[..primeCount], factors[..], number, bound, m, j, greatest, counts)
    requires primes[j] * primes[j] <= m
    modifies factors
    ensures Tally(primes[..primeCount], factors[..], number, bound, m', j', greatest', counts')
    ensures m' < m || (m' == m && j < j')
  {
    if m % primes[j] == 0 {
      m', counts' := DivideOnce(primes, factors, primeCount, number, bound, m, j, greatest, counts);
      j', greatest' := j, j;
    } else {
      if j == primeCount - 1 {
        assert false;
      }
      Advance(primes, factors, primeCount, number, bound, m, j, greatest, counts);
      m', j', greatest', counts' := m, j + 1, greatest, counts;
    }
  }

  /** The counts once the remainder is accounted for. */
  function Settled(counts: seq<nat>, m: nat, index: nat): (c: seq<nat>)
    ensures |c| == |counts|
  {
    if m > 1 && index < |counts| then counts[index := counts[index] + 1] else counts
  }

  /** Counting the remainder where it is found completes the exponents. */
  lemma SettledExponents(t: seq<nat>, bound: nat, number: nat, m: nat, counts: seq<nat>, index: nat)
    requires IsPrimeTable(t, bound) && |counts| == |t|
    requires m > 1 ==> IsPrime(m)
    requires m > 1 ==> (index == NOT_FOUND <==> m !in t)
    requires m > 1 && index != NOT_FOUND ==> index < |t| && t[index] == m
    requires Accounted(counts, Exponents(t, m), Zeros(|t|), Exponents(t, number))
    ensures |t| < NOT_FOUND ==> Exponents(t, number) == Settled(counts, m, index)
  {
    var e, c := Exponents(t, number), Settled(counts, m, index);
    if |t| < NOT_FOUND {
      forall k | 0 <= k < |t| ensures e[k] == c[k] {
        RemainderExponents(t, bound, m, index, k);
        assert counts[k] + Exponents(t, m)[k] == 0 + e[k];
      }
    }
  }

  /** The product of the settled counts is the number when the remainder was
    * 1 or found, and falls short of it when the remainder is missing. */
  lemma SettledProduct(t: seq<nat>, number: nat, m: nat, counts: seq<nat>, index: nat)
    requires |counts| == |t| && (index < |t| ==> t[index] == m)
    requires Prod(t, counts) * m == number
    ensures m <= 1 || index < |t| ==> (number >= 1 ==> Prod(t, Settled(counts, m, index)) == number)
    ensures m > 1 && index >= |t| && number >= 1 ==> Prod(t, Settled(counts, m, index)) < number
  {
    if m > 1 && index < |t| {
      ProdIncrement(t, counts, index);
    } else if m > 1 {
      ProperPart(Prod(t, counts), m, number);
    }
  }

  /** The remainder's count: one more when it is the prime last tried (the
    * source sets it to 1 instead); otherwise the counts after the last one
    * tried are zeroed up to it, and it is set to 1. */
  method CountRemainder(factors: array<nat>, j: nat, index: nat, ghost counts: seq<nat>)
    requires j <= index < factors.Length && |counts| == factors.Length
    requires forall k :: 0 <= k <= j ==> factors[k] == counts[k]
    requires forall k :: j < k < |counts| ==> counts[k] == 0
    modifies factors
    ensures forall k :: 0 <= k <= index ==> factors[k] == counts[index := counts[index] + 1][k]
  {
    if index == j {
      factors[index] := factors[index] + 1;
    } else {
      var i := j + 1;
      while i < index
        invariant j < i <= index
        invariant forall k :: 0 <= k <= j ==> factors[k] == counts[k]
        invariant forall k :: j < k < i ==> factors[k] == 0
      {
        factors[i] := 0;
        i := i + 1;
      }
      factors[index] := 1;
    }
  }

  /** The buffer after the remainder is counted holds the exponents of the
    * number up to the last index it reports. */
  lemma Settles(t: seq<nat>, number: nat, f: seq<nat>, counts: seq<nat>, m: nat, index: nat, j: nat, greatest: nat)
    requires |f| == |counts| == |t| && greatest <= j < |t|
    requires forall k :: greatest < k < |t| ==> counts[k] == 0
    requires Exponents(t, number) == Settled(counts, m, index)
    requires m > 1 ==> j <= index < |t| && forall k :: 0 <= k <= index ==> f[k] == counts[index := counts[index] + 1][k]
    requires m <= 1 ==> forall k :: 0 <= k <= j ==> f[k] == counts[k]
    ensures Decomposed(t, number, f, if m > 1 then index else greatest)
  {
  }

  /** The buffer holds the exponents of the number up to index `last`, and no
    * table prime after it divides the number. */
  ghost predicate Decomposed(t: seq<nat>, number: nat, f: seq<nat>, last: nat)
  {
    |f| == |t| && last < |t|
    && (forall k :: 0 <= k <= last ==> f[k] == Exponents(t, number)[k])
    && (forall k :: last < k < |t| ==> Exponents(t, number)[k] == 0)
  }

  /** A remainder of 0 or 1: the counts are complete. */
  lemma ConcludeUnit(t: seq<nat>, bound: nat, number: nat, m: nat, j: nat, greatest: nat, counts: seq<nat>, f: seq<nat>)
    requires Tally(t, f, number, bound, m, j, greatest, counts) && m <= 1 && |t| < WORD / 2
    ensures Decomposed(t, number, f, greatest)
    ensures number >= 1 ==> Prod(t, Exponents(t, number)) == number
  {
    SettledExponents(t, bound, number, m, counts, NOT_FOUND);
    SettledProduct(t, number, m, counts, NOT_FOUND);
    Settles(t, number, f, counts, m, NOT_FOUND, j, greatest);
  }

  /** A prime remainder missing from the table: the counts miss it, and the
    * number is at least the table's bound. */
  lemma ConcludeMissing(t: seq<nat>, bound: nat, number: nat, m: nat, j: nat, greatest: nat, counts: seq<nat>, f: seq<nat>)
    requires Tally(t, f, number, bound, m, j, greatest, counts) && m > 1 && IsPrime(m) && m !in t && |t| < WORD / 2
    ensures Prod(t, Exponents(t, number)) < number && number >= bound
  {
    SettledExponents(t, bound, number, m, counts, NOT_FOUND);
    SettledProduct(t, number, m, counts, NOT_FOUND);
  }

  /** The remainder's index is not before the last prime tried, since every
    * earlier prime was divided out. */
  lemma RemainderAfterTrials(t: seq<nat>, bound: nat, number: nat, m: nat, j: nat, greatest: nat, counts: seq<nat>, f: seq<nat>, index: nat)
    requires Tally(t, f, number, bound, m, j, greatest, counts) && m > 1
    requires index < |t| && t[index] == m
    ensures j <= index
  {
  }

  /** A prime remainder found at `index` and counted there completes the
    * counts. */
  lemma ConcludeFound(t: seq<nat>, bound: nat, number: nat, m: nat, j: nat, greatest: nat, counts: seq<nat>, f: seq<nat>,
                      index: nat, f': seq<nat>)
    requires Tally(t, f, number, bound, m, j, greatest, counts) && m > 1 && IsPrime(m) && |t| < WORD / 2
    requires j <= index < |t| && t[index] == m
    requires |f'| == |t| && forall k :: 0 <= k <= index ==> f'[k] == counts[index := counts[index] + 1][k]
    ensures Decomposed(t, number, f', index)
    ensures Prod(t, Exponents(t, number)) == number
  {
    assert m in t;
    SettledExponents(t, bound, number, m, counts, index);
    SettledProduct(t, number, m, counts, index);
    Settles(t, number, f', counts, m, index, j, greatest);
  }

  /** `decomposeSingle` with the remainder counted rather than overwritten:
    * when it equals the last prime divided by, that count goes up by one.
    * The counts agree with the exponents of the number up to the returned
    * index, and no prime after it divides the number. A remainder missing
    * from the table aborts with code 17; then some factor was dropped. A
    * number below the table's bound is never aborted on. */
  method DecomposeSingle(primes: array<nat>, factors: array<nat>, primeCount: nat, number: nat, ghost bound: nat)
    returns (r: Result<nat>)
    requires primes != factors
    requires 0 < primeCount <= primes.Length && factors.Length == primeCount && primeCount < WORD / 2
    requires IsPrimeTable(primes[..primeCount], bound)
    requires number < primes[primeCount - 1] * primes[primeCount - 1]
    modifies factors
    ensures r.Ok? ==> Decomposed(primes[..primeCount], number, factors[..], r.value)
    ensures r.Ok? && number >= 1 ==> Prod(primes[..primeCount], Exponents(primes[..primeCount], number)) == number
    ensures r.Abort? ==> (r.code == MISSING_PRIME_ERROR
      && Prod(primes[..primeCount], Exponents(primes[..primeCount], number)) < number)
    ensures number < bound ==> r.Ok?
  {
    ghost var t := primes[..primeCount];
    var m, j, greatest, counts := DivideOutLazily(primes, factors, primeCount, number, bound);
    ghost var f := factors[..];
    if m <= 1 {
      ConcludeUnit(t, bound, number, m, j, greatest, counts, f);
      return Ok(greatest);
    }
    RemainderIsPrime(t, bound, j, m);
    var index := IndexOfPrime(primes, primeCount, m);
    if index == NOT_FOUND {
      ConcludeMissing(t, bound, number, m, j, greatest, counts, f);
      return Abort(MISSING_PRIME_ERROR);
    }
    RemainderAfterTrials(t, bound, number, m, j, greatest, counts, f, index);
    CountRemainder(factors, j, index, counts);
    ConcludeFound(t, bound, number, m, j, greatest, counts, f, index, factors[..]);
    r := Ok(index);
  }

  /** `writeFactorsToFile`: the same loop as the basic variant's, over the
    * entries up to maxFactorIndex. */
  method WriteFactorsToFile(primes: array<nat>, factors: array<nat>, number: nat, maxFactorIndex: nat) returns (text: string)
    requires maxFactorIndex < primes.Length && maxFactorIndex < factors.Length
    ensures text == Line(number, primes[..maxFactorIndex + 1], factors[..maxFactorIndex + 1])
  {
    text := BasicDecomp.WriteFactorsToFile(primes, factors, maxFactorIndex + 1, number);
  }

  /** The line written for `number` is its complete line over the table. */
  method WriteSingle(primes: array<nat>, factors: array<nat>, primeCount: nat, number: nat, ghost bound: nat)
    returns (r: Result<string>)
    requires primes != factors
    requires 0 < primeCount <= primes.Length && factors.Length == primeCount && primeCount < WORD / 2
    requires IsPrimeTable(primes[..primeCount], bound)
    requires number < primes[primeCount - 1] * primes[primeCount - 1]
    modifies factors
    ensures r.Ok? ==> r.value == Line(number, primes[..primeCount], Exponents(primes[..primeCount], number))
    ensures r.Abort? ==> r.code == MISSING_PRIME_ERROR
    ensures number < bound ==> r.Ok?
  {
    ghost var t := primes[..primeCount];
    ghost var e := Exponents(t, number);
    var res := DecomposeSingle(primes, factors, primeCount, number, bound);
    if res.Abort? {
      return Abort(res.code);
    }
    var g := res.value;
    var text := WriteFactorsToFile(primes, factors, number, g);
    assert factors[..g + 1] == e[..g + 1];
    TermsZeroTail(t, e, g + 1);
    assert t[..g + 1] == primes[..g + 1];
    r := Ok(text);
  }

  /** `decompose`, one worker: the lines of its range, in order; the first
    * missing remainder aborts the process. */
  method Decompose(primes: array<nat>, primeCount: nat, firstNumber: nat, lastNumber: nat, ghost bound: nat)
    returns (r: Result<seq<string>>)
    requires 0 < primeCount <= primes.Length && primeCount < WORD / 2
    requires IsPrimeTable(primes[..primeCount], bound)
    requires lastNumber <= primes[primeCount - 1] * primes[primeCount - 1]
    ensures r.Ok? ==> r.value == Lines(primes[..primeCount], firstNumber, lastNumber)
    ensures r.Abort? ==> r.code == MISSING_PRIME_ERROR
    ensures lastNumber <= bound ==> r.Ok?
  {
    ghost var t := primes[..primeCount];
    var factors := new nat[primeCount];
    var lines: seq<string> := [];
    var i := firstNumber;
    while i < lastNumber
      invariant firstNumber <= i && (i <= lastNumber || i == firstNumber)
      invariant lines == Lines(t, firstNumber, i)
    {
      var res := WriteSingle(primes, factors, primeCount, i, bound);
      if res.Abort? {
        return Abort(res.code);
      }
      LinesSnoc(t, firstNumber, i);
      lines := lines + [res.value];
      i := i + 1;
    }
    r := Ok(lines);
  }

  /** One worker of `launchDecomposition`, on a range inside the table. */
  method DecomposeRange(primes: array<nat>, primeCount: nat, range: Range, tableSize: nat, ghost bound: nat)
    returns (r: Result<seq<string>>)
    requires 0 < primeCount <= primes.Length && primeCount < WORD / 2
    requires IsPrimeTable(primes[..primeCount], bound)
    requires range.last <= tableSize <= primes[primeCount - 1] * primes[primeCount - 1]
    ensures r.Ok? ==> r.value == Lines(primes[..primeCount], range.first, range.last)
    ensures r.Abort? ==> r.code == MISSING_PRIME_ERROR
    ensures tableSize <= bound ==> r.Ok?
  {
    r := Decompose(primes, primeCount, range.first, range.last, bound);
  }

  /** `launchDecomposition`: [0, tableSize) split over the workers, each
    * decomposing its range. Run one worker after the other, the file holds
    * every number's line in order. */
  method LaunchDecomposition(primes: array<nat>, primeCount: nat, tableSize: nat, threadCount: nat, ghost bound: nat)
    returns (r: Result<seq<string>>)
    requires threadCount > 0
    requires 0 < primeCount <= primes.Length && primeCount < WORD / 2
    requires IsPrimeTable(primes[..primeCount], bound)
    requires tableSize <= primes[primeCount - 1] * primes[primeCount - 1]
    ensures r.Ok? ==> r.value == Lines(primes[..primeCount], 0, tableSize)
    ensures r.Abort? ==> r.code == MISSING_PRIME_ERROR
    ensures tableSize <= bound ==> r.Ok?
  {
    ghost var t := primes[..primeCount];
    var ranges := SplitRange(0, tableSize, threadCount);
    var out: seq<string> := [];
    var i := 0;
    while i < threadCount
      invariant i <= threadCount
      invariant out == Lines(t, 0, Start(0, tableSize, threadCount, i))
    {
      RangeWithin(0, tableSize, threadCount, i);
      ghost var lo, hi := Start(0, tableSize, threadCount, i), Start(0, tableSize, threadCount, i + 1);
      var res := DecomposeRange(primes, primeCount, ranges[i], tableSize, bound);
      if res.Abort? {
        return Abort(res.code);
      }
      LinesSplit(t, 0, lo, hi);
      out := out + res.value;
      i := i + 1;
    }
    StartAtEnd(0, tableSize, threadCount);
    r := Ok(out);
  }
}
