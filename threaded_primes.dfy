/** The threaded variant's prime search: [2, limit) is split into one range
  * per worker, each worker trial-divides its range by the primes it has found
  * itself, and the workers' tables are joined in worker order. Workers run
  * here one after another, in index order. */
module ThreadedPrimes {
  import opened NumberTheory
  import opened Partition
  import BasicDecomp

  /** The worker's test of i: no entry p of its own table with p * p <= i
    * divides i. (The table ascends, so the source's scan, which stops at the
    * first p with p * p > i, sees exactly these entries.) */
  predicate Survives(table: seq<nat>, i: nat)
  {
    forall k :: 0 <= k < |table| && 0 < table[k] && table[k] * table[k] <= i ==> i % table[k] != 0
  }

  /** The table a worker owning [first, ...) has built once it reaches i. */
  function OwnPrimes(first: nat, i: nat): seq<nat>
    decreases i
  {
    if i <= first then []
    else
      var t := OwnPrimes(first, i - 1);
      t + (if Survives(t, i - 1) then [i - 1] else [])
  }

  /** A worker's table ascends, lies in [first, i), and has at most one
    * entry per candidate. */
  lemma {:induction false} OwnPrimesBounds(first: nat, i: nat)
    ensures StrictlyIncreasing(OwnPrimes(first, i))
    ensures forall k :: 0 <= k < |OwnPrimes(first, i)| ==> first <= OwnPrimes(first, i)[k] < i
    ensures first <= i ==> |OwnPrimes(first, i)| <= i - first
    decreases i
  {
    if i > first {
      OwnPrimesBounds(first, i - 1);
    }
  }

  /** Tables only grow as the worker advances. */
  lemma {:induction false} OwnPrimesGrow(first: nat, i: nat, j: nat)
    requires i <= j
    ensures |OwnPrimes(first, i)| <= |OwnPrimes(first, j)|
    ensures forall x :: x in OwnPrimes(first, i) ==> x in OwnPrimes(first, j)
    decreases j
  {
    if i < j {
      OwnPrimesGrow(first, i, j - 1);
    }
  }

  lemma SquareExceeds(p: nat)
    requires p >= 2
    ensures p * p >= 2 * p
  {
    BasicDecomp.SquareMonotone(2, p);
    MulLe(p, 2, p);
  }

  /** A prime passes the test against any table of numbers from 2 up. */
  lemma KeepsPrime(t: seq<nat>, x: nat)
    requires IsPrime(x) && forall k :: 0 <= k < |t| ==> t[k] >= 2
    ensures Survives(t, x)
  {
    forall k | 0 <= k < |t| && 0 < t[k] && t[k] * t[k] <= x
      ensures x % t[k] != 0
    {
      SquareExceeds(t[k]);
    }
  }

  /** A worker never loses a prime of its range. */
  lemma {:induction false} OwnPrimesKeepPrimes(first: nat, i: nat, x: nat)
    requires first >= 2 && first <= x < i && IsPrime(x)
    ensures x in OwnPrimes(first, i)
    decreases i
  {
    if x < i - 1 {
      OwnPrimesKeepPrimes(first, i - 1, x);
    } else {
      OwnPrimesBounds(first, i - 1);
      KeepsPrime(OwnPrimes(first, i - 1), x);
    }
    OwnPrimesGrow(first, x + 1, i);
  }

  /** Starting at 2, a worker's own table is exactly the primes so far: every
    * composite has a prime factor whose square fits, and it is already in
    * the table. */
  lemma {:induction false} OwnPrimesFromTwo(n: nat)
    ensures OwnPrimes(2, n) == PrimesIn(2, n)
    decreases n
  {
    if n > 2 {
      var i := n - 1;
      OwnPrimesFromTwo(i);
      var t := PrimesIn(2, i);
      PrimesInSpec(2, i);
      if IsPrime(i) {
        forall k | 0 <= k < |t| ensures t[k] >= 2 { assert t[k] in t; }
        KeepsPrime(t, i);
      } else {
        CompositeHasSmallPrimeFactor(i);
        var q: nat :| IsPrime(q) && q * q <= i && i % q == 0;
        SquareExceeds(q);
        assert q in t;
        var k :| 0 <= k < |t| && t[k] == q;
        assert !Survives(t, i);
      }
    }
  }

  /** The work item of one thread: its range, its table and how many entries
    * it wrote. */
  class PrimeData {
    const firstNumber: nat
    const lastNumber: nat
    var outPrimeCount: nat
    const primes: array<nat>
    const threadId: nat

    constructor (firstNumber: nat, lastNumber: nat, primes: array<nat>, threadId: nat)
      ensures this.firstNumber == firstNumber && this.lastNumber == lastNumber
      ensures this.primes == primes && this.threadId == threadId && outPrimeCount == 0
    {
      this.firstNumber := firstNumber;
      this.lastNumber := lastNumber;
      this.primes := primes;
      this.threadId := threadId;
      outPrimeCount := 0;
    }

    /** The trial loop for one candidate: is i divisible by none of the
      * first `index` table entries whose square is at most i? */
    method TrialDivide(index: nat, i: nat) returns (isPrime: bool)
      requires index <= primes.Length && StrictlyIncreasing(primes[..index])
      requires forall k :: 0 <= k < index ==> primes[k] >= 2
      ensures isPrime <==> Survives(primes[..index], i)
    {
      ghost var t := primes[..index];
      assert forall k :: 0 <= k < index ==> t[k] == primes[k];
      isPrime := true;
      var j := 0;
      while j < index && primes[j] * primes[j] <= i
        invariant j <= index
        invariant forall k :: 0 <= k < j ==> i % t[k] != 0
      {
        if i % primes[j] == 0 {
          assert t[j] == primes[j];
          isPrime := false;
          break;
        }
        j := j + 1;
      }
      if isPrime && j < index {
        forall k | j <= k < index
          ensures i < t[k] * t[k]
        {
          assert t[j] == primes[j];
          BasicDecomp.SquareMonotone(t[j], t[k]);
        }
      }
    }

    /** `threadedFindPrimes`: every candidate of the range that survives
      * trial division by the table so far is appended to the table. */
    method ThreadedFindPrimes()
      requires firstNumber >= 2
      requires |OwnPrimes(firstNumber, lastNumber)| <= primes.Length
      modifies this, primes
      ensures outPrimeCount <= primes.Length
      ensures primes[..outPrimeCount] == OwnPrimes(firstNumber, lastNumber)
    {
      var index := 0;
      var i := firstNumber;
      while i < lastNumber
        invariant firstNumber <= i && (i <= lastNumber || i == firstNumber)
        invariant index <= primes.Length
        invariant primes[..index] == OwnPrimes(firstNumber, i)
      {
        OwnPrimesBounds(firstNumber, i);
        var isPrime := TrialDivide(index, i);
        if isPrime {
          OwnPrimesGrow(firstNumber, i + 1, lastNumber);
          primes[index] := i;
          assert primes[..index + 1] == primes[..index] + [i];
          index := index + 1;
        }
        i := i + 1;
      }
      outPrimeCount := index;
    }

    /** The fix: trial division by every divisor candidate up to `isqrt(i)`,
      * as in the basic variant, so the answer does not depend on what other
      * workers find. */
    method FindPrimesByTrial()
      requires firstNumber >= 2 && |PrimesIn(firstNumber, lastNumber)| <= primes.Length
      modifies this, primes
      ensures outPrimeCount <= primes.Length
      ensures primes[..outPrimeCount] == PrimesIn(firstNumber, lastNumber)
    {
      var index := 0;
      var i := firstNumber;
      while i < lastNumber
        invariant firstNumber <= i && (i <= lastNumber || i == firstNumber)
        invariant index <= primes.Length
        invariant primes[..index] == PrimesIn(firstNumber, i)
      {
        var isPrime := BasicDecomp.IsPrimeByTrial(i);
        PrimesInSplit(firstNumber, i + 1, lastNumber);
        if isPrime {
          primes[index] := i;
          assert primes[..index + 1] == primes[..index] + [i];
          index := index + 1;
        }
        i := i + 1;
      }
      outPrimeCount := index;
    }
  }

  /** The tables the workers build over the partition of [2, limit). */
  function WorkerTables(limit: nat, threadCount: nat): (ws: seq<seq<nat>>)
    requires limit >= 2 && threadCount > 0
    ensures |ws| == threadCount
  {
    var rs := Ranges(2, limit - 2, threadCount);
    seq(threadCount, k requires 0 <= k < threadCount => OwnPrimes(rs[k].first, rs[k].last))
  }

  /** What `findPrimes` returns: the worker tables joined in worker order. */
  function ThreadedTable(limit: nat, threadCount: nat): seq<nat>
    requires limit >= 2 && threadCount > 0
  {
    Concat(WorkerTables(limit, threadCount))
  }

  /** The slots `findPrimes` gives each worker: limit / threadCount. */
  function TableSlotsAsWritten(limit: nat, threadCount: nat): nat
    requires threadCount > 0
  {
    limit / threadCount
  }

  /** Every worker's table fits its slots. */
  predicate TablesFit(limit: nat, threadCount: nat, slots: nat)
    requires limit >= 2 && threadCount > 0
  {
    forall k :: 0 <= k < threadCount ==> |WorkerTables(limit, threadCount)[k]| <= slots
  }

  /** The joined tables never hold more than limit - 2 entries: each table is
    * at most its range's size, and the sizes add up to limit - 2. */
  lemma {:induction false} JoinedLength(limit: nat, threadCount: nat, i: nat)
    requires limit >= 2 && threadCount > 0 && i <= threadCount
    ensures |Concat(WorkerTables(limit, threadCount)[..i])| + 2 <= Start(2, limit - 2, threadCount, i)
  {
    var ws := WorkerTables(limit, threadCount);
    if i > 0 {
      JoinedLength(limit, threadCount, i - 1);
      ConcatPrefix(ws, i - 1);
      RangeAt(2, limit - 2, threadCount, i - 1);
      StartMonotone(2, limit - 2, threadCount, i - 1, i);
      var rs := Ranges(2, limit - 2, threadCount);
      OwnPrimesBounds(rs[i - 1].first, rs[i - 1].last);
    }
  }

  lemma JoinedFits(limit: nat, threadCount: nat)
    requires limit >= 2 && threadCount > 0
    ensures |ThreadedTable(limit, threadCount)| <= limit - 2
  {
    var ws := WorkerTables(limit, threadCount);
    JoinedLength(limit, threadCount, threadCount);
    assert ws[..threadCount] == ws;
    RangesContiguous(2, limit - 2, threadCount);
    RangeAt(2, limit - 2, threadCount, threadCount - 1);
  }

  /** Copies `src` into `dst` from `offset` on: the concatenation loop's
    * inner loop. */
  method CopyInto(dst: array<nat>, offset: nat, src: seq<nat>)
    requires offset + |src| <= dst.Length
    modifies dst
    ensures dst[..offset + |src|] == old(dst[..offset]) + src
  {
    var j := 0;
    while j < |src|
      invariant j <= |src|
      invariant dst[..offset + j] == old(dst[..offset]) + src[..j]
    {
      dst[j + offset] := src[j];
      assert dst[..offset + j + 1] == dst[..offset + j] + [src[j]];
      assert src[..j + 1] == src[..j] + [src[j]];
      j := j + 1;
    }
    assert src[..j] == src;
  }

  /** Joins the workers' tables into `primes`, in worker order, and returns
    * the total count. */
  method Combine(primes: array<nat>, tables: seq<seq<nat>>) returns (primeCount: nat)
    requires |Concat(tables)| <= primes.Length
    modifies primes
    ensures primeCount <= primes.Length && primes[..primeCount] == Concat(tables)
  {
    primeCount := 0;
    var i := 0;
    while i < |tables|
      invariant i <= |tables|
      invariant primeCount == |Concat(tables[..i])| <= |Concat(tables)|
      invariant primes[..primeCount] == Concat(tables[..i])
    {
      ConcatPrefix(tables, i);
      ConcatGrows(tables, i + 1);
      CopyInto(primes, primeCount, tables[i]);
      primeCount := primeCount + |tables[i]|;
      i := i + 1;
    }
    assert tables[..i] == tables;
  }

  lemma {:induction false} ConcatGrows(ss: seq<seq<nat>>, i: nat)
    requires i <= |ss|
    ensures |Concat(ss[..i])| <= |Concat(ss)|
    decreases |ss|
  {
    if i < |ss| {
      var n := |ss| - 1;
      assert ss[..n][..i] == ss[..i];
      ConcatGrows(ss[..n], i);
    } else {
      assert ss[..i] == ss;
    }
  }

  /** `findPrimes`: partition from 2, one table of limit / threadCount slots
    * per worker, the workers in index order, then the join. */
  method FindPrimes(primes: array<nat>, limit: nat, threadCount: nat) returns (primeCount: nat)
    requires limit >= 2 && threadCount > 0 && limit - 2 <= primes.Length
    requires TablesFit(limit, threadCount, TableSlotsAsWritten(limit, threadCount))
    modifies primes
    ensures primeCount <= primes.Length
    ensures primes[..primeCount] == ThreadedTable(limit, threadCount)
  {
    var iterCount := limit - 2;
    var ranges := SplitRange(2, iterCount, threadCount);
    var tables: seq<seq<nat>> := [];
    var i := 0;
    while i < threadCount
      invariant i <= threadCount && |tables| == i
      invariant forall k :: 0 <= k < i ==> tables[k] == WorkerTables(limit, threadCount)[k]
    {
      var table := new nat[limit / threadCount];
      var input := new PrimeData(ranges[i].first, ranges[i].last, table, i);
      assert |OwnPrimes(input.firstNumber, input.lastNumber)| == |WorkerTables(limit, threadCount)[i]|;
      StartMonotone(2, iterCount, threadCount, 0, i);
      RangeAt(2, iterCount, threadCount, i);
      input.ThreadedFindPrimes();
      tables := tables + [table[..input.outPrimeCount]];
      i := i + 1;
    }
    assert tables == WorkerTables(limit, threadCount);
    JoinedFits(limit, threadCount);
    primeCount := Combine(primes, tables);
  }

  /** With one worker the result is exactly the primes below the limit. */
  lemma OneWorkerFindsPrimes(limit: nat)
    requires limit >= 2
    ensures ThreadedTable(limit, 1) == PrimesBelow(limit)
  {
    var ws := WorkerTables(limit, 1);
    RangesContiguous(2, limit - 2, 1);
    RangeAt(2, limit - 2, 1, 0);
    OwnPrimesFromTwo(limit);
    assert ws[..0] == [];
    assert Concat(ws) == Concat(ws[..0]) + ws[0];
  }

  /** For any number of workers the result holds every prime below the
    * limit, and only numbers from [2, limit). */
  lemma NoPrimeMissed(limit: nat, threadCount: nat, x: nat)
    requires limit >= 2 && threadCount > 0
    ensures IsPrime(x) && x < limit ==> x in ThreadedTable(limit, threadCount)
    ensures x in ThreadedTable(limit, threadCount) ==> 2 <= x < limit
  {
    var rs := Ranges(2, limit - 2, threadCount);
    var ws := WorkerTables(limit, threadCount);
    RangesCover(2, limit - 2, threadCount, x);
    if IsPrime(x) && x < limit {
      var k :| 0 <= k < threadCount && rs[k].Contains(x);
      StartMonotone(2, limit - 2, threadCount, 0, k);
      RangeAt(2, limit - 2, threadCount, k);
      OwnPrimesKeepPrimes(rs[k].first, rs[k].last, x);
      ConcatMember(ws, k, x);
    }
    if x in Concat(ws) {
      ConcatSource(ws, x);
      var k :| 0 <= k < threadCount && x in ws[k];
      OwnPrimesBounds(rs[k].first, rs[k].last);
      var m :| 0 <= m < |ws[k]| && ws[k][m] == x;
      assert rs[k].Contains(x);
    }
  }

  lemma RangesOfThirty()
    ensures Ranges(2, 28, 3)[1] == Range(12, 21)
  {
    assert Share(28, 3, 0) == 10 && Share(28, 3, 1) == 9;
    assert Start(2, 28, 3, 1) == 12 && Start(2, 28, 3, 2) == 21;
    RangeAt(2, 28, 3, 1);
  }

  /** Limit 30 with three workers: worker 1 owns [12, 21), starts with an
    * empty table and accepts 12. */
  lemma AcceptsTwelve()
    ensures 12 in ThreadedTable(30, 3) && !IsPrime(12)
  {
    RangesOfThirty();
    assert OwnPrimes(12, 13) == [12];
    OwnPrimesGrow(12, 13, 21);
    ConcatMember(WorkerTables(30, 3), 1, 12);
    assert 12 % 2 == 0;
  }

  /** Limit 7 with four workers: worker 0 owns [2, 4) and finds 2 and 3, but
    * is given 7 / 4 = 1 slot. */
  lemma SlotsOverflowAsWritten()
    ensures Ranges(2, 5, 4)[0] == Range(2, 4)
    ensures |WorkerTables(7, 4)[0]| == 2 > TableSlotsAsWritten(7, 4)
    ensures !TablesFit(7, 4, TableSlotsAsWritten(7, 4))
  {
    assert Share(5, 4, 0) == 2;
    assert Start(2, 5, 4, 1) == 4;
    RangeAt(2, 5, 4, 0);
    assert OwnPrimes(2, 3) == [2];
    assert OwnPrimes(2, 4) == [2, 3];
  }

  /** The fix for the slots: a range's own size always suffices. */
  lemma RangeSizeFits(limit: nat, threadCount: nat, k: nat)
    requires limit >= 2 && threadCount > 0 && k < threadCount
    ensures |WorkerTables(limit, threadCount)[k]| <= Ranges(2, limit - 2, threadCount)[k].Size()
    ensures |PrimesIn(Ranges(2, limit - 2, threadCount)[k].first, Ranges(2, limit - 2, threadCount)[k].last)|
      <= Ranges(2, limit - 2, threadCount)[k].Size()
  {
    var r := Ranges(2, limit - 2, threadCount)[k];
    RangeSize(2, limit - 2, threadCount, k);
    OwnPrimesBounds(r.first, r.last);
    PrimesInLength(r.first, r.last);
  }

  /** The correct tables joined over the first i ranges are the primes below
    * the start of range i. */
  lemma {:induction false} JoinedPrimes(limit: nat, threadCount: nat, i: nat)
    requires limit >= 2 && threadCount > 0 && i <= threadCount
    ensures Concat(CorrectTables(limit, threadCount)[..i]) == PrimesIn(2, Start(2, limit - 2, threadCount, i))
  {
    var cs := CorrectTables(limit, threadCount);
    if i > 0 {
      JoinedPrimes(limit, threadCount, i - 1);
      ConcatPrefix(cs, i - 1);
      RangeAt(2, limit - 2, threadCount, i - 1);
      StartMonotone(2, limit - 2, threadCount, 0, i - 1);
      StartMonotone(2, limit - 2, threadCount, i - 1, i);
      PrimesInSplit(2, Start(2, limit - 2, threadCount, i - 1), Start(2, limit - 2, threadCount, i));
    }
  }

  /** Each worker's table under the fix: the primes of its range. */
  function CorrectTables(limit: nat, threadCount: nat): (cs: seq<seq<nat>>)
    requires limit >= 2 && threadCount > 0
    ensures |cs| == threadCount
  {
    var rs := Ranges(2, limit - 2, threadCount);
    seq(threadCount, k requires 0 <= k < threadCount => PrimesIn(rs[k].first, rs[k].last))
  }

  /** Under the fix the joined result is the primes below the limit for
    * every number of workers. */
  lemma CorrectJoin(limit: nat, threadCount: nat)
    requires limit >= 2 && threadCount > 0
    ensures Concat(CorrectTables(limit, threadCount)) == PrimesBelow(limit)
  {
    JoinedPrimes(limit, threadCount, threadCount);
    assert CorrectTables(limit, threadCount)[..threadCount] == CorrectTables(limit, threadCount);
    RangesContiguous(2, limit - 2, threadCount);
    RangeAt(2, limit - 2, threadCount, threadCount - 1);
  }

  /** `findPrimes` with both fixes: each worker gets as many slots as its
    * range has numbers and tests candidates by full trial division. */
  method CorrectedFindPrimes(primes: array<nat>, limit: nat, threadCount: nat) returns (primeCount: nat)
    requires limit >= 2 && threadCount > 0 && limit - 2 <= primes.Length
    modifies primes
    ensures primeCount <= primes.Length
    ensures primes[..primeCount] == PrimesBelow(limit)
  {
    var iterCount := limit - 2;
    var ranges := SplitRange(2, iterCount, threadCount);
    var tables: seq<seq<nat>> := [];
    var i := 0;
    while i < threadCount
      invariant i <= threadCount && |tables| == i
      invariant forall k :: 0 <= k < i ==> tables[k] == CorrectTables(limit, threadCount)[k]
    {
      var table := new nat[ranges[i].Size()];
      var input := new PrimeData(ranges[i].first, ranges[i].last, table, i);
      RangeSizeFits(limit, threadCount, i);
      StartMonotone(2, iterCount, threadCount, 0, i);
      RangeAt(2, iterCount, threadCount, i);
      input.FindPrimesByTrial();
      tables := tables + [table[..input.outPrimeCount]];
      i := i + 1;
    }
    assert tables == CorrectTables(limit, threadCount);
    CorrectJoin(limit, threadCount);
    PrimesInLength(2, limit);
    primeCount := Combine(primes, tables);
  }
}
