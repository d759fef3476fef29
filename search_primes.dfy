/** The memory-efficient variant's prime search: a Fermat base-2 pre-filter
  * computed by square-and-multiply, then trial division against the shared
  * search buffer read from index 0; each worker writes the primes of its
  * range at its own cursor, and the slices are appended to the global
  * dynamic array in worker order. The workers run one after the other, in
  * index order. */
module SearchPrimes {
  import opened NumberTheory
  import opened Machine
  import opened Partition
  import opened DynamicArray
  import BasicDecomp
  import ThreadedPrimes

  /** Every number searched stays below this bound, so that the products of
    * two residues in `modpow` fit in a machine word. */
  const HALF_WORD: nat := 0x1_0000_0000

  // ----- modpow and the Fermat pre-filter -----------------------------------

  lemma ProductFits(a: nat, b: nat, m: nat)
    requires a <= m && b < m && m <= HALF_WORD
    ensures a * b < WORD
  {
    MulLe(b, a, m);
    MulLe(m, b, m);
    MulLe(m, m, HALF_WORD);
    MulLe(HALF_WORD, m, HALF_WORD);
  }

  /** One round of square-and-multiply keeps `result * base^exp` modulo `mod`. */
  lemma ModPowStep(r: nat, b: nat, e: nat, m: nat)
    requires m >= 1 && e > 0
    ensures ((if e % 2 == 1 then (r * b) % m else r) * Pow((b * b) % m, e / 2)) % m == (r * Pow(b, e)) % m
  {
    var h := e / 2;
    var r' := if e % 2 == 1 then (r * b) % m else r;
    var q := Pow(b * b, h);
    PowSquare(b, h);
    PowMod(b * b, h, m);
    MulModRight(r', Pow((b * b) % m, h), m);
    MulModRight(r', q, m);
    if e % 2 == 1 {
      MulModLeft(r * b, q, m);
      assert Pow(b, e) == b * q;
      assert (r * b) * q == r * (b * q);
    } else {
      assert e == 2 * h;
    }
  }

  /** The state `modpow` keeps between rounds. */
  ghost predicate ModPowState(result: nat, base: nat, exp: nat, base0: nat, exp0: nat, mod: nat)
    requires mod >= 1
  {
    base < mod && exp <= exp0
    && (result < mod || result == 1)
    && (result * Pow(base, exp)) % mod == Pow(base0, exp0) % mod
    && (exp0 > 0 && exp == 0 ==> result < mod)
    && (exp0 == 0 ==> result == 1)
  }

  /** One round keeps the state and its products fit in a machine word. */
  lemma ModPowRound(result: nat, base: nat, exp: nat, base0: nat, exp0: nat, mod: nat)
    requires 1 <= mod <= HALF_WORD && exp > 0
    requires ModPowState(result, base, exp, base0, exp0, mod)
    ensures result * base < WORD && base * base < WORD
    ensures ModPowState(if exp % 2 == 1 then (result * base) % mod else result, (base * base) % mod, exp / 2, base0, exp0, mod)
  {
    ModPowStep(result, base, exp, mod);
    ProductFits(result, base, mod);
    ProductFits(base, base, mod);
  }

  lemma ModPowStart(base0: nat, exp0: nat, mod: nat)
    requires 1 <= mod
    ensures ModPowState(1, base0 % mod, exp0, base0, exp0, mod)
  {
    PowMod(base0, exp0, mod);
  }

  lemma ModPowEnd(result: nat, base: nat, base0: nat, exp0: nat, mod: nat)
    requires 1 <= mod && ModPowState(result, base, 0, base0, exp0, mod)
    ensures result == if exp0 == 0 then 1 else Pow(base0, exp0) % mod
  {
    assert result * Pow(base, 0) == result;
    if exp0 > 0 {
      ModSmall(result, mod);
    }
  }

  /** `modpow`: square-and-multiply. For a positive exponent the result is
    * `base^exp mod mod`; for exponent 0 the loop does not run and the
    * result is 1, even when `mod` is 1. */
  method ModPow(base0: nat, exp0: nat, mod: nat) returns (result: nat)
    requires 1 <= mod <= HALF_WORD
    ensures result == if exp0 == 0 then 1 else Pow(base0, exp0) % mod
  {
    result := 1;
    var base: nat := base0 % mod;
    var exp: nat := exp0;
    ModPowStart(base0, exp0, mod);
    while exp > 0
      invariant ModPowState(result, base, exp, base0, exp0, mod)
    {
      ModPowRound(result, base, exp, base0, exp0, mod);
      if exp % 2 == 1 {
        result := (result * base) % mod;
      }
      exp := exp / 2;
      base := (base * base) % mod;
    }
    ModPowEnd(result, base, base0, exp0, mod);
  }

  /** `fermatTest`: the base-2 Fermat test. */
  method FermatTest(number: nat) returns (passes: bool)
    requires 2 <= number <= HALF_WORD
    ensures passes <==> Pow(2, number - 1) % number == 1
  {
    var r := ModPow(2, number - 1, number);
    passes := r == 1;
  }

  /** No odd prime fails the pre-filter. */
  lemma FermatKeepsPrimes(number: nat)
    requires 2 <= number <= HALF_WORD && IsPrime(number) && number != 2
    ensures Pow(2, number - 1) % number == 1
  {
    FermatBase2(number);
  }

  /** 341 = 11 * 31 passes the pre-filter: it is the trial division that
    * rejects it. */
  lemma PseudoprimePasses()
    ensures Pow(2, 340) % 341 == 1 && !IsPrime(341)
  {
    PowMod10(340);
    assert 341 % 11 == 0;
  }

  /** 2^(10k) leaves 1 modulo 341, since 2^10 = 1024 = 3 * 341 + 1. */
  lemma {:induction false} PowMod10(e: nat)
    requires e % 10 == 0
    ensures Pow(2, e) % 341 == 1
    decreases e
  {
    if e > 0 {
      PowMod10(e - 10);
      PowAdd(2, 10, e - 10);
      var x := Pow(2, e - 10);
      assert Pow(2, 10) == 1024;
      assert Pow(2, e) == 341 * (3 * x) + x;
      ModAddMultiple(x, 341, 3 * x);
    }
  }

  // ----- trial division against the search buffer ---------------------------

  /** Where `hasPotentialFactor` ends the scan: a zero entry, or one whose
    * square exceeds the number. */
  predicate Stops(f: nat, number: nat) {
    !(f * f <= number && f > 0)
  }

  /** `hasPotentialFactor`: reads entry `index` of the buffer and says
    * whether the scan goes on with it. */
  function HasPotentialFactor(buffer: array<nat>, index: nat, number: nat): (r: (bool, nat))
    reads buffer
    requires index < buffer.Length
    ensures r.1 == buffer[index]
    ensures r.0 <==> !Stops(buffer[index], number)
    ensures r.0 ==> 0 < r.1 <= number
  {
    var f := buffer[index];
    (f * f <= number && f > 0, f)
  }

  /** The index at which a scan started at `from` stops, or `|table|` when no
    * entry of the table stops it. */
  function FirstStop(table: seq<nat>, number: nat, from: nat): (s: nat)
    requires from <= |table|
    ensures from <= s <= |table|
    ensures forall k :: from <= k < s ==> !Stops(table[k], number)
    ensures s < |table| ==> Stops(table[s], number)
    decreases |table| - from
  {
    if from == |table| then |table|
    else if Stops(table[from], number) then from
    else FirstStop(table, number, from + 1)
  }

  /** What `isPrime` needs of the table it reads from index 0: the scan stops
    * inside it, every entry before the stop is prime, and every prime whose
    * square is at most the number is among those entries. */
  ghost predicate ScanTable(table: seq<nat>, number: nat) {
    var s := FirstStop(table, number, 0);
    s < |table|
    && (forall k :: 0 <= k < s ==> IsPrime(table[k]))
    && (forall q: nat :: IsPrime(q) && q * q <= number ==> q in table[..s])
  }

  /** `isPrime`: 2 at once, then the Fermat pre-filter, then trial division
    * by the buffer's entries until the scan stops. */
  method IsPrimeByTable(buffer: array<nat>, number: nat) returns (r: bool)
    requires 2 <= number <= HALF_WORD
    requires number != 2 ==> ScanTable(buffer[..], number)
    ensures r <==> IsPrime(number)
  {
    if number == 2 {
      return true;
    }
    var passes := FermatTest(number);
    if !passes {
      if IsPrime(number) {
        FermatBase2(number);
      }
      return false;
    }
    ghost var table := buffer[..];
    ghost var s := FirstStop(table, number, 0);
    var j := 0;
    var probe := HasPotentialFactor(buffer, j, number);
    while probe.0
      invariant j <= s < buffer.Length
      invariant probe == HasPotentialFactor(buffer, j, number)
      invariant forall k :: 0 <= k < j ==> number % table[k] != 0
      decreases s - j
    {
      var p := probe.1;
      TableEntryPrime(table, number, j);
      if number % p == 0 {
        DivisorFound(number, p);
        return false;
      }
      j := j + 1;
      probe := HasPotentialFactor(buffer, j, number);
    }
    NoDivisorFound(table, number, j);
    return true;
  }

  lemma TableEntryPrime(table: seq<nat>, number: nat, j: nat)
    requires ScanTable(table, number) && j < FirstStop(table, number, 0)
    ensures IsPrime(table[j])
  {
  }

  /** A prime divisor whose square is at most the number makes it composite. */
  lemma DivisorFound(number: nat, p: nat)
    requires IsPrime(p) && p * p <= number && number % p == 0
    ensures !IsPrime(number)
  {
    MulLe(2, p, p);
    assert 2 <= p < number;
  }

  /** A scan that reaches its stop without finding a divisor proves the
    * number prime. */
  lemma NoDivisorFound(table: seq<nat>, number: nat, s: nat)
    requires number >= 2 && ScanTable(table, number) && s == FirstStop(table, number, 0)
    requires forall k :: 0 <= k < s ==> number % table[k] != 0
    ensures IsPrime(number)
  {
    if !IsPrime(number) {
      CompositeHasSmallPrimeFactor(number);
    }
  }

  /** A buffer that starts with every prime below `hi` suits the scan of any
    * number `n` that some prime below `hi` has a square above. */
  lemma PrefixScan(table: seq<nat>, hi: nat, n: nat, p: nat)
    requires |PrimesIn(2, hi)| <= |table| && table[..|PrimesIn(2, hi)|] == PrimesIn(2, hi)
    requires IsPrime(p) && p < hi && p * p > n
    ensures ScanTable(table, n)
  {
    var ps := PrimesIn(2, hi);
    PrimesInSpec(2, hi);
    assert p in ps;
    var ip :| 0 <= ip < |ps| && ps[ip] == p;
    assert table[ip] == p;
    var s := FirstStop(table, n, 0);
    assert s <= ip;
    forall k | 0 <= k < s
      ensures IsPrime(table[k])
    {
      assert table[k] == ps[k] && ps[k] in ps;
    }
    forall q: nat | IsPrime(q) && q * q <= n
      ensures q in table[..s]
    {
      if q >= p {
        BasicDecomp.SquareMonotone(p, q);
      }
      assert q in ps;
      var iq :| 0 <= iq < |ps| && ps[iq] == q;
      assert table[s] == ps[s] && ps[s] in ps;
      if iq >= s {
        if iq > s {
          assert ps[s] < ps[iq];
        }
        BasicDecomp.SquareMonotone(ps[s], q);
        assert false;
      }
      assert table[..s][iq] == q;
    }
  }

  // ----- the workers ---------------------------------------------------------

  /** `approxPrimeCount`: 0 up to 1; above 1 a floating-point estimate of
    * how many primes lie below `x`, given here as `estimate`. */
  function ApproxPrimeCount(x: nat, estimate: nat -> nat): nat {
    if x <= 1 then 0 else estimate(x)
  }

  /** The arguments of one worker. */
  datatype PrimeData = PrimeData(firstNumber: nat, lastNumber: nat, firstIndex: nat, lastIndex: nat, threadId: nat, threadCount: nat)

  /** How many primes the worker finds in its range. */
  function Count(d: PrimeData): nat {
    |PrimesIn(d.firstNumber, d.lastNumber)|
  }

  /** Some prime below both `i` and `bound` has a square above `i`, so a
    * scan through the primes below `bound` stops before it runs out. */
  ghost predicate ScanReaches(i: nat, bound: nat) {
    exists p: nat :: IsPrime(p) && p < Min(i, bound) && p * p > i
  }

  ghost predicate Reachable(lo: nat, hi: nat, bound: nat) {
    forall i: nat :: lo <= i < hi && i >= 3 ==> ScanReaches(i, bound)
  }

  /** The sequence `s` with `w` written from position `at` on. */
  function Overwrite(s: seq<nat>, at: nat, w: seq<nat>): (r: seq<nat>)
    requires at + |w| <= |s|
    ensures |r| == |s| && r[..at] == s[..at] && r[at..at + |w|] == w
    ensures r[at + |w|..] == s[at + |w|..]
  {
    s[..at] + w + s[at + |w|..]
  }

  lemma OverwriteExtend(s: seq<nat>, at: nat, w: seq<nat>, x: nat)
    requires at + |w| < |s|
    ensures Overwrite(s, at, w + [x]) == Overwrite(s, at, w)[at + |w| := x]
  {
  }

  /** The table a worker's scan of `i` reads: its own primes so far after
    * the primes before its range, or a prefix holding the primes below
    * `hi`. */
  lemma WorkerScan(table: seq<nat>, b0: seq<nat>, start: nat, first: nat, last: nat, i: nat, hi: nat, own: bool)
    requires 2 <= first <= i < last && i != 2
    requires start + |PrimesIn(first, i)| <= |b0|
    requires table == Overwrite(b0, start, PrimesIn(first, i))
    requires |PrimesIn(2, hi)| <= start && b0[..|PrimesIn(2, hi)|] == PrimesIn(2, hi)
    requires own ==> hi == first && |PrimesIn(2, hi)| == start
    requires Reachable(first, last, if own then last else hi)
    ensures ScanTable(table, i)
  {
    assert ScanReaches(i, if own then last else hi);
    var p: nat :| IsPrime(p) && p < Min(i, if own then last else hi) && p * p > i;
    if own {
      PrimesInSplit(2, first, i);
      assert table[..start + |PrimesIn(first, i)|] == PrimesIn(2, first) + PrimesIn(first, i);
      PrefixScan(table, i, i, p);
    } else {
      var c := |PrimesIn(2, hi)|;
      assert table[..c] == table[..start][..c];
      PrefixScan(table, hi, i, p);
    }
  }

  /** `threadedFindPrimes`: tests every number of the worker's range and
    * writes each prime at the worker's cursor, which then advances. The
    * table the scan reads is either the primes before the range followed by
    * the worker's own (`own`), or a prefix holding the primes below `hi`. */
  method SearchWorker(buffer: array<nat>, progress: array<nat>, data: PrimeData, ghost hi: nat, ghost own: bool)
    requires buffer != progress
    requires data.threadId < progress.Length
    requires 2 <= data.firstNumber <= data.lastNumber <= HALF_WORD
    requires progress[data.threadId] + Count(data) <= buffer.Length
    requires |PrimesIn(2, hi)| <= progress[data.threadId] && buffer[..|PrimesIn(2, hi)|] == PrimesIn(2, hi)
    requires own ==> hi == data.firstNumber && |PrimesIn(2, hi)| == progress[data.threadId]
    requires Reachable(data.firstNumber, data.lastNumber, if own then data.lastNumber else hi)
    modifies buffer, progress
    ensures progress[..] == old(progress[..])[data.threadId := old(progress[data.threadId]) + Count(data)]
    ensures buffer[..] == Overwrite(old(buffer[..]), old(progress[data.threadId]), PrimesIn(data.firstNumber, data.lastNumber))
  {
    var id, first, last := data.threadId, data.firstNumber, data.lastNumber;
    ghost var start: nat := progress[id];
    ghost var b0 := buffer[..];
    ghost var p0 := progress[..];
    for i := first to last
      invariant progress[..] == p0[id := (start + |PrimesIn(first, i)|) as nat]
      invariant start + |PrimesIn(first, i)| <= buffer.Length
      invariant buffer[..] == Overwrite(b0, start, PrimesIn(first, i))
    {
      TestNumber(buffer, progress, data, i, hi, own, b0, p0, start);
    }
  }

  /** One round of the worker loop: tests `i` and records it when prime. */
  method TestNumber(buffer: array<nat>, progress: array<nat>, data: PrimeData, i: nat, ghost hi: nat, ghost own: bool,
                    ghost b0: seq<nat>, ghost p0: seq<nat>, ghost start: nat)
    requires buffer != progress && data.threadId < progress.Length == |p0|
    requires 2 <= data.firstNumber <= i < data.lastNumber <= HALF_WORD
    requires start + Count(data) <= |b0| == buffer.Length
    requires |PrimesIn(2, hi)| <= start && b0[..|PrimesIn(2, hi)|] == PrimesIn(2, hi)
    requires own ==> hi == data.firstNumber && |PrimesIn(2, hi)| == start
    requires Reachable(data.firstNumber, data.lastNumber, if own then data.lastNumber else hi)
    requires progress[..] == p0[data.threadId := (start + |PrimesIn(data.firstNumber, i)|) as nat]
    requires start + |PrimesIn(data.firstNumber, i)| <= |b0|
    requires buffer[..] == Overwrite(b0, start, PrimesIn(data.firstNumber, i))
    modifies buffer, progress
    ensures progress[..] == p0[data.threadId := (start + |PrimesIn(data.firstNumber, i + 1)|) as nat]
    ensures start + |PrimesIn(data.firstNumber, i + 1)| <= buffer.Length
    ensures buffer[..] == Overwrite(b0, start, PrimesIn(data.firstNumber, i + 1))
  {
    var id, first, last := data.threadId, data.firstNumber, data.lastNumber;
    if i != 2 {
      WorkerScan(buffer[..], b0, start, first, last, i, hi, own);
    }
    var found := IsPrimeByTable(buffer, i);
    RecordIfPrime(buffer, progress, id, i, found, b0, p0, start, first, last);
  }

  /** `if (isPrime(i)) searchBuffer[threadProgress[id]++] = i`. */
  method RecordIfPrime(buffer: array<nat>, progress: array<nat>, id: nat, i: nat, found: bool,
                       ghost b0: seq<nat>, ghost p0: seq<nat>, ghost start: nat, ghost first: nat, ghost last: nat)
    requires buffer != progress && id < progress.Length == |p0|
    requires first <= i < last && start + |PrimesIn(first, last)| <= |b0| == buffer.Length
    requires found <==> IsPrime(i)
    requires progress[..] == p0[id := (start + |PrimesIn(first, i)|) as nat]
    requires start + |PrimesIn(first, i)| <= |b0|
    requires buffer[..] == Overwrite(b0, start, PrimesIn(first, i))
    modifies buffer, progress
    ensures progress[..] == p0[id := (start + |PrimesIn(first, i + 1)|) as nat]
    ensures start + |PrimesIn(first, i + 1)| <= |b0|
    ensures buffer[..] == Overwrite(b0, start, PrimesIn(first, i + 1))
  {
    NextPrimes(first, i, last, |b0| - start);
    if found {
      Record(buffer, progress, id, i, b0, p0, start, PrimesIn(first, i), PrimesIn(first, i + 1));
    }
  }

  /** Testing `i` adds it to the worker's primes exactly when it is prime,
    * and they still fit wherever all of the range's primes fit. */
  lemma NextPrimes(first: nat, i: nat, last: nat, room: nat)
    requires first <= i < last && |PrimesIn(first, last)| <= room
    ensures PrimesIn(first, i + 1) == PrimesIn(first, i) + (if IsPrime(i) then [i] else [])
    ensures |PrimesIn(first, i + 1)| == |PrimesIn(first, i)| + (if IsPrime(i) then 1 else 0) <= room
  {
    PrimesInSplit(first, i + 1, last);
    PrimesInNext(first, i);
  }

  lemma PrimesInNext(lo: nat, hi: nat)
    requires lo <= hi
    ensures PrimesIn(lo, hi + 1) == PrimesIn(lo, hi) + (if IsPrime(hi) then [hi] else [])
  {
  }

  /** `searchBuffer[threadProgress[id]++] = i`: writes one prime at the
    * worker's cursor and advances the cursor. */
  method Record(buffer: array<nat>, progress: array<nat>, id: nat, x: nat,
                ghost b0: seq<nat>, ghost p0: seq<nat>, ghost start: nat, ghost w: seq<nat>, ghost w': seq<nat>)
    requires buffer != progress && id < progress.Length == |p0|
    requires start + |w| < |b0| == buffer.Length && w' == w + [x]
    requires progress[..] == p0[id := (start + |w|) as nat]
    requires buffer[..] == Overwrite(b0, start, w)
    modifies buffer, progress
    ensures progress[..] == p0[id := (start + |w'|) as nat]
    ensures buffer[..] == Overwrite(b0, start, w')
  {
    OverwriteExtend(b0, start, w, x);
    buffer[progress[id]] := x;
    assert buffer[..] == old(buffer[..])[start + |w| := x];
    progress[id] := progress[id] + 1;
    assert progress[..] == old(progress[..])[id := start + |w| + 1];
  }

  /** The worker arguments `createThreads` fills in: the partition of
    * `[2, limit)`, each cursor starting at the estimated count of primes
    * before its range. */
  function Inputs(limit: nat, threadCount: nat, estimate: nat -> nat): (ds: seq<PrimeData>)
    requires limit >= 2 && threadCount > 0
    ensures |ds| == threadCount
  {
    seq(threadCount, k requires 0 <= k < threadCount => Input(limit, threadCount, estimate, k))
  }

  /** Worker `k`'s arguments: range `k` of the partition. */
  function Input(limit: nat, threadCount: nat, estimate: nat -> nat, k: nat): PrimeData
    requires limit >= 2 && threadCount > 0
  {
    var first, last := Start(2, limit - 2, threadCount, k), Start(2, limit - 2, threadCount, k + 1);
    PrimeData(first, last, ApproxPrimeCount(first - 1, estimate), ApproxPrimeCount(last - 1, estimate), k, threadCount)
  }

  /** `createThreads`: the partition loop from origin 2, writing each
    * worker's starting cursor into `progress`. */
  method CreateThreads(progress: array<nat>, limit: nat, threadCount: nat, estimate: nat -> nat) returns (inputs: seq<PrimeData>)
    requires limit >= 2 && threadCount > 0 && progress.Length == threadCount
    modifies progress
    ensures inputs == Inputs(limit, threadCount, estimate)
    ensures forall k :: 0 <= k < threadCount ==> progress[k] == inputs[k].firstIndex
  {
    var previousLastNumber := 2;
    var iterCount := limit - 2;
    var perThread := iterCount / threadCount;
    var surplus := iterCount % threadCount;
    inputs := [];
    for i := 0 to threadCount
      invariant previousLastNumber == Start(2, iterCount, threadCount, i)
      invariant surplus == iterCount % threadCount - Min(i, iterCount % threadCount)
      invariant inputs == Inputs(limit, threadCount, estimate)[..i]
      invariant forall k :: 0 <= k < i ==> progress[k] == inputs[k].firstIndex
    {
      assert perThread + (if surplus > 0 then 1 else 0) == Share(iterCount, threadCount, i);
      StartMonotone(2, iterCount, threadCount, 0, i);
      var firstNumber := previousLastNumber;
      var lastNumber := firstNumber + perThread;
      if surplus > 0 {
        lastNumber := lastNumber + 1;
        surplus := surplus - 1;
      }
      var firstIndex := ApproxPrimeCount(previousLastNumber - 1, estimate);
      progress[i] := firstIndex;
      previousLastNumber := lastNumber;
      var lastIndex := ApproxPrimeCount(lastNumber - 1, estimate);
      RangeAt(2, iterCount, threadCount, i);
      assert Inputs(limit, threadCount, estimate)[..i + 1] == Inputs(limit, threadCount, estimate)[..i] + [PrimeData(firstNumber, lastNumber, firstIndex, lastIndex, i, threadCount)];
      inputs := inputs + [PrimeData(firstNumber, lastNumber, firstIndex, lastIndex, i, threadCount)];
    }
    assert inputs == Inputs(limit, threadCount, estimate);
  }

  // ----- joining the slices -------------------------------------------------

  /** Worker `k`'s slice of the buffer: from its first index to its cursor. */
  function Slices(buffer: seq<nat>, cursors: seq<nat>, inputs: seq<PrimeData>): (ss: seq<seq<nat>>)
    requires |cursors| == |inputs|
    requires forall k :: 0 <= k < |inputs| ==> inputs[k].firstIndex <= cursors[k] <= |buffer|
    ensures |ss| == |inputs|
  {
    seq(|inputs|, k requires 0 <= k < |inputs| => buffer[inputs[k].firstIndex..cursors[k]])
  }

  /** `combineSearchResults`: appends every worker's slice to the dynamic
    * array, in worker order. */
  method CombineSearchResults(darray: DArray<nat>, buffer: array<nat>, progress: array<nat>, inputs: seq<PrimeData>)
    requires darray.Valid() && progress.Length == |inputs|
    requires forall k :: 0 <= k < |inputs| ==> inputs[k].firstIndex <= progress[k] <= buffer.Length
    modifies darray
    ensures darray.Valid()
    ensures darray.Elements() == old(darray.Elements()) + Concat(Slices(buffer[..], progress[..], inputs))
  {
    ghost var b := buffer[..];
    ghost var ss := Slices(b, progress[..], inputs);
    for i := 0 to |inputs|
      invariant darray.Valid()
      invariant darray.Elements() == old(darray.Elements()) + Concat(ss[..i])
    {
      AppendSlice(darray, buffer, inputs[i].firstIndex, progress[i]);
      ConcatPrefix(ss, i);
    }
    assert ss[..|inputs|] == ss;
  }

  /** The inner loop of `combineSearchResults`: one worker's slice,
    * element by element. */
  method AppendSlice(darray: DArray<nat>, buffer: array<nat>, from: nat, to: nat)
    requires darray.Valid() && from <= to <= buffer.Length
    modifies darray
    ensures darray.Valid()
    ensures darray.Elements() == old(darray.Elements()) + buffer[from..to]
  {
    ghost var b := buffer[..];
    for j := from to to
      invariant darray.Valid()
      invariant darray.Elements() == old(darray.Elements()) + b[from..j]
    {
      darray.Add(buffer[j]);
      SliceSnoc(b, from, j);
    }
  }

  lemma SliceSnoc(s: seq<nat>, from: nat, to: nat)
    requires from <= to < |s|
    ensures s[from..to + 1] == s[from..to] + [s[to]]
  {
  }

  /** `getArrayLength`: the sum of the cursors of the workers before
    * `data.threadId`. */
  method GetArrayLength(progress: array<nat>, data: PrimeData) returns (size: nat)
    requires data.threadId <= progress.Length
    ensures size == Sum(progress[..data.threadId])
  {
    size := 0;
    for i := 0 to data.threadId
      invariant size == Sum(progress[..i])
    {
      assert progress[..i + 1][..i] == progress[..i];
      size := size + progress[i];
    }
  }

  // ----- the whole search --------------------------------------------------

  /** What the search needs of `approxPrimeCount`: every worker's primes
    * fit between its first index and its last index, and the last worker's
    * last index is inside the buffer of `approxPrimeCount(limit)` entries. */
  ghost predicate SlicesFit(limit: nat, threadCount: nat, estimate: nat -> nat)
    requires limit >= 2 && threadCount > 0
  {
    (forall k :: 0 <= k < threadCount ==>
       Input(limit, threadCount, estimate, k).firstIndex + Count(Input(limit, threadCount, estimate, k))
       <= Input(limit, threadCount, estimate, k).lastIndex)
    && Input(limit, threadCount, estimate, threadCount - 1).lastIndex <= ApproxPrimeCount(limit, estimate)
  }

  /** The worker inputs follow the partition of `[2, limit)`. */
  lemma InputsFollow(limit: nat, threadCount: nat, estimate: nat -> nat, k: nat)
    requires limit >= 2 && threadCount > 0 && k < threadCount
    ensures Input(limit, threadCount, estimate, k).threadId == k
    ensures 2 <= Input(limit, threadCount, estimate, 0).lastNumber
    ensures 2 <= Input(limit, threadCount, estimate, k).firstNumber <= Input(limit, threadCount, estimate, k).lastNumber <= limit
    ensures k > 0 ==> Input(limit, threadCount, estimate, 0).lastNumber <= Input(limit, threadCount, estimate, k).firstNumber
    ensures k + 1 < threadCount ==> Input(limit, threadCount, estimate, k + 1).firstIndex == Input(limit, threadCount, estimate, k).lastIndex
    ensures Input(limit, threadCount, estimate, 0).firstNumber == 2 && Input(limit, threadCount, estimate, 0).firstIndex == 0
  {
    InputBounds(limit, threadCount, estimate, k);
    InputBounds(limit, threadCount, estimate, 0);
    if k > 0 {
      StartMonotone(2, limit - 2, threadCount, 1, k);
    }
  }

  lemma InputBounds(limit: nat, threadCount: nat, estimate: nat -> nat, k: nat)
    requires limit >= 2 && threadCount > 0 && k < threadCount
    ensures Input(limit, threadCount, estimate, k).threadId == k
    ensures 2 <= Input(limit, threadCount, estimate, k).firstNumber <= Input(limit, threadCount, estimate, k).lastNumber <= limit
    ensures k == 0 ==> Input(limit, threadCount, estimate, 0).firstNumber == 2 && Input(limit, threadCount, estimate, 0).firstIndex == 0
  {
    StartMonotone(2, limit - 2, threadCount, k, k + 1);
    StartMonotone(2, limit - 2, threadCount, k + 1, threadCount);
    StartAtEnd(2, limit - 2, threadCount);
  }

  lemma {:induction false} LastIndexMonotone(limit: nat, threadCount: nat, estimate: nat -> nat, j: nat, k: nat)
    requires limit >= 2 && threadCount > 0 && j <= k < threadCount
    requires SlicesFit(limit, threadCount, estimate)
    ensures Input(limit, threadCount, estimate, j).lastIndex <= Input(limit, threadCount, estimate, k).lastIndex
    decreases k
  {
    if j < k {
      LastIndexMonotone(limit, threadCount, estimate, j, k - 1);
      IndexHandOver(limit, threadCount, estimate, k - 1);
      assert Input(limit, threadCount, estimate, k).firstIndex + Count(Input(limit, threadCount, estimate, k))
        <= Input(limit, threadCount, estimate, k).lastIndex;
    }
  }

  /** Each worker's first index is the last index of the worker before. */
  lemma IndexHandOver(limit: nat, threadCount: nat, estimate: nat -> nat, k: nat)
    requires limit >= 2 && k + 1 < threadCount
    ensures Input(limit, threadCount, estimate, k + 1).firstIndex == Input(limit, threadCount, estimate, k).lastIndex
  {
  }

  /** The slices lie one after the other inside the buffer. */
  lemma SlicesOrdered(limit: nat, threadCount: nat, estimate: nat -> nat, j: nat, k: nat)
    requires limit >= 2 && threadCount > 0 && j < k < threadCount
    requires SlicesFit(limit, threadCount, estimate)
    ensures Input(limit, threadCount, estimate, j).firstIndex + Count(Input(limit, threadCount, estimate, j))
      <= Input(limit, threadCount, estimate, k).firstIndex
  {
    LastIndexMonotone(limit, threadCount, estimate, j, k - 1);
    IndexHandOver(limit, threadCount, estimate, k - 1);
    assert Input(limit, threadCount, estimate, j).firstIndex + Count(Input(limit, threadCount, estimate, j))
      <= Input(limit, threadCount, estimate, j).lastIndex;
  }

  lemma SliceInBuffer(limit: nat, threadCount: nat, estimate: nat -> nat, k: nat)
    requires limit >= 2 && threadCount > 0 && k < threadCount
    requires SlicesFit(limit, threadCount, estimate)
    ensures Input(limit, threadCount, estimate, k).firstIndex + Count(Input(limit, threadCount, estimate, k))
      <= ApproxPrimeCount(limit, estimate)
  {
    LastIndexMonotone(limit, threadCount, estimate, k, threadCount - 1);
  }

  /** `findPrimes`: a search buffer of `approxPrimeCount(limit)` entries
    * holding whatever `garbage` says, the cursors zeroed, the partition,
    * the workers in index order, then the slices appended in worker
    * order: the array gains exactly the primes below `limit`, ascending. */
  method FindPrimes(darray: DArray<nat>, limit: nat, threadCount: nat, estimate: nat -> nat, garbage: nat -> nat)
    requires darray.Valid()
    requires 2 <= limit <= HALF_WORD && threadCount > 0
    requires SlicesFit(limit, threadCount, estimate)
    requires Reachable(2, limit, Input(limit, threadCount, estimate, 0).lastNumber)
    modifies darray
    ensures darray.Valid()
    ensures darray.Elements() == old(darray.Elements()) + PrimesBelow(limit)
  {
    var buffer, progress, inputs := Search(limit, threadCount, estimate, garbage);
    CombineSearchResults(darray, buffer, progress, inputs);
  }

  /** The search itself, up to the joining of the slices. */
  method Search(limit: nat, threadCount: nat, estimate: nat -> nat, garbage: nat -> nat)
    returns (buffer: array<nat>, progress: array<nat>, inputs: seq<PrimeData>)
    requires 2 <= limit <= HALF_WORD && threadCount > 0
    requires SlicesFit(limit, threadCount, estimate)
    requires Reachable(2, limit, Input(limit, threadCount, estimate, 0).lastNumber)
    ensures progress.Length == |inputs|
    ensures forall k :: 0 <= k < |inputs| ==> inputs[k].firstIndex <= progress[k] <= buffer.Length
    ensures Concat(Slices(buffer[..], progress[..], inputs)) == PrimesBelow(limit)
  {
    var bufferSize := ApproxPrimeCount(limit, estimate);
    buffer := new nat[bufferSize](k => garbage(k));
    progress := new nat[threadCount](_ => 0);
    inputs := CreateThreads(progress, limit, threadCount, estimate);
    for i := 0 to threadCount
      invariant forall k :: 0 <= k < threadCount ==> progress[k] == inputs[k].firstIndex + (if k < i then Count(inputs[k]) else 0)
      invariant forall k :: 0 <= k < i ==> Written(buffer[..], inputs[k])
    {
      RunWorker(buffer, progress, limit, threadCount, estimate, inputs, i);
    }
    JoinedSlices(buffer[..], progress[..], limit, threadCount, estimate, inputs);
  }

  /** The worker's slice holds the primes of its range. */
  ghost predicate Written(buffer: seq<nat>, d: PrimeData) {
    d.firstIndex + Count(d) <= |buffer|
    && buffer[d.firstIndex..d.firstIndex + Count(d)] == PrimesIn(d.firstNumber, d.lastNumber)
  }

  /** Worker `i` of `findPrimes`: it reads the primes worker 0 wrote (or,
    * for worker 0, its own) and writes its slice without touching the
    * slices before it. */
  method RunWorker(buffer: array<nat>, progress: array<nat>, limit: nat, threadCount: nat, estimate: nat -> nat,
                   inputs: seq<PrimeData>, i: nat)
    requires 2 <= limit <= HALF_WORD && threadCount > 0 && i < threadCount
    requires inputs == Inputs(limit, threadCount, estimate)
    requires buffer != progress && progress.Length == threadCount && buffer.Length == ApproxPrimeCount(limit, estimate)
    requires SlicesFit(limit, threadCount, estimate)
    requires Reachable(2, limit, inputs[0].lastNumber)
    requires forall k :: 0 <= k < threadCount ==> progress[k] == inputs[k].firstIndex + (if k < i then Count(inputs[k]) else 0)
    requires forall k :: 0 <= k < i ==> Written(buffer[..], inputs[k])
    modifies buffer, progress
    ensures forall k :: 0 <= k < threadCount ==> progress[k] == inputs[k].firstIndex + (if k < i + 1 then Count(inputs[k]) else 0)
    ensures forall k :: 0 <= k < i + 1 ==> Written(buffer[..], inputs[k])
  {
    var d := inputs[i];
    InputsFollow(limit, threadCount, estimate, i);
    InputsFollow(limit, threadCount, estimate, 0);
    SliceInBuffer(limit, threadCount, estimate, i);
    ghost var end0 := inputs[0].lastNumber;
    ghost var hi := if i == 0 then 2 else end0;
    if i > 0 {
      SlicesOrdered(limit, threadCount, estimate, 0, i);
      assert buffer[..|PrimesIn(2, end0)|] == buffer[0..0 + Count(inputs[0])];
    }
    ghost var b0 := buffer[..];
    ghost var fi := d.firstIndex;
    SearchWorker(buffer, progress, d, hi, i == 0);
    forall k | 0 <= k < i
      ensures Written(buffer[..], inputs[k])
    {
      SlicesOrdered(limit, threadCount, estimate, k, i);
      WrittenKept(b0, buffer[..], fi, inputs[k]);
    }
  }

  /** A slice before `at` survives a write that leaves `[0, at)` alone. */
  lemma WrittenKept(b0: seq<nat>, b1: seq<nat>, at: nat, d: PrimeData)
    requires at <= |b0| && at <= |b1| && b1[..at] == b0[..at]
    requires Written(b0, d) && d.firstIndex + Count(d) <= at
    ensures Written(b1, d)
  {
    var lo, up := d.firstIndex, d.firstIndex + Count(d);
    assert b1[lo..up] == b1[..at][lo..up];
    assert b0[lo..up] == b0[..at][lo..up];
  }

  /** The appended slices are the primes below the limit. */
  lemma JoinedSlices(buffer: seq<nat>, cursors: seq<nat>, limit: nat, threadCount: nat, estimate: nat -> nat, inputs: seq<PrimeData>)
    requires limit >= 2 && threadCount > 0
    requires inputs == Inputs(limit, threadCount, estimate) && |cursors| == threadCount
    requires forall k :: 0 <= k < threadCount ==> cursors[k] == inputs[k].firstIndex + Count(inputs[k])
    requires forall k :: 0 <= k < threadCount ==> Written(buffer, inputs[k])
    ensures forall k :: 0 <= k < threadCount ==> inputs[k].firstIndex <= cursors[k] <= |buffer|
    ensures Concat(Slices(buffer, cursors, inputs)) == PrimesBelow(limit)
  {
    assert Slices(buffer, cursors, inputs) == ThreadedPrimes.CorrectTables(limit, threadCount);
    ThreadedPrimes.CorrectJoin(limit, threadCount);
  }
}
