/** The memory-efficient variant's decomposition stage. The primes are not
  * held in memory: every worker reads them one at a time from the binary
  * prime file, which starts with the prime count followed by the primes in
  * ascending order. Factors and their counts go to two dynamic arrays, and
  * only numbers with at least one factor recorded get a line. */
module StreamDecomposition {
  import opened NumberTheory
  import opened FactorLine
  import opened Outcome
  import opened Partition
  import opened DynamicArray
  import opened BasicDecomp

  /** Length of the file's header, in words: the prime count. */
  const HEADER_LENGTH: nat := 1

  /** The binary prime file as main writes it: the count, then the primes. */
  function PrimeFile(ps: seq<nat>): (data: seq<nat>)
    ensures |data| == |ps| + HEADER_LENGTH && data[0] == |ps|
  {
    [|ps|] + ps
  }

  /** After the header, word k + 1 of the file is the k-th prime. */
  lemma PrimeFileEntry(ps: seq<nat>, k: nat)
    requires k < |ps|
    ensures PrimeFile(ps)[k + HEADER_LENGTH] == ps[k]
  {
  }

  /** An open prime file: its words and the read position, in words. */
  class PrimeListFile {
    const data: seq<nat>
    var position: nat

    /** `fopen(path, "rb")`: positioned at the start. */
    constructor Open(data: seq<nat>)
      ensures this.data == data && position == 0
    {
      this.data := data;
      position := 0;
    }

    /** `getNextPrime`: the word at the position, which then moves on; at the
      * end of the file the process exits with code 7. */
    method GetNextPrime() returns (r: Result<nat>)
      modifies this
      ensures r == NextWord(data, old(position))
      ensures position == if old(position) < |data| then old(position) + 1 else old(position)
    {
      if position < |data| {
        r := Ok(data[position]);
        position := position + 1;
      } else {
        r := Abort(END_OF_FILE_ERROR);
      }
    }

    /** `fseek(file, offset, SEEK_SET)`, in words. */
    method Seek(offset: nat)
      modifies this
      ensures position == offset
    {
      position := offset;
    }
  }

  function NextWord(data: seq<nat>, pos: nat): Result<nat>
  {
    if pos < |data| then Ok(data[pos]) else Abort(END_OF_FILE_ERROR)
  }

  /** The words from `pos` on are usable divisors. */
  predicate DivisorsFrom(data: seq<nat>, pos: nat)
  {
    forall k :: pos <= k < |data| ==> data[k] >= 2
  }

  predicate Positive(cs: seq<nat>)
  {
    forall k :: 0 <= k < |cs| ==> cs[k] > 0
  }

  // ----- `isPrime`: trial division by the primes read from the file --------

  /** The loop of `isPrime`, going on from the file position `pos`: at most
    * primeCount primes are read; a prime whose square exceeds the number
    * ends the search with "prime", a divisor with "not prime". Returns the
    * verdict and the position afterwards. */
  function ScanFile(data: seq<nat>, pos: nat, j: nat, primeCount: nat, number: nat): (r: (Result<bool>, nat))
    requires forall k :: pos <= k < |data| ==> data[k] > 0
    ensures r.0.Abort? ==> r.0.code == END_OF_FILE_ERROR
    decreases primeCount - j
  {
    if j < primeCount then
      if pos < |data| then
        var p := data[pos];
        if p * p <= number then
          if number % p == 0 then (Ok(false), pos + 1)
          else ScanFile(data, pos + 1, j + 1, primeCount, number)
        else (Ok(true), pos + 1)
      else (Abort(END_OF_FILE_ERROR), pos)
    else (Ok(true), pos)
  }

  /** "Not prime" is only said of numbers that are not prime; so a prime
    * number is called prime, unless the file ends first. */
  lemma {:induction false} ScanSound(data: seq<nat>, pos: nat, j: nat, primeCount: nat, number: nat)
    requires DivisorsFrom(data, pos)
    ensures ScanFile(data, pos, j, primeCount, number).0 == Ok(false) ==> !IsPrime(number)
    ensures IsPrime(number) ==> ScanFile(data, pos, j, primeCount, number).0 in {Ok(true), Abort(END_OF_FILE_ERROR)}
    decreases primeCount - j
  {
    if j < primeCount && pos < |data| {
      var p := data[pos];
      if p * p <= number {
        if number % p == 0 {
          MulLe(p, 2, p);
          assert 2 <= p < number;
        } else {
          ScanSound(data, pos + 1, j + 1, primeCount, number);
        }
      }
    }
  }

  /** Tested against a divisor table that holds every prime up to the
    * number's square root, a number is called prime exactly when it is. */
  lemma {:induction false} ScanComplete(data: seq<nat>, pos: nat, j: nat, primeCount: nat, number: nat, ps: seq<nat>, i: nat, limit: nat)
    requires IsPrimeTable(ps, limit) && i < |ps| && j <= primeCount
    requires number >= 2 && number < ps[|ps| - 1] * ps[|ps| - 1]
    requires data == PrimeFile(ps) && pos == i + HEADER_LENGTH && |ps| - i <= primeCount - j
    requires forall k :: 0 <= k < i ==> number % ps[k] != 0
    ensures ScanFile(data, pos, j, primeCount, number).0 == Ok(IsPrime(number))
    decreases primeCount - j
  {
    var p := ps[i];
    assert data[pos] == p;
    if p * p <= number {
      if number % p != 0 {
        if i == |ps| - 1 {
          assert false;
        }
        ScanComplete(data, pos + 1, j + 1, primeCount, number, ps, i + 1, limit);
      } else {
        MulLe(p, 2, p);
        assert 2 <= p < number;
      }
    } else {
      RemainderIsPrime(ps, limit, i, number);
    }
  }

  /** `isPrime`: reads on from where the file stands. */
  method IsPrimeFromFile(file: PrimeListFile, primeCount: nat, number: nat) returns (r: Result<bool>)
    requires forall k :: file.position <= k < |file.data| ==> file.data[k] > 0
    modifies file
    ensures r == ScanFile(file.data, old(file.position), 0, primeCount, number).0
    ensures file.position == ScanFile(file.data, old(file.position), 0, primeCount, number).1
  {
    ghost var pos0 := file.position;
    var j := 0;
    while j < primeCount
      invariant pos0 <= file.position
      invariant ScanFile(file.data, file.position, j, primeCount, number) == ScanFile(file.data, pos0, 0, primeCount, number)
      decreases primeCount - j
    {
      var p := file.GetNextPrime();
      if p.Abort? {
        return Abort(p.code);
      }
      if p.value * p.value > number {
        return Ok(true);
      }
      if number % p.value == 0 {
        return Ok(false);
      }
      j := j + 1;
    }
    r := Ok(true);
  }

  // ----- `decomposeSingle` as written (a value model of its steps) ----------

  /** Where the trial loop stops: the remainder, the factors and counts so
    * far, and the file position. */
  datatype Stop = Stop(remainder: nat, factors: seq<nat>, counts: seq<nat>, position: nat)

  /** The trial loop of `decomposeSingle` as written: every test of the loop
    * condition reads a new prime, also after a division, so a division is
    * followed by a test against the next prime, and a repeated factor is
    * counted against whatever prime was read. */
  function LoopAsWritten(data: seq<nat>, pos: nat, number: nat, fs: seq<nat>, cs: seq<nat>, newFactor: bool): (r: Result<Stop>)
    requires forall k :: pos <= k < |data| ==> data[k] > 0
    requires |fs| == |cs| && (newFactor || |cs| > 0)
    ensures r.Ok? ==> |r.value.factors| == |r.value.counts| && pos < r.value.position <= |data|
    decreases |data| - pos
  {
    if pos < |data| then
      var p := data[pos];
      if p * p <= number then
        if number % p == 0 then
          if newFactor then LoopAsWritten(data, pos + 1, number / p, fs + [p], cs + [1], false)
          else LoopAsWritten(data, pos + 1, number / p, fs, cs[|cs| - 1 := cs[|cs| - 1] + 1], false)
        else LoopAsWritten(data, pos + 1, number, fs, cs, true)
      else Ok(Stop(number, fs, cs, pos + 1))
    else Abort(END_OF_FILE_ERROR)
  }

  /** `decomposeSingle` as written, reading from position `pos`: a remainder
    * above 1 is tested with `isPrime` from where the loop left the file; if
    * prime it is added as a new factor unless it is the number itself, and
    * otherwise the process exits with code 17. */
  function DecomposeAsWritten(data: seq<nat>, pos: nat, primeCount: nat, number: nat): Result<(seq<nat>, seq<nat>)>
    requires forall k :: pos <= k < |data| ==> data[k] > 0
  {
    match LoopAsWritten(data, pos, number, [], [], true)
    case Abort(code) => Abort(code)
    case Ok(s) =>
      if s.remainder > 1 then
        match ScanFile(data, s.position, 0, primeCount, s.remainder).0
        case Abort(code) => Abort(code)
        case Ok(isPrime) =>
          if !isPrime then Abort(MISSING_PRIME_ERROR)
          else if s.remainder != number then Ok((s.factors + [s.remainder], s.counts + [1]))
          else Ok((s.factors, s.counts))
      else Ok((s.factors, s.counts))
  }

  /** 30 = 2 * 3 * 5 is written "30 = 2^2 * 5": after dividing by 2 the loop
    * reads 3, divides by it and counts it as a second 2; the remainder 5 is
    * then added. The factors multiply to 20. (A file without its header.) */
  lemma ThirtyAsWritten()
    ensures DecomposeAsWritten([2, 3, 5, 7, 11], 0, 5, 30) == Ok(([2, 5], [2, 1]))
    ensures Prod([2, 5], [2, 1]) == 20
  {
    ThirtyLoop();
    assert ScanFile([2, 3, 5, 7, 11], 3, 0, 5, 5) == (Ok(true), 4);
    assert [2] + [5] == [2, 5] && [2] + [1] == [2, 1];
    ThirtyProduct();
  }

  /** The trial loop on 30 stops at remainder 5 with 2 counted twice. */
  lemma ThirtyLoop()
    ensures LoopAsWritten([2, 3, 5, 7, 11], 0, 30, [], [], true) == Ok(Stop(5, [2], [2], 3))
  {
    ThirtyDivisions();
    assert LoopAsWritten([2, 3, 5, 7, 11], 2, 5, [2], [2], false) == Ok(Stop(5, [2], [2], 3));
  }

  /** The two divisions, by 2 and then by 3 counted as 2. */
  lemma ThirtyDivisions()
    ensures LoopAsWritten([2, 3, 5, 7, 11], 0, 30, [], [], true) == LoopAsWritten([2, 3, 5, 7, 11], 2, 5, [2], [2], false)
  {
    ThirtyByTwo();
    ThirtyByThree();
  }

  /** 30 is divided by 2, a new factor. */
  lemma ThirtyByTwo()
    ensures LoopAsWritten([2, 3, 5, 7, 11], 0, 30, [], [], true) == LoopAsWritten([2, 3, 5, 7, 11], 1, 15, [2], [1], false)
  {
    assert [] + [2] == [2] && [] + [1] == [1];
  }

  /** 15 is divided by 3, counted against 2. */
  lemma ThirtyByThree()
    ensures LoopAsWritten([2, 3, 5, 7, 11], 1, 15, [2], [1], false) == LoopAsWritten([2, 3, 5, 7, 11], 2, 5, [2], [2], false)
  {
    assert [1][0 := 2] == [2];
  }

  /** 2^2 * 5 is 20. */
  lemma ThirtyProduct()
    ensures Prod([2, 5], [2, 1]) == 20
  {
    assert Pow(2, 2) == 4 && Pow(5, 1) == 5;
    assert Prod([2], [2]) == 4 by {
      assert [2][..0] == [];
    }
    assert [2, 5][..1] == [2] && [2, 1][..1] == [2];
  }

  /** The term for 2 counted twice. */
  lemma TwoSquared()
    ensures Terms([2], [2]) == " = 2^2"
  {
    assert Decimal(2) == "2";
    assert [2][..0] == [] && [2][..0] == [];
    assert Term(2, 2, true) == " = 2^2";
  }

  /** The terms for those factors of 30. */
  lemma ThirtyTerms()
    ensures Terms([2, 5], [2, 1]) == " = 2^2 * 5"
  {
    TwoSquared();
    assert Decimal(5) == "5";
    assert [2, 5][..1] == [2] && [2, 1][..1] == [2];
    assert !NoneCounted([2]);
    assert Term(5, 1, false) == " * 5";
  }

  /** The line written for those factors of 30. */
  lemma ThirtyText()
    ensures FactorText(30, [2, 5], [2, 1]) == "30 = 2^2 * 5\n"
  {
    ThirtyTerms();
    assert Decimal(30) == Decimal(3) + [DigitChar(0)] == "30";
  }

  /** 4 = 2^2 is written "4 = 2 * 2": the remainder 2 left after one division
    * is the prime just divided by, and it is added a second time. */
  lemma FourAsWritten()
    ensures DecomposeAsWritten([2, 3, 5, 7], 0, 4, 4) == Ok(([2, 2], [1, 1]))
    ensures !StrictlyIncreasing([2, 2])
  {
    var data := [2, 3, 5, 7];
    assert [] + [2] == [2] && [] + [1] == [1];
    assert [2, 2][0] == [2, 2][1];
    assert LoopAsWritten(data, 0, 4, [], [], true) == LoopAsWritten(data, 1, 2, [2], [1], false);
    assert LoopAsWritten(data, 1, 2, [2], [1], false) == Ok(Stop(2, [2], [1], 2));
    assert ScanFile(data, 2, 0, 4, 2) == (Ok(true), 3);
    assert [2] + [2] == [2, 2] && [1] + [1] == [1, 1];
  }

  /** A prime gets no factors, hence no line. */
  lemma SevenAsWritten()
    ensures DecomposeAsWritten([2, 3, 5, 7], 0, 4, 7) == Ok(([], []))
  {
    var data := [2, 3, 5, 7];
    assert LoopAsWritten(data, 0, 7, [], [], true) == LoopAsWritten(data, 1, 7, [], [], true);
    assert LoopAsWritten(data, 1, 7, [], [], true) == Ok(Stop(7, [], [], 2));
    assert ScanFile(data, 2, 0, 4, 7) == (Ok(true), 3);
  }

  /** Read from the start of the file, the first "prime" is the count in the
    * header. For the primes below 10 the count is 4: the loop stops at once
    * on 4, `isPrime` goes on with 2, which divides 4, and the process exits
    * with code 17 at the number 4. */
  lemma HeaderAsWritten()
    ensures DecomposeAsWritten(PrimeFile([2, 3, 5, 7]), 0, 4, 4) == Abort(MISSING_PRIME_ERROR)
  {
    var data := PrimeFile([2, 3, 5, 7]);
    assert data == [4, 2, 3, 5, 7];
    assert LoopAsWritten(data, 0, 4, [], [], true) == Ok(Stop(4, [], [], 1));
    assert ScanFile(data, 1, 0, 4, 4) == (Ok(false), 2);
  }

  // ----- `decomposeSingle` corrected -----------------------------------------

  /** A factorisation of `number` as the program records it: nothing for 0, 1
    * and primes; otherwise ascending primes with positive counts whose product
    * is the number. */
  ghost predicate Factorisation(fs: seq<nat>, cs: seq<nat>, number: nat)
  {
    |fs| == |cs|
    && if number < 2 || IsPrime(number) then fs == []
       else fs != [] && AllPrime(fs) && StrictlyIncreasing(fs) && Positive(cs) && Prod(fs, cs) == number
  }

  /** The line written for recorded factors: none when there are none. */
  function FactorText(number: nat, fs: seq<nat>, cs: seq<nat>): (text: string)
    requires |fs| == |cs|
    ensures text == "" <==> fs == []
  {
    if fs == [] then "" else Line(number, fs, cs)
  }

  /** What the trial loop keeps, with m the remainder and ps[j] the prime
    * under test: the factors recorded so far are ascending primes up to
    * ps[j] (ps[j] itself when the last division was by it), their product
    * times m is the number, and no earlier prime divides m. Once a factor is
    * recorded, the first one is a proper divisor of the number. */
  ghost predicate Trial(ps: seq<nat>, number: nat, m: nat, j: nat, fs: seq<nat>, cs: seq<nat>, newFactor: bool)
  {
    UnderTest(ps, j) && Recorded(fs, cs) && j < |ps| && RecordedUpTo(fs, ps[j], newFactor)
    && Accounts(number, m, fs, cs) && NotDividing(ps, j, m)
  }

  /** The state of the trial loop between rounds: Trial, with p the prime
    * under test read from just past it in the file. */
  ghost predicate Round(ps: seq<nat>, number: nat, m: nat, j: nat, fs: seq<nat>, cs: seq<nat>, newFactor: bool, p: nat, position: nat)
  {
    Trial(ps, number, m, j, fs, cs, newFactor) && p == ps[j] && position == j + HEADER_LENGTH + 1
  }

  /** The table is ascending, its entries divisors, ps[j] a prime. */
  ghost predicate UnderTest(ps: seq<nat>, j: nat)
  {
    StrictlyIncreasing(ps) && DivisorsFrom(ps, 0) && j < |ps| && IsPrime(ps[j])
  }

  /** Ascending primes with positive counts. */
  ghost predicate Recorded(fs: seq<nat>, cs: seq<nat>)
  {
    |fs| == |cs| && AllPrime(fs) && StrictlyIncreasing(fs) && Positive(cs)
  }

  /** The factors are at most p; the last is p unless p is new. */
  ghost predicate RecordedUpTo(fs: seq<nat>, p: nat, newFactor: bool)
  {
    (forall k :: 0 <= k < |fs| ==> fs[k] <= p)
    && (newFactor ==> forall k :: 0 <= k < |fs| ==> fs[k] < p)
    && (!newFactor ==> |fs| > 0 && fs[|fs| - 1] == p)
  }

  /** The product of the factors times the remainder m is the number, and a
    * first factor is a proper divisor of it. */
  ghost predicate Accounts(number: nat, m: nat, fs: seq<nat>, cs: seq<nat>)
    requires |fs| == |cs|
  {
    m <= number && m * Prod(fs, cs) == number
    && (fs == [] ==> m == number)
    && (fs != [] ==> 0 < fs[0] < number && number % fs[0] == 0)
  }

  /** No prime before ps[j] divides m. */
  ghost predicate NotDividing(ps: seq<nat>, j: nat, m: nat)
    requires DivisorsFrom(ps, 0) && j <= |ps|
  {
    forall k :: 0 <= k < j ==> m % ps[k] != 0
  }

  /** One more division by p: a new factor, or one more of the last. */
  function Counting(fs: seq<nat>, cs: seq<nat>, p: nat, newFactor: bool): (r: (seq<nat>, seq<nat>))
    requires |fs| == |cs| && (newFactor || |cs| > 0)
    ensures |r.0| == |r.1| && |r.0| > 0
  {
    if newFactor then (fs + [p], cs + [1]) else (fs, cs[|cs| - 1 := cs[|cs| - 1] + 1])
  }

  lemma TrialStart(ps: seq<nat>, limit: nat, number: nat)
    requires IsPrimeTable(ps, limit) && |ps| > 0
    ensures Trial(ps, number, number, 0, [], [], true)
  {
  }

  /** Counting p multiplies the product by p. */
  lemma CountingProd(fs: seq<nat>, cs: seq<nat>, p: nat, newFactor: bool)
    requires |fs| == |cs| && (newFactor || (|cs| > 0 && fs[|fs| - 1] == p))
    ensures Prod(Counting(fs, cs, p, newFactor).0, Counting(fs, cs, p, newFactor).1) == Prod(fs, cs) * p
  {
    if newFactor {
      ProdAppend(fs, cs, p, 1);
    } else {
      ProdIncrement(fs, cs, |cs| - 1);
    }
  }

  /** Counting a prime not below the recorded factors, and above them when it
    * is new, keeps them ascending primes with positive counts. */
  lemma CountingShape(fs: seq<nat>, cs: seq<nat>, p: nat, newFactor: bool)
    requires |fs| == |cs| && AllPrime(fs) && StrictlyIncreasing(fs) && Positive(cs) && IsPrime(p)
    requires newFactor ==> forall k :: 0 <= k < |fs| ==> fs[k] < p
    requires !newFactor ==> |fs| > 0 && fs[|fs| - 1] == p
    ensures AllPrime(Counting(fs, cs, p, newFactor).0) && StrictlyIncreasing(Counting(fs, cs, p, newFactor).0)
    ensures Positive(Counting(fs, cs, p, newFactor).1)
    ensures Counting(fs, cs, p, newFactor).0[|Counting(fs, cs, p, newFactor).0| - 1] == p
    ensures forall k :: 0 <= k < |Counting(fs, cs, p, newFactor).0| ==> Counting(fs, cs, p, newFactor).0[k] <= p
    ensures fs != [] ==> Counting(fs, cs, p, newFactor).0[0] == fs[0]
  {
    if !newFactor {
      assert forall k :: 0 <= k < |fs| - 1 ==> fs[k] < fs[|fs| - 1];
    }
  }

  /** Dividing m by p keeps it free of the primes that did not divide it. */
  lemma QuotientCoprime(ps: seq<nat>, j: nat, m: nat, p: nat)
    requires j <= |ps| && p > 0 && m % p == 0 && DivisorsFrom(ps, 0)
    requires forall k :: 0 <= k < j ==> m % ps[k] != 0
    ensures forall k :: 0 <= k < j ==> (m / p) % ps[k] != 0
  {
    forall k | 0 <= k < j
      ensures (m / p) % ps[k] != 0
    {
      var q, t := ps[k], m / p;
      if t % q == 0 {
        assert m == t * p;
        var u := t / q;
        assert t == q * u;
        assert m == q * (u * p);
        MulMod(q, u * p);
      }
    }
  }

  /** m = p * (m / p) turns m * prod into (m / p) * (prod * p). */
  lemma Regroup(prod: nat, p: nat, m: nat)
    requires p > 0 && m % p == 0
    ensures (m / p) * (prod * p) == m * prod
  {
    var q := m / p;
    assert m == p * q;
    assert q * (prod * p) == (p * q) * prod;
  }

  /** A division by the prime under test keeps the loop's account. */
  lemma TrialDivide(ps: seq<nat>, number: nat, m: nat, j: nat, fs: seq<nat>, cs: seq<nat>, newFactor: bool)
    requires Trial(ps, number, m, j, fs, cs, newFactor)
    requires ps[j] * ps[j] <= m && m % ps[j] == 0
    ensures m / ps[j] < m
    ensures Trial(ps, number, m / ps[j], j, Counting(fs, cs, ps[j], newFactor).0, Counting(fs, cs, ps[j], newFactor).1, false)
  {
    var p := ps[j];
    MulLe(p, 2, p);
    QuotientBounds(m, p);
    CountingProd(fs, cs, p, newFactor);
    CountingShape(fs, cs, p, newFactor);
    Regroup(Prod(fs, cs), p, m);
    QuotientCoprime(ps, j, m, p);
    assert forall k :: 0 <= k < j ==> ps[k] < ps[j];
  }

  /** Moving to the next prime, once the one under test does not divide. */
  lemma TrialAdvance(ps: seq<nat>, limit: nat, number: nat, m: nat, j: nat, fs: seq<nat>, cs: seq<nat>, newFactor: bool)
    requires IsPrimeTable(ps, limit) && Trial(ps, number, m, j, fs, cs, newFactor)
    requires m % ps[j] != 0 && j + 1 < |ps|
    ensures Trial(ps, number, m, j + 1, fs, cs, true)
  {
    assert ps[j] < ps[j + 1];
  }

  /** What the corrected `decomposeSingle` records from the loop's result: a
    * remainder above 1, other than the number itself, is a further factor,
    * counted with the last one when it is the same prime. */
  function Settle(fs: seq<nat>, cs: seq<nat>, m: nat, number: nat): (seq<nat>, seq<nat>)
    requires |fs| == |cs|
  {
    if m <= 1 || m == number then (fs, cs)
    else if |fs| > 0 && fs[|fs| - 1] == m then (fs, cs[|cs| - 1 := cs[|cs| - 1] + 1])
    else (fs + [m], cs + [1])
  }

  /** The remainder at the end of the loop: a prime not below the prime under
    * test, since smaller primes are in the table before it and do not
    * divide it. */
  lemma RemainderAbove(ps: seq<nat>, limit: nat, j: nat, m: nat)
    requires IsPrimeTable(ps, limit) && j < |ps| && m >= 2 && m < ps[j] * ps[j]
    requires forall k :: 0 <= k < j ==> m % ps[k] != 0
    ensures IsPrime(m) && ps[j] <= m
  {
    RemainderIsPrime(ps, limit, j, m);
    DividedBelow(ps, limit, j, m);
  }

  /** A prime below ps[j] is an earlier entry of the table, so it is divided
    * by one. */
  lemma DividedBelow(ps: seq<nat>, limit: nat, j: nat, m: nat)
    requires IsPrimeTable(ps, limit) && j < |ps| && IsPrime(m)
    ensures m < ps[j] ==> exists k :: 0 <= k < j && m % ps[k] == 0
  {
    if m < ps[j] {
      TableBelow(ps, limit, j, m);
      var k :| 0 <= k < j && ps[k] == m;
      assert m % ps[k] == 0;
    }
  }

  /** Without a remainder, or with the number its own remainder, the
    * recorded factors are the factorisation. */
  lemma SettleKept(fs: seq<nat>, cs: seq<nat>, m: nat, number: nat)
    requires |fs| == |cs| && AllPrime(fs) && StrictlyIncreasing(fs) && Positive(cs) && m * Prod(fs, cs) == number
    requires fs == [] ==> m == number
    requires fs != [] ==> fs[0] < number && number % fs[0] == 0
    requires m > 1 ==> IsPrime(m)
    requires m <= 1 || m == number
    ensures Factorisation(fs, cs, number)
  {
    if fs != [] {
      assert IsPrime(fs[0]);
      assert !IsPrime(number) by {
        assert 2 <= fs[0] < number && number % fs[0] == 0;
      }
      assert m * Prod(fs, cs) > 0;
    }
  }

  /** A product of two factors of at least 2 is not prime. */
  lemma ProperMultiple(m: nat, q: nat, n: nat)
    requires m >= 2 && q >= 2 && m * q == n
    ensures 2 <= m < n && n % m == 0 && !IsPrime(n)
  {
    MulLe(m, 2, q);
    MulMod(m, q);
  }

  /** A prime remainder other than the number: counted with the last factor
    * when equal to it, added after it otherwise. */
  lemma SettleAdded(fs: seq<nat>, cs: seq<nat>, m: nat, number: nat)
    requires |fs| == |cs| && AllPrime(fs) && StrictlyIncreasing(fs) && Positive(cs) && m * Prod(fs, cs) == number
    requires fs == [] ==> m == number
    requires m > 1 && IsPrime(m) && m != number
    requires forall k :: 0 <= k < |fs| ==> fs[k] <= m
    ensures Factorisation(Settle(fs, cs, m, number).0, Settle(fs, cs, m, number).1, number)
  {
    var product := Prod(fs, cs);
    assert fs[0] >= 2;
    ProdPositive(fs, cs);
    ProperMultiple(m, product, number);
    var (fs', cs') := Settle(fs, cs, m, number);
    if fs[|fs| - 1] == m {
      SettleRepeated(fs, cs, m);
    } else {
      SettleNew(fs, cs, m);
    }
    Composite(fs', cs', number);
  }

  /** A number that is not prime, written as a product over increasing primes
    * with positive counts, is factorised. */
  lemma Composite(fs: seq<nat>, cs: seq<nat>, number: nat)
    requires |fs| == |cs| && fs != [] && AllPrime(fs) && StrictlyIncreasing(fs) && Positive(cs) && Prod(fs, cs) == number
    requires number >= 2 && !IsPrime(number)
    ensures Factorisation(fs, cs, number)
  {
  }

  /** A remainder equal to the last factor raises its count. */
  lemma SettleRepeated(fs: seq<nat>, cs: seq<nat>, m: nat)
    requires |fs| == |cs| && |fs| > 0 && Positive(cs) && fs[|fs| - 1] == m
    ensures Positive(cs[|cs| - 1 := cs[|cs| - 1] + 1])
    ensures Prod(fs, cs[|cs| - 1 := cs[|cs| - 1] + 1]) == m * Prod(fs, cs)
  {
    ProdIncrement(fs, cs, |cs| - 1);
  }

  /** A remainder above every factor is appended with count 1. */
  lemma SettleNew(fs: seq<nat>, cs: seq<nat>, m: nat)
    requires |fs| == |cs| && AllPrime(fs) && StrictlyIncreasing(fs) && Positive(cs) && IsPrime(m)
    requires forall k :: 0 <= k < |fs| ==> fs[k] <= m
    requires |fs| > 0 ==> fs[|fs| - 1] != m
    ensures AllPrime(fs + [m]) && StrictlyIncreasing(fs + [m]) && Positive(cs + [1])
    ensures Prod(fs + [m], cs + [1]) == m * Prod(fs, cs)
  {
    ProdAppend(fs, cs, m, 1);
    assert Pow(m, 1) == m;
    AppendPrime(fs, m);
    AppendAbove(fs, m);
    AppendPositive(cs);
  }

  lemma AppendPrime(fs: seq<nat>, m: nat)
    requires AllPrime(fs) && IsPrime(m)
    ensures AllPrime(fs + [m])
  {
    forall k | 0 <= k < |fs| + 1 ensures IsPrime((fs + [m])[k]) {
      if k < |fs| {
        assert (fs + [m])[k] == fs[k];
      }
    }
  }

  lemma AppendAbove(fs: seq<nat>, m: nat)
    requires StrictlyIncreasing(fs)
    requires forall k :: 0 <= k < |fs| ==> fs[k] <= m
    requires |fs| > 0 ==> fs[|fs| - 1] != m
    ensures StrictlyIncreasing(fs + [m])
  {
    forall k | 0 <= k < |fs| ensures fs[k] < m {
      if k < |fs| - 1 {
        assert fs[k] < fs[|fs| - 1];
      }
    }
  }

  lemma AppendPositive(cs: seq<nat>)
    requires Positive(cs)
    ensures Positive(cs + [1])
  {
  }

  /** When the square of the prime under test exceeds the remainder, the
    * remainder is 1 or a prime not below any recorded factor, and settling
    * it completes the factorisation. */
  lemma TrialEnd(ps: seq<nat>, limit: nat, number: nat, m: nat, j: nat, fs: seq<nat>, cs: seq<nat>, newFactor: bool)
    requires IsPrimeTable(ps, limit) && Trial(ps, number, m, j, fs, cs, newFactor)
    requires m < ps[j] * ps[j]
    ensures m > 1 ==> IsPrime(m)
    ensures Factorisation(Settle(fs, cs, m, number).0, Settle(fs, cs, m, number).1, number)
  {
    if m > 1 {
      RemainderAbove(ps, limit, j, m);
    }
    if m <= 1 || m == number {
      SettleKept(fs, cs, m, number);
    } else {
      SettleAdded(fs, cs, m, number);
    }
  }

  /** `darray[length - 1]++`. */
  method IncrementLast(counts: DArray<nat>)
    requires counts.Valid() && counts.Length() > 0
    modifies counts
    ensures counts.Valid()
    ensures counts.Elements() == old(counts.Elements())[|old(counts.Elements())| - 1 := old(counts.Elements())[|old(counts.Elements())| - 1] + 1]
  {
    var last := counts.Length() - 1;
    counts.Put(last, counts.Elements()[last] + 1);
    assert counts.Length() == old(counts.Length());
  }

  /** `darrayAdd` to both arrays, or one more of the last factor. */
  method Record(factors: DArray<nat>, counts: DArray<nat>, p: nat, newFactor: bool)
    requires factors != counts && factors.Valid() && counts.Valid()
    requires factors.Length() == counts.Length() && (newFactor || counts.Length() > 0)
    modifies factors, counts
    ensures factors.Valid() && counts.Valid()
    ensures factors.Elements() == Counting(old(factors.Elements()), old(counts.Elements()), p, newFactor).0
    ensures counts.Elements() == Counting(old(factors.Elements()), old(counts.Elements()), p, newFactor).1
  {
    if newFactor {
      factors.Add(p);
      counts.Add(1);
    } else {
      IncrementLast(counts);
    }
  }

  /** The prime table leaves room for `bound`: the square of its last prime
    * but one is not below it. */
  predicate RoomFor(ps: seq<nat>, bound: nat)
  {
    |ps| >= 2 && bound <= ps[|ps| - 2] * ps[|ps| - 2]
  }

  /** A prime next to ps[j], its square at most m, and room for the number:
    * ps[j] comes before the last prime but one. */
  lemma RoomLeft(ps: seq<nat>, limit: nat, j: nat, m: nat, number: nat)
    requires IsPrimeTable(ps, limit) && j < |ps| && RoomFor(ps, number + 1)
    requires ps[j] * ps[j] <= m <= number
    ensures j + 2 < |ps|
  {
    if j + 2 >= |ps| {
      SquareMonotone(ps[|ps| - 2], ps[j]);
    }
  }

  /** The primes in the file, after its header, are usable divisors. */
  lemma FileDivisors(ps: seq<nat>, limit: nat, pos: nat)
    requires IsPrimeTable(ps, limit) && pos >= HEADER_LENGTH
    ensures DivisorsFrom(PrimeFile(ps), pos)
  {
    forall k | pos <= k < |PrimeFile(ps)| ensures PrimeFile(ps)[k] >= 2 {
      assert PrimeFile(ps)[(k - HEADER_LENGTH) + HEADER_LENGTH] == ps[k - HEADER_LENGTH];
    }
  }

  /** A division by the prime under test, recorded in the arrays. */
  method DivideStep(factors: DArray<nat>, counts: DArray<nat>, p: nat, m: nat, newFactor: bool,
                    ghost ps: seq<nat>, ghost number: nat, ghost j: nat, ghost position: nat)
    returns (m': nat)
    requires factors != counts && factors.Valid() && counts.Valid()
    requires Round(ps, number, m, j, factors.Elements(), counts.Elements(), newFactor, p, position)
    requires p * p <= m && m % p == 0
    modifies factors, counts
    ensures factors.Valid() && counts.Valid()
    ensures m' < m && Round(ps, number, m', j, factors.Elements(), counts.Elements(), false, p, position)
  {
    ghost var fs, cs := factors.Elements(), counts.Elements();
    Record(factors, counts, p, newFactor);
    m' := m / p;
    TrialDivide(ps, number, m, j, fs, cs, newFactor);
  }

  /** The next prime from the file, once the one under test does not divide;
    * the end of the file comes only after the last prime. */
  method AdvanceStep(file: PrimeListFile, m: nat, newFactor: bool,
                     ghost ps: seq<nat>, ghost limit: nat, ghost number: nat, ghost j: nat, ghost fs: seq<nat>, ghost cs: seq<nat>)
    returns (next: Result<nat>)
    requires IsPrimeTable(ps, limit) && Trial(ps, number, m, j, fs, cs, newFactor) && m % ps[j] != 0
    requires file.data == PrimeFile(ps) && file.position == j + HEADER_LENGTH + 1
    modifies file
    ensures next.Abort? ==> next == Abort(END_OF_FILE_ERROR) && j + 1 == |ps|
    ensures next.Ok? ==> j + 1 < |ps| && Round(ps, number, m, j + 1, fs, cs, true, next.value, file.position)
  {
    next := file.GetNextPrime();
    if next.Ok? {
      assert file.data[(j + 1) + HEADER_LENGTH] == ps[j + 1];
      TrialAdvance(ps, limit, number, m, j, fs, cs, newFactor);
    }
  }

  /** One round of the corrected trial loop: divide by the prime under
    * test, or read the next one. */
  method TrialStep(file: PrimeListFile, factors: DArray<nat>, counts: DArray<nat>, p: nat, m: nat, newFactor: bool,
                   ghost ps: seq<nat>, ghost limit: nat, ghost number: nat, ghost j: nat)
    returns (r: Result<()>, p': nat, m': nat, newFactor': bool, ghost j': nat)
    requires factors != counts && factors.Valid() && counts.Valid()
    requires IsPrimeTable(ps, limit) && file.data == PrimeFile(ps)
    requires Round(ps, number, m, j, factors.Elements(), counts.Elements(), newFactor, p, file.position) && p * p <= m
    requires RoomFor(ps, number + 1) ==> j + 1 < |ps|
    modifies file, factors, counts
    ensures factors.Valid() && counts.Valid()
    ensures r.Abort? ==> r == Abort(END_OF_FILE_ERROR) && !RoomFor(ps, number + 1)
    ensures r.Ok? ==> Round(ps, number, m', j', factors.Elements(), counts.Elements(), newFactor', p', file.position)
    ensures r.Ok? ==> (j' == j && m' < m) || (j' == j + 1 && m' == m)
    ensures r.Ok? && RoomFor(ps, number + 1) ==> j' + 1 < |ps|
  {
    if m % p == 0 {
      r, p', newFactor', j' := Ok(()), p, false, j;
      m' := DivideStep(factors, counts, p, m, newFactor, ps, number, j, file.position);
      return;
    }
    if RoomFor(ps, number + 1) {
      RoomLeft(ps, limit, j, m, number);
    }
    ghost var fs, cs := factors.Elements(), counts.Elements();
    var read := AdvanceStep(file, m, newFactor, ps, limit, number, j, fs, cs);
    if read.Abort? {
      return Abort(read.code), p, m, newFactor, j;
    }
    assert factors.Elements() == fs && counts.Elements() == cs;
    r, p', m', newFactor', j' := Ok(()), read.value, m, true, j + 1;
  }

  /** The trial loop of the corrected `decomposeSingle`: returns the
    * remainder, with the factors recorded so far, once the square of the
    * prime under test exceeds it; the file is left just past that prime. */
  method DivideOut(file: PrimeListFile, factors: DArray<nat>, counts: DArray<nat>, number: nat, ghost ps: seq<nat>, ghost limit: nat)
    returns (r: Result<nat>)
    requires factors != counts && factors.Valid() && counts.Valid()
    requires factors.Elements() == [] && counts.Elements() == []
    requires IsPrimeTable(ps, limit) && file.data == PrimeFile(ps) && file.position == HEADER_LENGTH
    modifies file, factors, counts
    ensures factors.Valid() && counts.Valid()
    ensures r.Abort? ==> r == Abort(END_OF_FILE_ERROR) && !RoomFor(ps, number + 1)
    ensures r.Ok? ==> Remaining(file.data, file.position, factors.Elements(), counts.Elements(), r.value, number, RoomFor(ps, number + 1))
  {
    var read := file.GetNextPrime();
    if read.Abort? {
      return Abort(read.code);
    }
    var p := read.value;
    ghost var j := 0;
    var m := number;
    var newFactor := true;
    TrialStart(ps, limit, number);
    while p * p <= m
      invariant factors.Valid() && counts.Valid()
      invariant file.data == PrimeFile(ps)
      invariant Round(ps, number, m, j, factors.Elements(), counts.Elements(), newFactor, p, file.position)
      invariant RoomFor(ps, number + 1) ==> j + 1 < |ps|
      decreases |ps| - j, m
    {
      var step;
      step, p, m, newFactor, j := TrialStep(file, factors, counts, p, m, newFactor, ps, limit, number, j);
      if step.Abort? {
        return Abort(step.code);
      }
    }
    r := Ok(m);
    TrialConcluded(ps, limit, number, r.value, j, factors.Elements(), counts.Elements(), newFactor, RoomFor(ps, number + 1), file.data, file.position);
  }

  /** `decomposeSingle`, corrected: a new prime is read only when the one
    * under test does not divide, and a remainder equal to the last factor
    * raises its count. The file is read from just after its header. The
    * arrays then hold the factorisation of the number. Only the end of the
    * file stops it, and not while the table has room for the number. */
  method DecomposeSingle(file: PrimeListFile, factors: DArray<nat>, counts: DArray<nat>, primeCount: nat, number: nat,
                         ghost ps: seq<nat>, ghost limit: nat)
    returns (r: Result<()>)
    requires factors != counts && factors.Valid() && counts.Valid()
    requires factors.Elements() == [] && counts.Elements() == []
    requires IsPrimeTable(ps, limit) && file.data == PrimeFile(ps) && file.position == HEADER_LENGTH
    modifies file, factors, counts
    ensures factors.Valid() && counts.Valid()
    ensures r.Ok? || r == Abort(END_OF_FILE_ERROR)
    ensures r.Ok? ==> Factorisation(factors.Elements(), counts.Elements(), number)
    ensures RoomFor(ps, number + 1) ==> r.Ok?
  {
    var res := DivideOut(file, factors, counts, number, ps, limit);
    if res.Abort? {
      return Abort(res.code);
    }
    r := SettleRemainder(file, factors, counts, primeCount, number, res.value, RoomFor(ps, number + 1));
  }

  /** What the remainder step needs: the rest of the file holds divisors, a
    * remainder above 1 is prime, settling it gives the factorisation, and
    * with room the next prime in the file has a square above it. */
  ghost predicate Remaining(data: seq<nat>, pos: nat, fs: seq<nat>, cs: seq<nat>, m: nat, number: nat, room: bool)
  {
    |fs| == |cs| && DivisorsFrom(data, pos) && (m > 1 ==> IsPrime(m))
    && Factorisation(Settle(fs, cs, m, number).0, Settle(fs, cs, m, number).1, number)
    && (room ==> pos < |data| && m < data[pos] * data[pos])
  }

  /** The end of the trial loop sets up the remainder step. */
  lemma TrialConcluded(ps: seq<nat>, limit: nat, number: nat, m: nat, j: nat, fs: seq<nat>, cs: seq<nat>, newFactor: bool, room: bool,
                       data: seq<nat>, pos: nat)
    requires IsPrimeTable(ps, limit) && Trial(ps, number, m, j, fs, cs, newFactor) && m < ps[j] * ps[j]
    requires room ==> j + 1 < |ps|
    requires data == PrimeFile(ps) && pos == j + HEADER_LENGTH + 1
    ensures Remaining(data, pos, fs, cs, m, number, room)
  {
    TrialEnd(ps, limit, number, m, j, fs, cs, newFactor);
    FileDivisors(ps, limit, j + HEADER_LENGTH + 1);
    if room {
      assert PrimeFile(ps)[(j + 1) + HEADER_LENGTH] == ps[j + 1] > ps[j];
      SquareMonotone(ps[j], ps[j + 1]);
    }
  }

  /** The remainder step of `decomposeSingle`: a remainder above 1 is checked
    * with `isPrime`, which cannot find it composite, and recorded. With a
    * next prime in the file whose square exceeds it, the check ends there. */
  method SettleRemainder(file: PrimeListFile, factors: DArray<nat>, counts: DArray<nat>, primeCount: nat, number: nat, m: nat,
                         ghost room: bool)
    returns (r: Result<()>)
    requires factors != counts && factors.Valid() && counts.Valid()
    requires Remaining(file.data, file.position, factors.Elements(), counts.Elements(), m, number, room)
    modifies file, factors, counts
    ensures factors.Valid() && counts.Valid()
    ensures r.Ok? || r == Abort(END_OF_FILE_ERROR)
    ensures r.Ok? ==> Factorisation(factors.Elements(), counts.Elements(), number)
    ensures room ==> r.Ok?
  {
    if m > 1 {
      ScanSound(file.data, file.position, 0, primeCount, m);
      var isPrime := IsPrimeFromFile(file, primeCount, m);
      if isPrime.Abort? {
        return Abort(isPrime.code);
      }
      if !isPrime.value {
        assert false;
      }
      if m != number {
        RecordRemainder(factors, counts, m, number);
      }
    }
    r := Ok(());
  }

  /** The remainder as a factor: one more of the last factor when it is the
    * same, a new factor otherwise. */
  method RecordRemainder(factors: DArray<nat>, counts: DArray<nat>, m: nat, number: nat)
    requires factors != counts && factors.Valid() && counts.Valid() && factors.Length() == counts.Length()
    requires m > 1 && m != number
    modifies factors, counts
    ensures factors.Valid() && counts.Valid()
    ensures factors.Elements() == Settle(old(factors.Elements()), old(counts.Elements()), m, number).0
    ensures counts.Elements() == Settle(old(factors.Elements()), old(counts.Elements()), m, number).1
  {
    var length := factors.Length();
    if length > 0 && factors.Elements()[length - 1] == m {
      IncrementLast(counts);
    } else {
      factors.Add(m);
      counts.Add(1);
    }
  }

  // ----- writing the line ----------------------------------------------------

  /** `writeFactorsToFile`: nothing when no factor was recorded; otherwise the
    * number and its terms, the same loop as the other variants'. */
  method WriteFactorsToFile(factors: DArray<nat>, counts: DArray<nat>, number: nat) returns (text: string)
    requires factors.Valid() && counts.Valid() && factors.Length() <= counts.Length()
    ensures text == FactorText(number, factors.Elements(), counts.Elements()[..factors.Length()])
  {
    var factorCount := factors.Length();
    ghost var fs, cs := factors.Elements(), counts.Elements()[..factorCount];
    text := "";
    if factorCount != 0 {
      var first := true;
      text := Decimal(number);
      var j := 0;
      while j < factorCount
        invariant j <= factorCount
        invariant text == Decimal(number) + Terms(fs[..j], cs[..j])
        invariant first == NoneCounted(cs[..j])
      {
        var p := factors.Elements()[j];
        var c := counts.Elements()[j];
        assert p == fs[j] && c == cs[j];
        TermsStep(fs, cs, j);
        NoneCountedStep(cs, j);
        Associative(Decimal(number), Terms(fs[..j], cs[..j]), if c > 0 then Term(p, c, first) else "");
        text, first := WriteTerm(text, first, p, c);
        j := j + 1;
      }
      assert fs[..j] == fs && cs[..j] == cs;
      text := text + "\n";
    }
  }

  // ----- the line a number gets, over the prime table -----------------------

  /** The line the corrected program writes for n: none for 0, 1 and primes,
    * otherwise the line the other variants write. */
  function StreamLine(t: seq<nat>, n: nat): string
  {
    if n < 2 || IsPrime(n) then "" else Line(n, t, Exponents(t, n))
  }

  /** Every line of [lo, hi), one per number. */
  function StreamLines(t: seq<nat>, lo: nat, hi: nat): (r: seq<string>)
    ensures |r| == if lo <= hi then hi - lo else 0
    ensures forall k :: 0 <= k < |r| ==> r[k] == StreamLine(t, lo + k)
  {
    seq(if lo <= hi then hi - lo else 0, k requires 0 <= k => StreamLine(t, lo + k))
  }

  /** es spreads the counts cs of the ascending factors fs over the table t:
    * a factor's count where the table has it, zero elsewhere. */
  ghost predicate Spread(t: seq<nat>, es: seq<nat>, fs: seq<nat>, cs: seq<nat>)
  {
    |t| == |es| && |fs| == |cs| && StrictlyIncreasing(t) && StrictlyIncreasing(fs) && Positive(cs)
    && (forall i :: 0 <= i < |fs| ==> fs[i] in t) && (|fs| > 0 ==> |t| > 0)
    && (forall k, i :: 0 <= k < |t| && 0 <= i < |fs| && t[k] == fs[i] ==> es[k] == cs[i])
    && (forall k :: 0 <= k < |t| && t[k] !in fs ==> es[k] == 0)
  }

  /** The last table entry is the last factor: both are dropped. */
  lemma SpreadHit(t: seq<nat>, es: seq<nat>, fs: seq<nat>, cs: seq<nat>)
    requires Spread(t, es, fs, cs) && |t| > 0 && |fs| > 0 && fs[|fs| - 1] == t[|t| - 1]
    ensures Spread(t[..|t| - 1], es[..|t| - 1], fs[..|fs| - 1], cs[..|fs| - 1])
    ensures es[|t| - 1] == cs[|fs| - 1]
  {
    var n, l := |t| - 1, |fs| - 1;
    var t', es', fs', cs' := t[..n], es[..n], fs[..l], cs[..l];
    forall i | 0 <= i < l ensures fs'[i] in t' {
      var k :| 0 <= k < |t| && t[k] == fs[i];
      assert fs[i] < fs[l];
      assert k != n;
      assert t'[k] == fs[i];
    }
    if l > 0 {
      assert fs'[0] in t';
    }
    forall k, i | 0 <= k < n && 0 <= i < l && t'[k] == fs'[i] ensures es'[k] == cs'[i] {
      assert t[k] == fs[i];
    }
    forall k | 0 <= k < n && t'[k] !in fs' ensures es'[k] == 0 {
      assert t[k] < t[n];
      forall i | 0 <= i < |fs| ensures fs[i] != t[k] {
        if i < l {
          assert fs'[i] == fs[i];
        }
      }
      assert t[k] !in fs;
    }
  }

  /** The last table entry is not a factor: it alone is dropped. */
  lemma SpreadMiss(t: seq<nat>, es: seq<nat>, fs: seq<nat>, cs: seq<nat>)
    requires Spread(t, es, fs, cs) && |t| > 0 && !(|fs| > 0 && fs[|fs| - 1] == t[|t| - 1])
    ensures Spread(t[..|t| - 1], es[..|t| - 1], fs, cs)
    ensures es[|t| - 1] == 0
  {
    var n := |t| - 1;
    var t', es' := t[..n], es[..n];
    if |fs| > 0 {
      var l := |fs| - 1;
      var k :| 0 <= k < |t| && t[k] == fs[l];
      assert k < n && t[k] < t[n];
      forall i | 0 <= i < |fs| ensures fs[i] < t[n] {
        if i < l {
          assert fs[i] < fs[l];
        }
      }
      assert fs[0] in t';
    }
    assert t[n] !in fs;
    forall i | 0 <= i < |fs| ensures fs[i] in t' {
      var k :| 0 <= k < |t| && t[k] == fs[i];
      assert k != n;
      assert t'[k] == fs[i];
    }
    forall k, i | 0 <= k < n && 0 <= i < |fs| && t'[k] == fs[i] ensures es'[k] == cs[i] {
      assert t[k] == fs[i];
    }
    forall k | 0 <= k < n && t'[k] !in fs ensures es'[k] == 0 {
      assert t[k] == t'[k];
    }
  }

  /** Keeping the counted entries of a spread gives back the factors and
    * counts. */
  lemma {:induction false} CountedOfSpread(t: seq<nat>, es: seq<nat>, fs: seq<nat>, cs: seq<nat>)
    requires Spread(t, es, fs, cs)
    ensures Counted(t, es) == (fs, cs)
    decreases |t|
  {
    if |t| > 0 {
      var n := |t| - 1;
      if |fs| > 0 && fs[|fs| - 1] == t[n] {
        var l := |fs| - 1;
        SpreadHit(t, es, fs, cs);
        CountedOfSpread(t[..n], es[..n], fs[..l], cs[..l]);
        assert fs[..l] + [t[n]] == fs && cs[..l] + [es[n]] == cs;
      } else {
        SpreadMiss(t, es, fs, cs);
        CountedOfSpread(t[..n], es[..n], fs, cs);
      }
    }
  }

  /** A recorded factor is at most the number it divides. */
  lemma FactorBelow(fs: seq<nat>, cs: seq<nat>, number: nat, i: nat)
    requires Factorisation(fs, cs, number) && i < |fs|
    ensures fs[i] <= number
  {
    if number >= 2 && !IsPrime(number) {
      MultiplicityOfProd(fs, cs, fs[i]);
      if number < fs[i] {
        ModSmall(number, fs[i]);
      }
    }
  }

  /** Uniqueness of factorisation, as text: the line of any recorded
    * factorisation of a number below the table's bound is the number's line
    * over the whole table. */
  lemma FactorisationLine(t: seq<nat>, limit: nat, n: nat, fs: seq<nat>, cs: seq<nat>)
    requires IsPrimeTable(t, limit) && n < limit && Factorisation(fs, cs, n)
    ensures FactorText(n, fs, cs) == StreamLine(t, n)
  {
    if n >= 2 && !IsPrime(n) {
      var es := Exponents(t, n);
      forall i | 0 <= i < |fs| ensures fs[i] in t {
        FactorBelow(fs, cs, n, i);
      }
      assert fs[0] in t;
      forall k | 0 <= k < |t| ensures (t[k] !in fs ==> es[k] == 0) && forall i :: 0 <= i < |fs| && t[k] == fs[i] ==> es[k] == cs[i] {
        MultiplicityOfProd(fs, cs, t[k]);
      }
      assert Spread(t, es, fs, cs);
      CountedOfSpread(t, es, fs, cs);
      TermsOfCounted(t, es);
    }
  }

  // ----- one worker, and the whole stage --------------------------------------

  /** One round of `decompose`: clears the arrays, decomposes one number,
    * writes its line and rewinds the file to just after its header. */
  method WriteSingle(file: PrimeListFile, factors: DArray<nat>, counts: DArray<nat>, primeCount: nat, number: nat,
                     ghost ps: seq<nat>, ghost limit: nat)
    returns (r: Result<string>)
    requires factors != counts && factors.Valid() && counts.Valid()
    requires IsPrimeTable(ps, limit) && number < limit && file.data == PrimeFile(ps) && file.position == HEADER_LENGTH
    modifies file, factors, counts
    ensures factors.Valid() && counts.Valid()
    ensures r.Ok? ==> r.value == StreamLine(ps, number) && file.position == HEADER_LENGTH
    ensures r.Ok? || r == Abort(END_OF_FILE_ERROR)
    ensures RoomFor(ps, number + 1) ==> r.Ok?
  {
    factors.Clear();
    counts.Clear();
    var res := DecomposeSingle(file, factors, counts, primeCount, number, ps, limit);
    if res.Abort? {
      return Abort(res.code);
    }
    var text := WriteFactorsToFile(factors, counts, number);
    assert counts.Elements()[..factors.Length()] == counts.Elements();
    FactorisationLine(ps, limit, number, factors.Elements(), counts.Elements());
    file.Seek(HEADER_LENGTH);
    r := Ok(text);
  }

  /** `decompose`, one worker, with the file rewound to just after its header
    * after every number: the lines of its range in order. */
  method Decompose(file: PrimeListFile, primeCount: nat, firstNumber: nat, lastNumber: nat, ghost ps: seq<nat>, ghost limit: nat)
    returns (r: Result<seq<string>>)
    requires IsPrimeTable(ps, limit) && lastNumber <= limit
    requires file.data == PrimeFile(ps) && file.position == HEADER_LENGTH
    modifies file
    ensures r.Ok? ==> r.value == StreamLines(ps, firstNumber, lastNumber)
    ensures r.Ok? || r == Abort(END_OF_FILE_ERROR)
    ensures RoomFor(ps, lastNumber) ==> r.Ok?
  {
    var factors := new DArray<nat>.Create(4, 8, 0);
    var counts := new DArray<nat>.Create(4, 8, 0);
    var lines: seq<string> := [];
    var i := firstNumber;
    while i < lastNumber
      invariant firstNumber <= i && (i <= lastNumber || i == firstNumber)
      invariant lines == StreamLines(ps, firstNumber, i)
      invariant factors.Valid() && counts.Valid() && fresh(factors) && fresh(counts)
      invariant file.data == PrimeFile(ps) && file.position == HEADER_LENGTH
    {
      var res := WriteSingle(file, factors, counts, primeCount, i, ps, limit);
      RoomShrinks(ps, i + 1, lastNumber);
      if res.Abort? {
        return Abort(res.code);
      }
      StreamLinesSnoc(ps, firstNumber, i);
      lines := lines + [res.value];
      i := i + 1;
    }
    r := Ok(lines);
  }

  /** Room for a bound leaves room for any smaller one. */
  lemma RoomShrinks(ps: seq<nat>, a: nat, b: nat)
    requires a <= b
    ensures RoomFor(ps, b) ==> RoomFor(ps, a)
  {
  }

  /** The lines of [lo, hi) are those of [lo, mid) followed by those of
    * [mid, hi). */
  lemma StreamLinesJoin(t: seq<nat>, lo: nat, mid: nat, hi: nat)
    requires lo <= mid <= hi
    ensures StreamLines(t, lo, hi) == StreamLines(t, lo, mid) + StreamLines(t, mid, hi)
  {
  }

  /** The lines of [lo, hi + 1) are those of [lo, hi) and the line of hi. */
  lemma StreamLinesSnoc(t: seq<nat>, lo: nat, hi: nat)
    requires lo <= hi
    ensures StreamLines(t, lo, hi + 1) == StreamLines(t, lo, hi) + [StreamLine(t, hi)]
  {
  }

  /** `launchDecomposition`: [0, tableSize) split over the workers, each with
    * its own handle on the prime file, moved past the header. Run one worker
    * after the other, the output holds every line in order. */
  method LaunchDecomposition(primeFile: seq<nat>, primeCount: nat, tableSize: nat, threadCount: nat, ghost ps: seq<nat>, ghost limit: nat)
    returns (r: Result<seq<string>>)
    requires threadCount > 0
    requires IsPrimeTable(ps, limit) && primeFile == PrimeFile(ps) && tableSize <= limit
    ensures r.Ok? ==> r.value == StreamLines(ps, 0, tableSize)
    ensures r.Ok? || r == Abort(END_OF_FILE_ERROR)
    ensures RoomFor(ps, tableSize) ==> r.Ok?
  {
    var ranges := SplitRange(0, tableSize, threadCount);
    var out: seq<string> := [];
    var i := 0;
    while i < threadCount
      invariant i <= threadCount
      invariant out == StreamLines(ps, 0, Start(0, tableSize, threadCount, i))
    {
      RangeWithin(0, tableSize, threadCount, i);
      ghost var lo, hi := Start(0, tableSize, threadCount, i), Start(0, tableSize, threadCount, i + 1);
      var file := new PrimeListFile.Open(primeFile);
      file.Seek(HEADER_LENGTH);
      var res := Decompose(file, primeCount, ranges[i].first, ranges[i].last, ps, limit);
      RoomShrinks(ps, hi, tableSize);
      if res.Abort? {
        return Abort(res.code);
      }
      StreamLinesJoin(ps, 0, lo, hi);
      out := out + res.value;
      i := i + 1;
    }
    StartAtEnd(0, tableSize, threadCount);
    r := Ok(out);
  }
}
