# decomp, modelled in Dafny

decomp finds every prime below a limit and then writes, for each number below
the limit, one line giving its factorisation, e.g. `12 = 2^2 * 3`. The
repository holds three variants of that program:

- **basic** (`basic/decomp.c`): a sequential trial-division search, then the
  factorisation of each number against the prime table. A reporter thread
  shows a progress bar.
- **threaded** (`threaded/src`): both stages split the numbers into
  contiguous ranges, one per worker thread. Each worker of the prime search
  trial-divides by the primes it found itself. The decomposition zeroes its
  counts lazily and prints the line only up to the greatest counted prime.
- **memory-efficient** (`memory-efficient/src`): the prime search uses a
  base-2 Fermat pre-filter and trial division against a shared search
  buffer, and collects its result in a growable array (the "darray"). The
  primes go to a binary file, a count followed by the primes. The
  decomposition reads that file one prime at a time and records factors in
  two darrays. The variant also has a small test harness.

The model runs each stage's workers one after the other, in worker order.
Every stage then has one well-defined output, which the lemmas relate to the
mathematics:

- `PrimesBelow(limit)`, the ascending primes below the limit.
- `Exponents(t, n)`, the exponent of each table prime in `n`.
- `Line(n, t, es)`, the text of one output line.

Where the code as written does not reach the intended result, the model keeps
both versions and proves the difference (see "Findings").

Modules, one per component of the source:

| module | file | models |
|---|---|---|
| `Machine` | machine.dfy | the 64-bit word and its wrap-around where the code relies on it |
| `Outcome` | outcome.dfy | a step's result or its `err()` exit code |
| `NumberTheory` | number_theory.dfy | primes, prime tables, Fermat's little theorem for base 2, prime factorisation |
| `Partition` | partition.dfy | the range split that every threaded stage and the per-thread bars use |
| `DynamicArray` | darray.dfy | `darray.c` / `darray.h` as a class with a header and slots |
| `CText` | text.dfy | `strlen`, `streq`, `replaceExt` (one copy in each variant's main file) |
| `TestHarness` | testing.dfy | `endsWith`, `runTest`, `reportAssertFail` |
| `FactorLine` | factor_line.dfy | the `%zu` rendering and the layout of one output line |
| `BasicDecomp` | basic_decomp.dfy | `basic/decomp.c` |
| `ThreadedPrimes` | threaded_primes.dfy | `threaded/src/primes.c` |
| `ThreadedDecomposition` | threaded_decomposition.dfy | `threaded/src/decomposition.c` |
| `SearchPrimes` | search_primes.dfy | `memory-efficient/src/primes.c` |
| `StreamDecomposition` | stream_decomposition.dfy | `memory-efficient/src/decomposition.c` |
| `Progress` | progress.dfy | the three progress reporters' counters, bar and ETA arithmetic |

`strlen` and `replaceExt` appear three times in the source, at
`basic/decomp.c:110-166`, `threaded/src/main.c:16-72` and
`memory-efficient/src/main.c:18-89` (where `streq` sits between them). The
three copies are the same code up to `const` qualifiers, and `CText` models
them once. `indexOfPrime` in
`memory-efficient/src/decomposition.c:15-31` is the same text as the threaded
one and is modelled by `ThreadedDecomposition.IndexOfPrime`. The darray
accessors `darrayCapacity`, `darrayLength` and `darrayStride`
(`darray.h:52-54`) read header fields 0, 1 and 2. They are the functions
`Capacity`, `Length` and `Stride` of `DArray`. Their values are fixed by the
contracts of `Create`, `SetField` and `Add`.

## Model

| member | source | states |
|---|---|---|
| Machine.Decrement | memory-efficient/src/testing.c:38-46 | `x - 1` on `size_t`: the result is a word and result + 1 ≡ x modulo 2^64, so 0 wraps to the largest word |
| NumberTheory.CompositeHasSmallPrimeFactor | basic/decomp.c:76-82 | a composite n has a prime divisor whose square is at most n, so trial division may stop at the square root |
| NumberTheory.FermatBase2 | memory-efficient/src/primes.c:75-78 | Fermat's little theorem for base 2: 2^(p-1) mod p = 1 for every odd prime p |
| NumberTheory.PrimesInSpec | basic/decomp.c:71-92 | the primes of a range, as listed, are exactly its primes, ascending, with at most one entry per number |
| NumberTheory.ProdExponents | basic/decomp.c:174-191 | existence of prime factorisation: over a table of every prime below the bound, the product of p^Exponents(p) is n for 1 ≤ n < bound |
| NumberTheory.ExponentsOfProd | basic/decomp.c:174-191 | uniqueness of prime factorisation: a product of powers of distinct table primes has exactly those exponents |
| Partition.SplitRange | threaded/src/primes.c:48-65 | the partition loop: the ranges it fills are `Ranges(origin, total, workers)` |
| Partition.RangeSize | threaded/src/decomposition.c:114-128 | range k has `total / workers` numbers, plus one exactly when k < `total % workers` |
| Partition.SizesBalanced | threaded/src/decomposition.c:114-128 | any two ranges differ in size by at most one |
| Partition.StartClosedForm | memory-efficient/src/decomposition.c:153-167 | range k starts at origin + k·(total / workers) + min(k, total % workers) |
| Partition.RangesContiguous | memory-efficient/src/primes.c:110-127 | the first range starts at the origin, each range starts where the previous one ends, and the last one ends at origin + total |
| Partition.RangeWithin | threaded/src/decomposition.c:120-128 | range k runs from its start to the next range's start, and both lie inside [origin, origin + total] |
| Partition.StartMonotone | memory-efficient/src/primes.c:119-127 | a later worker never starts before an earlier one |
| Partition.RangesCover | threaded/src/primes.c:45-65 | a number is in [origin, origin + total) exactly when some range holds it, and no two ranges hold the same number |
| Partition.SizesAddUp | threaded/src/primes.c:48-65 | the range sizes add up to `total` |
| Partition.TenOverThree | threaded/src/decomposition.c:114-128 | ten numbers over three workers give the ranges [0,4), [4,7) and [7,10) |
| Partition.SumBound | memory-efficient/src/progress.c:37-43 | no counter exceeds the sum of the counters |
| Partition.ConcatMember | threaded/src/primes.c:75-83 | every element of one worker's result appears in the joined result |
| Partition.ConcatSource | threaded/src/primes.c:75-83 | every element of the joined result comes from some worker's result |
| DynamicArray.GrowthStallsAsWritten | memory-efficient/src/darray.c:44 | as written, `capacity *= 1.5` leaves a capacity of 0 or 1 unchanged |
| DynamicArray.GrownCapacity | memory-efficient/src/darray.c:37-49 | the corrected growth: always strictly larger, and floor(1.5·capacity) from capacity 2 on |
| DynamicArray.DArray.Create | memory-efficient/src/darray.c:7-15 | a new array has length 0 and exactly the given capacity and stride |
| DynamicArray.DArray.GetField | memory-efficient/src/darray.c:23-26 | reads a header word: in a valid array the capacity word is the number of slots and the length word does not exceed it |
| DynamicArray.DArray.SetField | memory-efficient/src/darray.c:28-31 | only the named header field changes, and the slots do not |
| DynamicArray.DArray.Clear | memory-efficient/src/darray.c:33-35 | no elements afterwards; capacity, stride and the stored slots are kept |
| DynamicArray.DArray.Resize | memory-efficient/src/darray.c:37-49 | corrected (Findings row 1): the capacity becomes `GrownCapacity(old)` rather than the truncated `old * 1.5`; the elements, length and stride are kept |
| DynamicArray.DArray.Add | memory-efficient/src/darray.c:51-65 | with the corrected growth of Findings row 1: the elements become the old ones plus `elem` at the end; the capacity grows exactly when the array was full; the stride is kept; the value appended is exactly `elem`, copied through `holder` by the `darrayAdd` macro |
| DynamicArray.DArray.Insert | memory-efficient/src/darray.c:67-84 | for index ≤ length: the elements become old[..index] + [elem] + old[index..], the capacity grows (corrected, Findings row 1) exactly when the array was full, and the stride is kept; the `darrayInsert` macro inserts exactly `elem` |
| DynamicArray.DArray.Put | memory-efficient/include/darray.h:36 | a store into an allocated slot changes that slot only |
| DynamicArray.DArray.Set | memory-efficient/include/darray.h:32-37 | index ≥ length aborts with code 4 and changes nothing; otherwise only that element is replaced, and the length is kept |
| DynamicArray.DArray.SetOrAddAsWritten | memory-efficient/include/darray.h:39-50 | as written: index > length aborts with 4, index < length overwrites, and index = length appends the uninitialised `holder` rather than `elem`; the capacity grows exactly when that append finds the array full, and is kept otherwise |
| DynamicArray.DArray.SetOrAdd | memory-efficient/include/darray.h:39-50 | corrected: index > length aborts with 4; otherwise `elem` ends up at `index`, the length grows by one exactly at index = length, and every other element is kept; the capacity grows exactly when that append finds the array full, and is kept otherwise |
| DynamicArray.SetOrAddLosesElement | memory-efficient/include/darray.h:44-46 | as written, putting 7 at index 0 of an empty array stores the holder's 0, not 7 |
| DynamicArray.SetOrAddKeepsElement | memory-efficient/include/darray.h:39-50 | corrected, the same call stores 7 |
| CText.Text | memory-efficient/src/main.c:18-25 | a C string's text is everything before its first NUL, and it contains no NUL |
| CText.StrLen | memory-efficient/src/main.c:18-25 | `strlen` returns the index of the first NUL; the characters before it are the text |
| CText.StrEq | memory-efficient/src/main.c:27-40 | `streq` is true exactly when the two texts are equal, so the same characters and the same length |
| CText.ScanStop | memory-efficient/src/main.c:46-49 | the backward scan stops at the last '.', '/' or '\\', or at the start of the path |
| CText.ScanBack | threaded/src/main.c:29-32 | the scan loop stops where `ScanStop` says |
| CText.FillPath | memory-efficient/src/main.c:54-67 | the copy loops write the stem, '.', the extension and NUL, filling the buffer exactly |
| CText.ReplaceExt | memory-efficient/src/main.c:42-89 | the fresh buffer holds the new path plus NUL and nothing more, so the allocation is exact in both branches; the basic variant (basic/decomp.c:119-166) has the same text |
| CText.ReplaceKeepsStem | memory-efficient/src/main.c:50-68 | with an extension (a '.' not at index 0 and not right after a separator), the result is path[..dot] + "." + ext |
| CText.ReplaceAppends | memory-efficient/src/main.c:69-88 | without a '.', "output" becomes "output.txt" |
| CText.ReplaceExample | memory-efficient/src/main.c:50-68 | "file.txt" becomes "file.ext" |
| CText.ReplaceDotInDirectory | threaded/src/main.c:52-71 | "a.b/c" is extended to "a.b/c.ext": a dot before the last separator is not an extension |
| CText.ReplaceHidden | memory-efficient/src/main.c:50 | ".bashrc" is extended to ".bashrc.ext": a leading dot is not an extension |
| CText.ReplaceHiddenInDirectory | memory-efficient/src/main.c:50 | "dir/.cfg" is extended to "dir/.cfg.ext": a dot right after a separator is not an extension |
| CText.ScanFindsNewDot | memory-efficient/src/main.c:46-49 | with an extension free of '.', '/' and '\\', the next scan of a built path stops at the dot just added |
| CText.ReplaceIdempotent | memory-efficient/src/main.c:42-89 | replacing with the same plain extension twice equals replacing once, when the stem is non-empty and does not end in a separator |
| TestHarness.EndsWith | memory-efficient/src/testing.c:31-49 | `endsWith` is true exactly when `end`'s text is a suffix of `str`'s; this covers the shorter-string exit, the empty `end` and equal strings, with both indices wrapping |
| TestHarness.TestSession.constructor | memory-efficient/src/testing.c:53 | the failures buffer starts empty |
| TestHarness.TestSession.ReportAssertFail | memory-efficient/src/testing.c:96-98 | exactly one record is appended, and the earlier ones are kept |
| TestHarness.TestSession.RunTest | memory-efficient/src/testing.c:20-29 | the buffer is emptied before the test, so afterwards it holds exactly that test's reports; the status is 0, and "failed" is printed exactly when some report was made |
| FactorLine.Decimal | basic/decomp.c:195 | `%zu` gives one or more digits, with a leading '0' only for 0 |
| FactorLine.DecimalRoundTrip | basic/decomp.c:195 | reading back the printed digits gives the number |
| FactorLine.DecimalInjective | basic/decomp.c:195 | different numbers print differently |
| FactorLine.TermsSnoc | basic/decomp.c:196-212 | one more table entry adds its term exactly when its count is positive; the separator is " = " when none is counted yet and " * " otherwise |
| FactorLine.TermsOfNothing | basic/decomp.c:196-212 | with no counted prime, the line is the bare number |
| FactorLine.TermsOfCounted | memory-efficient/src/decomposition.c:98-114 | dropping the zero counts leaves the line unchanged, so a factor list and a full table print the same |
| FactorLine.CountedEmpty | memory-efficient/src/decomposition.c:95 | the counted entries are empty exactly when no count is positive |
| FactorLine.TermsZeroTail | threaded/src/decomposition.c:65 | counts that are zero after index n add nothing, so a line written up to n is the whole line |
| FactorLine.LineOfTwelve | basic/decomp.c:193-214 | 12 over [2, 3, 5] with counts [2, 1, 0] is written "12 = 2^2 * 3\n" |
| FactorLine.LineOfSeven | basic/decomp.c:206-209 | a prime counted once is written without "^1": "7 = 7\n" |
| FactorLine.LinesSnoc | threaded/src/decomposition.c:100-105 | the output for [lo, hi + 1) is the output for [lo, hi) followed by the line of hi |
| FactorLine.LinesSplit | threaded/src/decomposition.c:137-139 | the outputs of two adjacent ranges, joined, are the output of their union |
| BasicDecomp.Isqrt | basic/decomp.c:40-46 | for num ≥ 2, the 1000 Newton steps from num / 2 end at an x with 1 ≤ x < num and num < (x + 1)², so x ≥ floor(√num) |
| BasicDecomp.BelowRoot | basic/decomp.c:76-77 | every d with d² ≤ num is at most the `isqrt` result |
| BasicDecomp.IsPrimeByTrial | basic/decomp.c:75-82 | the trial division up to `isqrt(i)` says prime exactly when i is prime |
| BasicDecomp.FindPrimes | basic/decomp.c:71-92 | `primes[0..count)` becomes exactly the primes below the limit, ascending; the slots after them are untouched |
| BasicDecomp.FoundPrimesAreTable | basic/decomp.c:71-92 | that table holds every prime below the limit and nothing else, ascending, with at most limit - 2 entries |
| BasicDecomp.IndexOfPrime | basic/decomp.c:94-108 | on a non-empty ascending table: NOT_FOUND (-1) exactly when the prime is absent, and otherwise an index holding it |
| BasicDecomp.ClearArray | basic/decomp.c:168-172 | the first `size` slots become 0, and the others are kept |
| BasicDecomp.RemainderIsPrime | basic/decomp.c:177-185 | once no table prime before t[j] divides m and t[j]² > m, a remainder m ≥ 2 is prime |
| BasicDecomp.DivideOut | basic/decomp.c:177-184 | the trial loop stops at j with m < t[j]², no earlier prime divides m, and the counts plus the exponents of m account for the number |
| BasicDecomp.DecomposeNumber | basic/decomp.c:174-191 | each count grows by exactly the exponent of its prime in the number, when the last table prime squared exceeds the number |
| BasicDecomp.WriteTerm | basic/decomp.c:199-210 | one loop round appends the entry's term exactly when its count is positive, and the "first" flag stays set only while nothing was written |
| BasicDecomp.WriteFactorsToFile | basic/decomp.c:193-214 | the text written is `Line(number, primes, factors)` |
| BasicDecomp.Decomp | basic/decomp.c:216-228 | one line per number below tableSize, and line i is `Line(i, table, Exponents(table, i))` |
| BasicDecomp.LinesFactorise | basic/decomp.c:216-228 | with the primes below the limit, each line of a number 1 ≤ n < limit multiplies out to n, and 0 and 1 are written as the bare number |
| BasicDecomp.DropsMissingRemainder | basic/decomp.c:185-190 | a remainder missing from the table is silently dropped: over [2, 3, 5], 14 is counted as 2 alone |
| ThreadedPrimes.OwnPrimesBounds | threaded/src/primes.c:24-43 | a worker's table is strictly increasing, lies in its range, and has at most one entry per candidate |
| ThreadedPrimes.OwnPrimesFromTwo | threaded/src/primes.c:29-38 | a worker starting at 2 finds exactly the primes so far |
| ThreadedPrimes.OwnPrimesKeepPrimes | threaded/src/primes.c:29-38 | a worker never rejects a prime of its range |
| ThreadedPrimes.PrimeData.constructor | threaded/src/primes.c:16-22 | a work item has the given range, table and id, and count 0 |
| ThreadedPrimes.PrimeData.TrialDivide | threaded/src/primes.c:29-34 | the inner loop says prime exactly when no entry p of the table with p² ≤ i divides i |
| ThreadedPrimes.PrimeData.ThreadedFindPrimes | threaded/src/primes.c:24-43 | `primes[0..outPrimeCount)` becomes the worker's own table `OwnPrimes(first, last)`, and `outPrimeCount` is its length |
| ThreadedPrimes.PrimeData.FindPrimesByTrial | threaded/src/primes.c:24-43 | corrected worker: with full trial division the table is exactly the primes of its range |
| ThreadedPrimes.CopyInto | threaded/src/primes.c:77-79 | the inner copy loop writes the worker's table after what is already joined |
| ThreadedPrimes.Combine | threaded/src/primes.c:75-83 | the joined tables, in worker order, fill `primes[0..primeCount)`, and `primeCount` is the sum of the counts |
| ThreadedPrimes.JoinedFits | threaded/src/primes.c:75-83 | the joined result never has more than limit - 2 entries |
| ThreadedPrimes.FindPrimes | threaded/src/primes.c:45-84 | as written: the result is the worker tables over the partition from 2, joined in worker order (given that every table fits its limit / threadCount slots) |
| ThreadedPrimes.OneWorkerFindsPrimes | threaded/src/primes.c:29-38 | with one worker the result is exactly the primes below the limit |
| ThreadedPrimes.NoPrimeMissed | threaded/src/primes.c:24-83 | for any number of workers, every prime below the limit is in the result, and the result holds only numbers in [2, limit) |
| ThreadedPrimes.RangesOfThirty | threaded/src/primes.c:48-65 | limit 30 over 3 workers gives worker 1 the range [12, 21) |
| ThreadedPrimes.AcceptsTwelve | threaded/src/primes.c:29 | as written, limit 30 with 3 workers puts 12 in the result |
| ThreadedPrimes.SlotsOverflowAsWritten | threaded/src/primes.c:55 | as written, limit 7 with 4 workers gives worker 0 the range [2, 4), which holds 2 primes, but only 1 slot |
| ThreadedPrimes.RangeSizeFits | threaded/src/primes.c:55 | corrected: a slot count equal to the range's size always suffices, as written and corrected |
| ThreadedPrimes.CorrectJoin | threaded/src/primes.c:75-83 | corrected: the primes of each range, joined in worker order, are the primes below the limit for any number of workers |
| ThreadedPrimes.CorrectedFindPrimes | threaded/src/primes.c:45-84 | corrected `findPrimes` (range-sized slots, full trial division): the result is exactly the primes below the limit |
| ThreadedDecomposition.IndexOfPrime | threaded/src/decomposition.c:13-29 | NOT_FOUND exactly when the prime is absent, and otherwise an index holding it; the `mid >= primeCount` guard makes an empty table and a search past the left end safe; the memory-efficient copy (memory-efficient/src/decomposition.c:15-31) has the same text |
| ThreadedDecomposition.LoopAsWritten | threaded/src/decomposition.c:36-45 | the trial loop as written returns counts over the whole table and an index inside it |
| ThreadedDecomposition.EightAsWritten | threaded/src/decomposition.c:52 | as written, 8 is counted [1, 0, 0] over [2, 3, 5] and written "8 = 2\n", though its exponents are [3, 0, 0] |
| ThreadedDecomposition.EighteenAsWritten | threaded/src/decomposition.c:52 | as written, 18 is counted [1, 1, 0]; that product is 6 |
| ThreadedDecomposition.FourAsWritten | threaded/src/decomposition.c:52 | as written, 4 is counted as a single 2 |
| ThreadedDecomposition.UnitsAsWritten | threaded/src/decomposition.c:35 | for 0 and 1, count 0 is zeroed and index 0 returned, so the line is the bare number |
| ThreadedDecomposition.DivideOutLazily | threaded/src/decomposition.c:33-45 | the trial loop with lazily zeroed counts: the buffer agrees with the counts so far up to j, and they account for the number with the remainder m < t[j]² |
| ThreadedDecomposition.CountRemainder | threaded/src/decomposition.c:49-53 | corrected (Findings row 5, `factors[index] = 1` becomes an increment): the counts between the last prime tried and the remainder's index are zeroed, and the remainder's count is raised by one |
| ThreadedDecomposition.SettledProduct | threaded/src/decomposition.c:46-56 | the settled counts multiply to the number when the remainder is 1 or found, and fall short of it when it is missing |
| ThreadedDecomposition.ConcludeMissing | threaded/src/decomposition.c:54-55 | a remainder missing from the table means the number is at least the table's bound, so the `err(17)` is unreachable below it |
| ThreadedDecomposition.ConcludeFound | threaded/src/decomposition.c:47-53 | a remainder found in the table lies at or after the last prime tried, and setting its count completes the factorisation |
| ThreadedDecomposition.DecomposeSingle | threaded/src/decomposition.c:31-59 | corrected (Findings row 5): the counts up to the returned index are the number's exponents, and no prime after it divides the number; a missing remainder aborts with 17, which never happens below the table's bound |
| ThreadedDecomposition.WriteFactorsToFile | threaded/src/decomposition.c:61-84 | the text is the line over the entries up to `maxFactorIndex` |
| ThreadedDecomposition.WriteSingle | threaded/src/decomposition.c:100-105 | corrected (Findings row 5, through `DecomposeSingle`; as written 8 gets "8 = 2"): the line written for a number is its complete line over the whole table, or the process aborts with 17 |
| ThreadedDecomposition.Decompose | threaded/src/decomposition.c:96-109 | corrected (Findings row 5, through `DecomposeSingle`), over a true prime table (Findings row 3): one worker writes the lines of its range, in order |
| ThreadedDecomposition.DecomposeRange | threaded/src/decomposition.c:96-108 | corrected (Findings row 5, through `DecomposeSingle`), over a true prime table (Findings row 3): one worker's output is the lines of its range in order; it can abort only with 17, and never when the table size is within the table's bound |
| ThreadedDecomposition.LaunchDecomposition | threaded/src/decomposition.c:111-143 | corrected (Findings row 5, through `DecomposeSingle`), over a true prime table (Findings row 3): with the workers over the partition of [0, tableSize), the output is every number's line in order |
| SearchPrimes.ModPow | memory-efficient/src/primes.c:63-73 | `modpow` returns base^exp mod m for exp > 0, and 1 for exp = 0; every intermediate product fits in a word when m ≤ 2^32 |
| SearchPrimes.FermatTest | memory-efficient/src/primes.c:75-78 | the test passes exactly when 2^(n-1) mod n = 1 |
| SearchPrimes.FermatKeepsPrimes | memory-efficient/src/primes.c:75-84 | no odd prime is rejected by the pre-filter |
| SearchPrimes.PseudoprimePasses | memory-efficient/src/primes.c:83-91 | 341 = 11 · 31 passes the pre-filter, so the trial division is needed |
| SearchPrimes.FirstStop | memory-efficient/src/primes.c:52-55 | the scan stops at the first entry that is 0 or whose square exceeds the number |
| SearchPrimes.IsPrimeByTable | memory-efficient/src/primes.c:80-92 | for 2, or for a table that holds, before its stop, every prime whose square is at most the number: true exactly when the number is prime |
| SearchPrimes.PrefixScan | memory-efficient/src/primes.c:86-91 | a buffer that starts with the primes below `hi` suits the scan of any number that some prime below `hi` has a square above |
| SearchPrimes.SearchWorker | memory-efficient/src/primes.c:94-107 | the worker writes exactly the primes of its range at its cursor, and the cursor advances by their count |
| SearchPrimes.HasPotentialFactor | memory-efficient/src/primes.c:52-55 | returns the buffer entry, and says to go on exactly when the scan does not stop there: the entry is non-zero and its square is at most the number |
| SearchPrimes.RecordIfPrime | memory-efficient/src/primes.c:97-100 | the number is written at the cursor exactly when it is prime, so the slice and the cursor then cover the primes up to and including it |
| SearchPrimes.Record | memory-efficient/src/primes.c:99 | one prime is written at the cursor, which then advances by one |
| SearchPrimes.CreateThreads | memory-efficient/src/primes.c:109-134 | the inputs follow the partition of [2, limit), and each cursor starts at the estimate `approxPrimeCount(first - 1)` |
| SearchPrimes.InputsFollow | memory-efficient/src/primes.c:116-130 | worker k has id k, its range lies inside [2, limit), and its first index is the previous worker's last index |
| SearchPrimes.CombineSearchResults | memory-efficient/src/primes.c:142-150 | the darray gains every worker's slice [firstIndex, cursor), in worker order |
| SearchPrimes.AppendSlice | memory-efficient/src/primes.c:145-147 | the dynamic array gains exactly the buffer entries from the worker's first index up to its cursor, in order |
| SearchPrimes.GetArrayLength | memory-efficient/src/primes.c:30-36 | the result is the sum of the cursors of the workers before this one |
| SearchPrimes.FindPrimes | memory-efficient/src/primes.c:152-176 | the darray gains exactly the primes below the limit, ascending, whatever the buffer held at first |
| SearchPrimes.JoinedSlices | memory-efficient/src/primes.c:142-150 | once every worker has written, the slices joined in worker order are the primes below the limit |
| SearchPrimes.Search | memory-efficient/src/primes.c:157-167 | after the workers are created and joined, the cursors lie inside the buffer and the slices, joined in worker order, are the primes below the limit |
| SearchPrimes.RunWorker | memory-efficient/src/primes.c:131-139 | running worker i after workers 0 .. i-1 keeps their slices and advances cursor i by the number of primes in its range, leaving later cursors at their start |
| SearchPrimes.TestNumber | memory-efficient/src/primes.c:96-103 | one round of the worker's loop: the buffer from the start cursor holds the primes of [firstNumber, i + 1), and the cursor counts them |
| SearchPrimes.SlicesOrdered | memory-efficient/src/primes.c:125-128 | when each estimate leaves room, a worker's slice ends before the next worker's slice starts |
| SearchPrimes.SliceInBuffer | memory-efficient/src/primes.c:157 | and every slice fits in the buffer of `approxPrimeCount(limit)` slots |
| SearchPrimes.ModPowRound | memory-efficient/src/primes.c:66-71 | one squaring round keeps result · base^exp ≡ base0^exp0 (mod m), and its two products fit in a word |
| SearchPrimes.WorkerScan | memory-efficient/src/primes.c:86-91 | a worker's scan of the shared buffer finds every prime it needs, in worker 0's slice or in its own |
| StreamDecomposition.PrimeFile | memory-efficient/src/main.c:141-142 | the binary file is one word longer than the table and starts with the prime count |
| StreamDecomposition.PrimeFileEntry | memory-efficient/src/main.c:141-142 | after the count, word k + 1 of the file is the k-th prime |
| StreamDecomposition.PrimeListFile.Open | memory-efficient/src/decomposition.c:170 | a file opens at position 0 |
| StreamDecomposition.PrimeListFile.GetNextPrime | memory-efficient/src/decomposition.c:33-44 | the word at the position, which then advances; at the end of the file, exit code 7 |
| StreamDecomposition.PrimeListFile.Seek | memory-efficient/src/decomposition.c:143 | the position becomes the offset |
| StreamDecomposition.ScanSound | memory-efficient/src/decomposition.c:46-56 | `isPrime` says "not prime" only of composites, so a prime gets "prime" or end of file |
| StreamDecomposition.ScanComplete | memory-efficient/src/decomposition.c:46-56 | read from the first prime with enough primes left, `isPrime` says prime exactly when the number is prime |
| StreamDecomposition.IsPrimeFromFile | memory-efficient/src/decomposition.c:46-56 | `isPrime` reads on from where the file stands, and its result and final position are those of `ScanFile` |
| StreamDecomposition.LoopAsWritten | memory-efficient/src/decomposition.c:63-77 | the trial loop as written reads a new prime on every test, also after a division |
| StreamDecomposition.ThirtyAsWritten | memory-efficient/src/decomposition.c:63-83 | as written, 30 over 2, 3, 5, ... records 2 twice and then 5, multiplying to 20 |
| StreamDecomposition.ThirtyText | memory-efficient/src/decomposition.c:92-118 | and is written "30 = 2^2 * 5\n" |
| StreamDecomposition.FourAsWritten | memory-efficient/src/decomposition.c:78-83 | as written, 4 records 2 and then 2 again as a new factor, which is not strictly increasing |
| StreamDecomposition.SevenAsWritten | memory-efficient/src/decomposition.c:80 | a prime gets no factor, so no line |
| StreamDecomposition.HeaderAsWritten | memory-efficient/src/decomposition.c:143 | as written, read from offset 0 the count header is taken as the first prime: for the primes below 10, the number 4 exits with 17 |
| StreamDecomposition.FactorText | memory-efficient/src/decomposition.c:92-118 | nothing is written exactly when no factor was recorded |
| StreamDecomposition.TrialEnd | memory-efficient/src/decomposition.c:78-83 | when the prime under test squared exceeds the remainder, the remainder is 1 or a prime, and settling it completes the factorisation |
| StreamDecomposition.IncrementLast | memory-efficient/src/decomposition.c:71 | the last count goes up by one and every other element is kept |
| StreamDecomposition.Record | memory-efficient/src/decomposition.c:66-72 | a new factor is appended to both arrays with count 1; otherwise the last count goes up by one |
| StreamDecomposition.DivideOut | memory-efficient/src/decomposition.c:63-77 | corrected (Findings row 6) trial loop: the factors so far and the remainder are set up for the remainder step; end of file only when the table has no room for the number |
| StreamDecomposition.SettleRemainder | memory-efficient/src/decomposition.c:78-89 | corrected (Findings row 7, through `RecordRemainder`): the remainder step never finds the remainder composite; it records it and ends with the factorisation |
| StreamDecomposition.RecordRemainder | memory-efficient/src/decomposition.c:80-83 | corrected (Findings row 7): a remainder equal to the last factor raises its count; otherwise it is appended with count 1. The source always appends it |
| StreamDecomposition.DecomposeSingle | memory-efficient/src/decomposition.c:58-90 | corrected (Findings rows 6 and 7): the arrays hold the factorisation (ascending primes, positive counts, product the number; nothing for 0, 1 and primes); exit 7 only when the table has no room |
| StreamDecomposition.WriteFactorsToFile | memory-efficient/src/decomposition.c:92-118 | the text is `FactorText` of the recorded factors |
| StreamDecomposition.FactorisationLine | memory-efficient/src/decomposition.c:92-118 | any recorded factorisation of a number below the bound prints the same line as the number's exponents over the whole table |
| StreamDecomposition.WriteSingle | memory-efficient/src/decomposition.c:136-143 | corrected (Findings rows 6, 7 and 8; the source rewinds to offset 0): one round (clear, decompose, write, rewind past the header) writes the number's line |
| StreamDecomposition.Decompose | memory-efficient/src/decomposition.c:131-148 | corrected (Findings rows 6, 7 and 8, through `WriteSingle`), starting past the header: one worker writes the lines of its range, in order |
| StreamDecomposition.LaunchDecomposition | memory-efficient/src/decomposition.c:150-183 | corrected (Findings rows 6, 7 and 8; each file handle is positioned past the header after `fopen`, which the source does not do): with the workers over the partition of [0, tableSize), each with its own file handle, the output is every number's line in order |
| Progress.FilledApproximates | basic/decomp.c:26 | the filled cells are the largest whole number whose share of the bar does not exceed val / max |
| Progress.FilledWithinBar | threaded/src/progress.c:19 | up to the maximum, the filled part fits the bar and is full exactly when val = max |
| Progress.FilledMonotone | memory-efficient/src/progress.c:24 | more progress never empties a cell |
| Progress.PercentBounded | memory-efficient/src/progress.c:34 | up to the maximum, the percentage is at most 100 and is 100 exactly at a non-zero maximum |
| Progress.DrawBar | memory-efficient/src/progress.c:23-35 | the two loops draw '#' for each filled cell, then the padding up to `length` |
| Progress.BarFits | basic/decomp.c:25-36 | up to the maximum, the bar is exactly `length` cells wide |
| Progress.ThreadMaxima | threaded/src/progress.c:55-62 | each thread's maximum is the size of its share under the partition rule |
| Progress.MaximaAddUp | threaded/src/progress.c:55-62 | the per-thread maxima add up to the overall maximum, and any two differ by at most one |
| Progress.Subtract | memory-efficient/src/progress.c:93 | `ulong` subtraction wraps below zero |
| Progress.EtaShown | memory-efficient/src/progress.c:92-99 | at speed 0 only the placeholder; otherwise the minutes and seconds, preceded by the placeholder too when the minutes exceed 999 |
| Progress.EtaEstimates | memory-efficient/src/progress.c:92-96 | within the maximum, the time shown is the remaining items at that speed, rounded down to a second, with seconds below 60 |
| Progress.EtaAtMaximum | memory-efficient/src/progress.c:92-96 | at the maximum, the ETA is 0:00 |
| Progress.LastItemOverrunsMaximum | memory-efficient/src/decomposition.c:152 | the maximum is tableSize - 1 but tableSize items are registered, so after the last one the subtraction wraps, and both the placeholder and a huge time are shown; the bar shows 44 cells of 40 and 111 %. The same `tableSize - 1` maximum against `tableSize` registrations is set at basic/decomp.c:218 and threaded/src/decomposition.c:113, so all three variants overrun the bar |
| Progress.SumArray | memory-efficient/src/progress.c:37-51 | `sumProgress` / `sumIterations` return the sum of the array |
| Progress.ClearArray | threaded/src/progress.c:47-51 | every slot becomes 0 |
| Progress.SumIncrement | threaded/src/progress.c:94-97 | bumping one counter raises the sum by one |
| Progress.GuardedReporter.constructor | memory-efficient/src/progress.c:13-20 | the starting state: not initialised, WAIT, maximum 0, no counters |
| Progress.GuardedReporter.Init | memory-efficient/src/progress.c:144-154 | only the first call takes effect: fresh zeroed counters for `threadCount` threads and WAIT; a later call changes nothing |
| Progress.GuardedReporter.Start | memory-efficient/src/progress.c:104-113 | once initialised: the maximum is set, both arrays are zeroed, and the status is RUN; before that, nothing changes |
| Progress.GuardedReporter.Stop | memory-efficient/src/progress.c:115-120 | WAIT once initialised; before that, nothing changes |
| Progress.GuardedReporter.Register | memory-efficient/src/progress.c:122-127 | once initialised, slot `id` of both arrays goes up by one and no other slot changes, so the progress total grows by one; before that, nothing changes |
| Progress.GuardedReporter.Tick | memory-efficient/src/progress.c:135-138 | while RUN, a reporter round zeroes `iterations` and keeps `progress` |
| Progress.GuardedReporter.Shutdown | memory-efficient/src/progress.c:156-160 | EXIT once initialised; before that, nothing changes |
| Progress.Reporter.constructor | threaded/src/progress.c:113-120 | zeroed counters for `threadCount` threads, status 0 and maximum 0 |
| Progress.Reporter.Start | threaded/src/progress.c:81-87 | the maximum is set, both arrays are zeroed, and the status is 1 |
| Progress.Reporter.Stop | threaded/src/progress.c:89-92 | status 0 |
| Progress.Reporter.Register | threaded/src/progress.c:94-97 | only slot `id` of both arrays goes up by one, and the progress total grows by one |
| Progress.Reporter.Tick | threaded/src/progress.c:103-106 | a reporter round while status is 1 zeroes `iterations` and keeps `progress` |
| Progress.Reporter.Shutdown | threaded/src/progress.c:122-124 | status 2 |
| Progress.BasicReporter.constructor | basic/decomp.c:16-21 | the static counters and status start at 0 |
| Progress.BasicReporter.Start | basic/decomp.c:54-59 | the maximum is set, `progress` is zeroed (`iterCount` is not), and the status is 1 |
| Progress.BasicReporter.Stop | basic/decomp.c:61-64 | status 0 |
| Progress.BasicReporter.Register | basic/decomp.c:66-69 | both counters go up by one |
| Progress.BasicReporter.Tick | basic/decomp.c:236-240 | a reporter round while status is 1 zeroes `iterCount` and keeps `progress` |
| Progress.BasicReporter.Shutdown | basic/decomp.c:273-274 | status 2 |

## Left out

- Threads, mutexes, semaphores and condition variables: each stage's workers run one after the other, in worker order, and the reporter thread's loop is reduced to one round (`Tick`). Interleavings are not modelled.
- The shared-table poll in `getPrimeNumber` (memory-efficient/src/primes.c:38-50), which waits for a zero entry to be written by another thread: in the sequential order the entries a worker reads are already written, and a read is a plain buffer read.
- Printing, `fflush`, ANSI escapes, cursor movement, `sleep`/`usleep`: the bar is a sequence of cells, the ETA a list of fields, and a factor line a string. The decimal fields of the bar and ETA lines are not rendered.
- File I/O: the prime file is a sequence of words, the output file a sequence of lines, and `fopen`/`fclose`/`fread`/`fwrite` are the `PrimeListFile` class or left out. `fread` failing for a reason other than end of file (exit 6) is not modelled.
- `computeSpeed` divides by a floating-point constant: the speed is a parameter of `EtaShown`.
- memory-efficient/src/prime-count.c is not part of this model: `approxPrimeCount` computes with `long double` logarithms, and is the parameter `estimate` of `ApproxPrimeCount`.
- `performTests` (dlopen and the ELF symbol walk), the three `main` functions (argument parsing, the `-s` mode, writing `primes.txt`), `darrayDestroy`, and `darrayRemove`, which is declared but never defined.
- 64-bit overflow of the counters, of `sqr` and of `val * length` is not modelled: values are unbounded, and the bounds the proofs need are preconditions. Wrap-around is modelled where it is the behaviour: `indexOfPrime`'s -1 and its `right`, `endsWith`'s indices, and the ETA subtraction.
- BasicDecomp.Decomp: requires the last table prime squared to reach `tableSize`, since the trial loop reads past the table otherwise. For the primes below `limit` this holds for every limit ≥ 3 by Bertrand's postulate, which is not proved here.
- BasicDecomp.IndexOfPrime: requires a non-empty table and `prime ≥ primes[0]`. Otherwise the unguarded search wraps `right` and reads outside the table, which is undefined behaviour. The caller always meets this. The midpoint `(right + left) / 2` is computed without 64-bit wrap-around; it differs from the source only for tables of more than 2^63 primes.
- ThreadedDecomposition.DecomposeSingle: requires the last table prime squared to exceed the number and fewer than 2^63 primes. The first keeps `primes[j]` inside the table; the second keeps `right + left` from wrapping.
- SearchPrimes.FindPrimes: requires `limit ≤ 2^32` (so `modpow`'s products fit in a word) and `SlicesFit` (the estimates leave each worker room for its primes). It also requires `Reachable`: worker 0's range holds a prime whose square exceeds every later candidate. Otherwise a later worker's scan runs past worker 0's slice into slots the model leaves arbitrary.
- StreamDecomposition.LaunchDecomposition: the promise that it does not exit with code 7 holds when the table has room for every number (`RoomFor`), as in `Decomp` above.
- ThreadedDecomposition.LaunchDecomposition: modelled only over a true prime table (`IsPrimeTable`), as the corrected search of Findings row 3 produces; so are `Decompose`, `DecomposeRange`, `WriteSingle` and `DecomposeSingle`. The table the as-written threaded `findPrimes` passes in (threaded/src/main.c:90-100) holds composites once there are two or more workers (`ThreadedPrimes.AcceptsTwelve`), and what the stage writes over such a table is not modelled.
- ThreadedPrimes.FindPrimes: proved as written only when every worker's table fits its `limit / threadCount` slots (`TablesFit`). The overflow that happens otherwise is a finding below.
- Progress.EtaShown: the minutes and seconds are values; their `%03zu:%02zu` formatting is not modelled.

## Findings

| source | as written | input that shows it | evidently intended | confidence | as-written member | corrected member |
|---|---|---|---|---|---|---|
| memory-efficient/src/darray.c:44 | `capacity *= 1.5` truncates, so capacity 0 or 1 does not grow and the next add copies past the allocation (line 62) | `darrayCreate(1, 8)` and two adds | every resize adds room | not executed; the program's own arrays start at 4 and 64 | DynamicArray.GrowthStallsAsWritten | DynamicArray.GrownCapacity |
| memory-efficient/include/darray.h:44-46 | `darraySetOrAdd` at index = length appends its uninitialised local `holder`, not `elem` | empty array, `elem` 7, index 0 | `elem` is appended | not executed; the macro is not used in the program | DynamicArray.SetOrAddLosesElement | DynamicArray.SetOrAddKeepsElement |
| threaded/src/primes.c:29 | a worker trial-divides only by the primes of its own range | limit 30, 3 workers: 12 is reported prime | the primes below the limit for any worker count | not executed | ThreadedPrimes.AcceptsTwelve | ThreadedPrimes.CorrectedFindPrimes |
| threaded/src/primes.c:55 | each worker gets `limit / threadCount` slots, fewer than the primes its range can hold | limit 7, 4 workers: worker 0 finds 2 and 3 in a 1-slot table | slots for every prime of the range | not executed | ThreadedPrimes.SlotsOverflowAsWritten | ThreadedPrimes.RangeSizeFits |
| threaded/src/decomposition.c:52 | `factors[index] = 1` overwrites the count when the remainder is the prime last divided by | 8 is written "8 = 2", 18 "18 = 2 * 3" | `factors[index]++` | not executed | ThreadedDecomposition.EightAsWritten | ThreadedDecomposition.DecomposeSingle |
| memory-efficient/src/decomposition.c:63 | every loop test reads the next prime, also after a division, and the count goes to the last recorded prime | 30 is written "30 = 2^2 * 5" | read a new prime only when the current one does not divide | not executed | StreamDecomposition.ThirtyAsWritten | StreamDecomposition.DecomposeSingle |
| memory-efficient/src/decomposition.c:80-83 | a prime remainder other than the number is always appended as a new factor with count 1, also when it equals the last factor recorded | 4 is recorded as factors [2, 2] with counts [1, 1] and written "4 = 2 * 2" | one more count of the last factor when the remainder equals it | not executed | StreamDecomposition.FourAsWritten | StreamDecomposition.RecordRemainder |
| memory-efficient/src/decomposition.c:143 | the prime file is rewound to offset 0 (and opened there, line 170), where its count header is, so the count is read as the first prime | primes below 10, number 4: exit code 17 | position the file just after the header | not executed | StreamDecomposition.HeaderAsWritten | StreamDecomposition.WriteSingle |
