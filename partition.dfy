/** The work split shared by every threaded stage: `total` consecutive numbers
  * starting at `origin` are cut into `workers` contiguous half-open ranges,
  * each `total / workers` long, the first `total % workers` one longer. */
module Partition {
  datatype Range = Range(first: nat, last: nat)
  {
    function Size(): nat { if first <= last then last - first else 0 }
    predicate Contains(x: nat) { first <= x < last }
  }

  function Min(a: nat, b: nat): nat { if a <= b then a else b }

  /** How many numbers range `k` receives: a full share, plus one while the
    * surplus lasts. */
  function Share(total: nat, workers: nat, k: nat): nat
    requires workers > 0
  {
    total / workers + (if k < total % workers then 1 else 0)
  }

  /** Where range `k` starts: right after range `k - 1`. */
  function Start(origin: nat, total: nat, workers: nat, k: nat): (s: nat)
    requires workers > 0
    ensures origin <= s
  {
    if k == 0 then origin else Start(origin, total, workers, k - 1) + Share(total, workers, k - 1)
  }

  /** The partition as a whole. */
  function Ranges(origin: nat, total: nat, workers: nat): (rs: seq<Range>)
    requires workers > 0
    ensures |rs| == workers
  {
    seq(workers, k requires 0 <= k => Range(Start(origin, total, workers, k), Start(origin, total, workers, k + 1)))
  }

  /** The loop that every stage runs to fill its worker inputs. */
  method SplitRange(origin: nat, total: nat, workers: nat) returns (rs: seq<Range>)
    requires workers > 0
    ensures rs == Ranges(origin, total, workers)
  {
    var perWorker := total / workers;
    var surplus := total % workers;
    var previousLast := origin;
    rs := [];
    var i := 0;
    while i < workers
      invariant 0 <= i <= workers
      invariant previousLast == Start(origin, total, workers, i)
      invariant surplus == total % workers - Min(i, total % workers)
      invariant rs == Ranges(origin, total, workers)[..i]
    {
      assert perWorker + (if surplus > 0 then 1 else 0) == Share(total, workers, i);
      var first := previousLast;
      var last := previousLast + perWorker;
      if surplus > 0 {
        last := last + 1;
        surplus := surplus - 1;
      }
      assert last == Start(origin, total, workers, i + 1);
      RangeAt(origin, total, workers, i);
      assert Ranges(origin, total, workers)[..i + 1] == Ranges(origin, total, workers)[..i] + [Range(first, last)];
      previousLast := last;
      rs := rs + [Range(first, last)];
      i := i + 1;
    }
  }

  lemma RangeAt(origin: nat, total: nat, workers: nat, k: nat)
    requires workers > 0 && k < workers
    ensures Ranges(origin, total, workers)[k] == Range(Start(origin, total, workers, k), Start(origin, total, workers, k + 1))
  {
  }

  /** Range `k` holds a full share plus one surplus number exactly when `k` is
    * among the first `total % workers` ranges. */
  lemma RangeSize(origin: nat, total: nat, workers: nat, k: nat)
    requires workers > 0 && k < workers
    ensures Ranges(origin, total, workers)[k].first <= Ranges(origin, total, workers)[k].last
    ensures Ranges(origin, total, workers)[k].Size() == total / workers + (if k < total % workers then 1 else 0)
  {
    RangeAt(origin, total, workers, k);
  }

  /** Any two ranges differ in size by at most one. */
  lemma SizesBalanced(origin: nat, total: nat, workers: nat, j: nat, k: nat)
    requires workers > 0 && j < workers && k < workers
    ensures Ranges(origin, total, workers)[j].Size() <= Ranges(origin, total, workers)[k].Size() + 1
  {
    RangeSize(origin, total, workers, j);
    RangeSize(origin, total, workers, k);
  }

  /** The start of range `k` in closed form. */
  lemma {:induction false} StartClosedForm(origin: nat, total: nat, workers: nat, k: nat)
    requires workers > 0
    ensures Start(origin, total, workers, k) == origin + k * (total / workers) + Min(k, total % workers)
  {
    if k > 0 {
      StartClosedForm(origin, total, workers, k - 1);
      ClosedFormStep(origin, k - 1, total / workers, total % workers, Start(origin, total, workers, k - 1));
    }
  }

  /** One more range adds a full share, and one while the surplus lasts. */
  lemma ClosedFormStep(origin: nat, k: nat, q: nat, r: nat, start: nat)
    requires start == origin + k * q + Min(k, r)
    ensures start + q + (if k < r then 1 else 0) == origin + (k + 1) * q + Min(k + 1, r)
  {
    assert (k + 1) * q == k * q + q;
  }

  lemma DivModSplit(total: nat, workers: nat)
    requires workers > 0
    ensures workers * (total / workers) + total % workers == total
  {
  }

  /** The ranges follow each other without gap or overlap, from `origin` to
    * `origin + total`. */
  lemma RangesContiguous(origin: nat, total: nat, workers: nat)
    requires workers > 0
    ensures Ranges(origin, total, workers)[0].first == origin
    ensures forall k :: 0 <= k < workers - 1 ==> Ranges(origin, total, workers)[k].last == Ranges(origin, total, workers)[k + 1].first
    ensures Ranges(origin, total, workers)[workers - 1].last == origin + total
  {
    StartClosedForm(origin, total, workers, workers);
    DivModSplit(total, workers);
  }

  /** The range after the last would start at `origin + total`. */
  lemma StartAtEnd(origin: nat, total: nat, workers: nat)
    requires workers > 0
    ensures Start(origin, total, workers, workers) == origin + total
  {
    StartClosedForm(origin, total, workers, workers);
    DivModSplit(total, workers);
  }

  /** Range `k` runs from its start to the next range's start, inside
    * `[origin, origin + total]`. */
  lemma RangeWithin(origin: nat, total: nat, workers: nat, k: nat)
    requires workers > 0 && k < workers
    ensures Ranges(origin, total, workers)[k] == Range(Start(origin, total, workers, k), Start(origin, total, workers, k + 1))
    ensures Start(origin, total, workers, k) <= Start(origin, total, workers, k + 1) <= origin + total
  {
    StartMonotone(origin, total, workers, k, k + 1);
    StartMonotone(origin, total, workers, k + 1, workers);
    StartAtEnd(origin, total, workers);
  }

  lemma {:induction false} StartMonotone(origin: nat, total: nat, workers: nat, j: nat, k: nat)
    requires workers > 0 && j <= k
    ensures Start(origin, total, workers, j) <= Start(origin, total, workers, k)
    decreases k
  {
    if j < k {
      StartMonotone(origin, total, workers, j, k - 1);
    }
  }

  /** Every number of `[origin, origin + total)` lies in exactly one range, and
    * no range holds a number outside it. */
  lemma RangesCover(origin: nat, total: nat, workers: nat, x: nat)
    requires workers > 0
    ensures (origin <= x < origin + total) <==> (exists k :: 0 <= k < workers && Ranges(origin, total, workers)[k].Contains(x))
    ensures forall j, k :: 0 <= j < k < workers && Ranges(origin, total, workers)[j].Contains(x) ==> !Ranges(origin, total, workers)[k].Contains(x)
  {
    var rs := Ranges(origin, total, workers);
    RangesContiguous(origin, total, workers);
    forall j, k | 0 <= j < k < workers && rs[j].Contains(x)
      ensures !rs[k].Contains(x)
    {
      StartMonotone(origin, total, workers, j + 1, k);
    }
    forall k | 0 <= k < workers && rs[k].Contains(x)
      ensures origin <= x < origin + total
    {
      StartMonotone(origin, total, workers, 0, k);
      StartMonotone(origin, total, workers, k + 1, workers);
    }
    if origin <= x < origin + total {
      var k := LocateIn(origin, total, workers, x, 0);
      assert rs[k].Contains(x);
    }
  }

  /** The range holding `x`, searched from range `from` on. */
  lemma {:induction false} LocateIn(origin: nat, total: nat, workers: nat, x: nat, from: nat) returns (k: nat)
    requires workers > 0 && from < workers
    requires Start(origin, total, workers, from) <= x < origin + total
    ensures from <= k < workers && Ranges(origin, total, workers)[k].Contains(x)
    decreases workers - from
  {
    RangesContiguous(origin, total, workers);
    if x < Start(origin, total, workers, from + 1) {
      k := from;
    } else {
      k := LocateIn(origin, total, workers, x, from + 1);
    }
  }

  /** Sum of the range sizes. */
  function SizeSum(rs: seq<Range>): nat
  {
    if rs == [] then 0 else SizeSum(rs[..|rs| - 1]) + rs[|rs| - 1].Size()
  }

  /** The ranges together hold exactly `total` numbers. */
  lemma SizesAddUp(origin: nat, total: nat, workers: nat)
    requires workers > 0
    ensures SizeSum(Ranges(origin, total, workers)) == total
  {
    var rs := Ranges(origin, total, workers);
    PrefixSum(origin, total, workers, workers);
    assert rs[..workers] == rs;
    StartClosedForm(origin, total, workers, workers);
    DivModSplit(total, workers);
  }

  lemma {:induction false} PrefixSum(origin: nat, total: nat, workers: nat, i: nat)
    requires workers > 0 && i <= workers
    ensures SizeSum(Ranges(origin, total, workers)[..i]) + origin == Start(origin, total, workers, i)
  {
    var rs := Ranges(origin, total, workers);
    if i > 0 {
      PrefixSum(origin, total, workers, i - 1);
      assert rs[..i][..i - 1] == rs[..i - 1];
      RangeSize(origin, total, workers, i - 1);
    }
  }

  /** The sum of per-worker counts. */
  function Sum(s: seq<nat>): nat
    decreases |s|
  {
    if s == [] then 0 else Sum(s[..|s| - 1]) + s[|s| - 1]
  }

  /** No worker's count exceeds the sum. */
  lemma {:induction false} SumBound(s: seq<nat>, k: nat)
    requires k < |s|
    ensures s[k] <= Sum(s)
    decreases |s|
  {
    if k < |s| - 1 {
      SumBound(s[..|s| - 1], k);
    }
  }

  /** Ten numbers over three workers: ranges of four, three and three. */
  lemma TenOverThree()
    ensures Ranges(0, 10, 3) == [Range(0, 4), Range(4, 7), Range(7, 10)]
  {
    assert Share(10, 3, 0) == 4 && Share(10, 3, 1) == 3 && Share(10, 3, 2) == 3;
    assert Start(0, 10, 3, 3) == 10;
  }

  // ----- joining the workers' results ---------------------------------------

  /** The workers' results joined in worker order. */
  function Concat<T>(ss: seq<seq<T>>): seq<T>
    decreases |ss|
  {
    if ss == [] then [] else Concat(ss[..|ss| - 1]) + ss[|ss| - 1]
  }

  lemma ConcatPrefix<T>(ss: seq<seq<T>>, i: nat)
    requires i < |ss|
    ensures Concat(ss[..i + 1]) == Concat(ss[..i]) + ss[i]
  {
    assert ss[..i + 1][..i] == ss[..i];
  }

  /** Every element of a result appears in the joined result. */
  lemma {:induction false} ConcatMember<T>(ss: seq<seq<T>>, k: nat, x: T)
    requires k < |ss| && x in ss[k]
    ensures x in Concat(ss)
    decreases |ss|
  {
    if k < |ss| - 1 {
      ConcatMember(ss[..|ss| - 1], k, x);
    }
  }

  /** Every element of the joined result comes from some worker's result. */
  lemma {:induction false} ConcatSource<T>(ss: seq<seq<T>>, x: T)
    requires x in Concat(ss)
    ensures exists k :: 0 <= k < |ss| && x in ss[k]
    decreases |ss|
  {
    var n := |ss| - 1;
    if x !in ss[n] {
      ConcatSource(ss[..n], x);
      var k :| 0 <= k < n && x in ss[..n][k];
      assert x in ss[k];
    }
  }
}
