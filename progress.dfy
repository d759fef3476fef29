/** The progress counters of the three variants: per-worker counters that the
  * workers bump, the lifecycle state that the start/stop/shutdown calls set,
  * the reporter's per-tick reset, and the integer arithmetic of the bar, the
  * per-thread bar maxima and the estimated time left. Printing, sleeping and
  * the reporter thread itself are not modelled. */
module Progress {
  import opened Partition
  import opened Machine

  /** `threadStatus`: 0, 1 and 2 in every variant, named `STATUS_WAIT`,
    * `STATUS_RUN` and `STATUS_EXIT` in the memory-efficient one. */
  datatype Status = Wait | Run | Exit

  /** Width of every bar the reporters draw. */
  const BAR_LENGTH: nat := 40
  /** The cell after the filled part: a space in the basic and threaded
    * variants, an underscore in the memory-efficient one. */
  const SPACE: char := ' '
  const UNDERSCORE: char := '_'

  // ----- bar arithmetic ----------------------------------------------------

  /** `filledPixels`: the share of `length` cells that `val` out of `max`
    * earns, rounded down; no cell when `max` is zero. */
  function Filled(val: nat, max: nat, length: nat): nat
  {
    if max == 0 then 0 else val * length / max
  }

  /** The percentage printed after the bar, rounded down. */
  function Percent(val: nat, max: nat): nat
  {
    if max == 0 then 0 else val * 100 / max
  }

  lemma DivBounds(a: nat, b: nat)
    requires b > 0
    ensures (a / b) * b <= a < (a / b + 1) * b
  {
  }

  /** The filled cells are the largest whole number of cells whose share of
    * the bar does not exceed `val / max`. */
  lemma FilledApproximates(val: nat, max: nat, length: nat)
    requires max > 0
    ensures Filled(val, max, length) * max <= val * length < (Filled(val, max, length) + 1) * max
  {
    DivBounds(val * length, max);
  }

  lemma MulMonotone(a: nat, b: nat, c: nat)
    requires a <= b
    ensures a * c <= b * c
  {
  }

  /** Up to the maximum, the filled part stays within the bar, and the bar is
    * full exactly when `val` reaches `max`. */
  lemma FilledWithinBar(val: nat, max: nat, length: nat)
    requires val <= max
    ensures Filled(val, max, length) <= length
    ensures max > 0 && length > 0 ==> (Filled(val, max, length) == length <==> val == max)
  {
    if max > 0 {
      FilledApproximates(val, max, length);
      ShareWithin(Filled(val, max, length), val, max, length);
    }
  }

  /** The rounded-down share `f` of `l` cells for `v` out of `m` is at most
    * `l`, and all of them exactly when `v` is `m`. */
  lemma ShareWithin(f: nat, v: nat, m: nat, l: nat)
    requires 0 < m && v <= m
    requires f * m <= v * l < (f + 1) * m
    ensures f <= l
    ensures l > 0 ==> (f == l <==> v == m)
  {
    MulMonotone(v, m, l);
    assert v * l <= l * m;
    if f > l {
      MulMonotone(l + 1, f, m);
    }
    if v == m {
      assert v * l == l * m;
      if f < l {
        MulMonotone(f + 1, l, m);
      }
    } else if l > 0 {
      MulMonotone(v + 1, m, l);
      assert (v + 1) * l == v * l + l;
      assert f * m < l * m;
      if f >= l {
        MulMonotone(l, f, m);
      }
    }
  }

  /** More progress never empties a cell. */
  lemma FilledMonotone(v: nat, w: nat, max: nat, length: nat)
    requires v <= w
    ensures Filled(v, max, length) <= Filled(w, max, length)
  {
    if max > 0 {
      MulMonotone(v, w, length);
      FilledApproximates(v, max, length);
      FilledApproximates(w, max, length);
      if Filled(v, max, length) > Filled(w, max, length) {
        MulMonotone(Filled(w, max, length) + 1, Filled(v, max, length), max);
      }
    }
  }

  /** Up to the maximum the percentage is at most 100, and it is 100 exactly
    * when `val` reaches a non-zero `max`. */
  lemma PercentBounded(val: nat, max: nat)
    requires val <= max
    ensures Percent(val, max) <= 100
    ensures max > 0 ==> (Percent(val, max) == 100 <==> val == max)
  {
    FilledWithinBar(val, max, 100);
  }

  /** `printBar`'s two loops: `#` for each filled cell, then the padding cell
    * up to `length`. */
  method DrawBar(val: nat, max: nat, length: nat, pad: char) returns (cells: seq<char>)
    ensures |cells| == if Filled(val, max, length) <= length then length else Filled(val, max, length)
    ensures forall i :: 0 <= i < |cells| ==> cells[i] == if i < Filled(val, max, length) then '#' else pad
  {
    var filled := if max == 0 then 0 else (val * length) / max;
    cells := [];
    var i := 0;
    while i < filled
      invariant i <= filled && |cells| == i
      invariant forall k :: 0 <= k < i ==> cells[k] == '#'
    {
      cells := cells + ['#'];
      i := i + 1;
    }
    while i < length
      invariant filled <= i && |cells| == i
      invariant i <= (if filled <= length then length else filled)
      invariant forall k :: 0 <= k < i ==> cells[k] == if k < filled then '#' else pad
    {
      cells := cells + [pad];
      i := i + 1;
    }
  }

  /** Within the maximum a drawn bar has exactly `length` cells, of which the
    * first `Filled` are `#`. */
  lemma BarFits(val: nat, max: nat, length: nat, cells: seq<char>)
    requires val <= max
    requires |cells| == if Filled(val, max, length) <= length then length else Filled(val, max, length)
    ensures |cells| == length
  {
    FilledWithinBar(val, max, length);
  }

  // ----- per-thread maxima -------------------------------------------------

  /** `printProgress`'s loop over the threads: each thread's bar maximum is
    * `maxProgress / threadCount`, plus one while the surplus lasts. It is
    * the size of that thread's share in the common partition rule. */
  method ThreadMaxima(maxProgress: nat, threadCount: nat) returns (maxima: seq<nat>)
    requires threadCount > 0
    ensures |maxima| == threadCount
    ensures forall k :: 0 <= k < threadCount ==> maxima[k] == Ranges(0, maxProgress, threadCount)[k].Size()
  {
    var perThread := maxProgress / threadCount;
    var surplus := maxProgress % threadCount;
    maxima := [];
    for i := 0 to threadCount
      invariant |maxima| == i
      invariant surplus == maxProgress % threadCount - Min(i, maxProgress % threadCount)
      invariant forall k :: 0 <= k < i ==> maxima[k] == Ranges(0, maxProgress, threadCount)[k].Size()
    {
      var max := perThread;
      if surplus > 0 {
        max := max + 1;
        surplus := surplus - 1;
      }
      RangeSize(0, maxProgress, threadCount, i);
      maxima := maxima + [max];
    }
  }

  lemma {:induction false} SumOfSizes(rs: seq<Range>, ms: seq<nat>)
    requires |rs| == |ms|
    requires forall k :: 0 <= k < |ms| ==> ms[k] == rs[k].Size()
    ensures Sum(ms) == SizeSum(rs)
    decreases |ms|
  {
    if ms != [] {
      SumOfSizes(rs[..|rs| - 1], ms[..|ms| - 1]);
    }
  }

  /** The per-thread maxima add up to the overall maximum, and any two differ
    * by at most one. */
  lemma MaximaAddUp(maxProgress: nat, threadCount: nat, maxima: seq<nat>)
    requires threadCount > 0 && |maxima| == threadCount
    requires forall k :: 0 <= k < threadCount ==> maxima[k] == Ranges(0, maxProgress, threadCount)[k].Size()
    ensures Sum(maxima) == maxProgress
    ensures forall j, k :: 0 <= j < threadCount && 0 <= k < threadCount ==> maxima[j] <= maxima[k] + 1
  {
    SumOfSizes(Ranges(0, maxProgress, threadCount), maxima);
    SizesAddUp(0, maxProgress, threadCount);
    forall j, k | 0 <= j < threadCount && 0 <= k < threadCount
      ensures maxima[j] <= maxima[k] + 1
    {
      SizesBalanced(0, maxProgress, threadCount, j, k);
    }
  }

  // ----- estimated time left -----------------------------------------------

  /** One ETA field: the placeholder `--:--` or minutes and seconds. */
  datatype Eta = Unknown | Remaining(minutes: nat, seconds: nat)

  /** `a - b` on `ulong`: below zero it wraps around the word. */
  function Subtract(a: nat, b: nat): (r: nat)
    requires a < WORD && b < WORD
    ensures r < WORD && (b + r) % WORD == a
  {
    if b <= a then a - b else WORD - (b - a)
  }

  /** The ETA fields the memory-efficient reporter prints: the placeholder at
    * speed zero; otherwise the seconds left at the current speed as minutes
    * and seconds, preceded by the placeholder too when the minutes exceed
    * 999. */
  function EtaShown(maxProgress: nat, totalProgress: nat, totalSpeed: nat): (shown: seq<Eta>)
    requires maxProgress < WORD && totalProgress < WORD
    ensures 1 <= |shown| <= 2
    ensures shown[0] == Unknown <==> (totalSpeed == 0 || |shown| == 2)
  {
    if totalSpeed == 0 then [Unknown]
    else
      var seconds := Subtract(maxProgress, totalProgress) / totalSpeed;
      (if seconds / 60 > 999 then [Unknown] else []) + [Remaining(seconds / 60, seconds % 60)]
  }

  /** Within the maximum and at a non-zero speed, the last field is the time
    * the remaining items take at that speed, rounded down to a second, with
    * the seconds under 60. */
  lemma EtaEstimates(maxProgress: nat, totalProgress: nat, totalSpeed: nat)
    requires totalProgress <= maxProgress < WORD && totalSpeed > 0
    ensures var last := EtaShown(maxProgress, totalProgress, totalSpeed)[|EtaShown(maxProgress, totalProgress, totalSpeed)| - 1];
      last.Remaining? && last.seconds < 60 &&
      (last.minutes * 60 + last.seconds) * totalSpeed <= maxProgress - totalProgress < (last.minutes * 60 + last.seconds + 1) * totalSpeed
  {
    var seconds := (maxProgress - totalProgress) / totalSpeed;
    DivBounds(maxProgress - totalProgress, totalSpeed);
    DivBounds(seconds, 60);
    assert seconds / 60 * 60 + seconds % 60 == seconds;
  }

  /** At the maximum, the ETA is zero. */
  lemma EtaAtMaximum(maxProgress: nat, totalSpeed: nat)
    requires maxProgress < WORD && totalSpeed > 0
    ensures EtaShown(maxProgress, maxProgress, totalSpeed) == [Remaining(0, 0)]
  {
  }

  /** The decomposition stage starts the report with `tableSize - 1` and
    * registers `tableSize` items: after the last one the subtraction wraps,
    * so both the placeholder and a huge time are shown, and the bar and
    * percentage run past their maximum. */
  lemma LastItemOverrunsMaximum()
    ensures EtaShown(9, 10, 1) == [Unknown, Remaining((WORD - 1) / 60, (WORD - 1) % 60)]
    ensures Filled(10, 9, BAR_LENGTH) == 44 && Percent(10, 9) == 111
  {
  }

  // ----- counter arrays ----------------------------------------------------

  /** `sumProgress` / `sumIterations`: the sum of one counter array. */
  method SumArray(a: array<nat>) returns (total: nat)
    ensures total == Sum(a[..])
  {
    total := 0;
    for i := 0 to a.Length
      invariant total == Sum(a[..i])
    {
      assert a[..i + 1][..i] == a[..i];
      total := total + a[i];
    }
    assert a[..a.Length] == a[..];
  }

  /** `clearArray`: zeroes every counter. */
  method ClearArray(a: array<nat>)
    modifies a
    ensures forall k :: 0 <= k < a.Length ==> a[k] == 0
  {
    for i := 0 to a.Length
      invariant forall k :: 0 <= k < i ==> a[k] == 0
    {
      a[i] := 0;
    }
  }

  /** Bumping one counter raises the sum by one. */
  lemma {:induction false} SumIncrement(s: seq<nat>, id: nat)
    requires id < |s|
    ensures Sum(s[id := s[id] + 1]) == Sum(s) + 1
    decreases |s|
  {
    var t := s[id := s[id] + 1];
    assert t[..|t| - 1] == if id < |s| - 1 then s[..|s| - 1][id := s[id] + 1] else s[..|s| - 1];
    if id < |s| - 1 {
      SumIncrement(s[..|s| - 1], id);
    }
  }

  lemma {:induction false} SumZeros(s: seq<nat>)
    requires forall k :: 0 <= k < |s| ==> s[k] == 0
    ensures Sum(s) == 0
    decreases |s|
  {
    if s != [] {
      SumZeros(s[..|s| - 1]);
    }
  }

  /** The memory-efficient reporter's file-scope state. Before
    * `initProgressReporter` the counter arrays are empty and every call but
    * the initialisation does nothing. */
  class GuardedReporter {
    var initialized: bool
    var status: Status
    var maxProgress: nat
    var iterations: array<nat>
    var progress: array<nat>

    ghost predicate Valid()
      reads this
    {
      iterations != progress && iterations.Length == progress.Length
    }

    /** `s_threadCount`. */
    function ThreadCount(): nat
      reads this
    {
      progress.Length
    }

    /** The program's starting state: nothing initialised. */
    constructor ()
      ensures Valid() && !initialized && status == Wait && maxProgress == 0 && ThreadCount() == 0
    {
      initialized := false;
      status := Wait;
      maxProgress := 0;
      iterations := new nat[0];
      progress := new nat[0];
    }

    /** `initProgressReporter`: takes effect only the first time; it
      * allocates zeroed counters for `threadCount` threads and sets WAIT. */
    method Init(threadCount: nat)
      requires Valid()
      modifies this
      ensures Valid() && initialized && maxProgress == old(maxProgress)
      ensures old(initialized) ==> status == old(status) && iterations == old(iterations) && progress == old(progress)
      ensures !old(initialized) ==> status == Wait && ThreadCount() == threadCount && fresh(iterations) && fresh(progress)
      ensures !old(initialized) ==> forall k :: 0 <= k < threadCount ==> iterations[k] == 0 && progress[k] == 0
    {
      if initialized {
        return;
      }
      initialized := true;
      status := Wait;
      iterations := new nat[threadCount](_ => 0);
      progress := new nat[threadCount](_ => 0);
    }

    /** `startProgressReport`: sets the maximum, zeroes both counter arrays
      * and sets RUN, once initialised. */
    method Start(max: nat)
      requires Valid()
      modifies this, iterations, progress
      ensures Valid() && iterations == old(iterations) && progress == old(progress) && initialized == old(initialized)
      ensures old(initialized) ==> maxProgress == max && status == Run
      ensures old(initialized) ==> forall k :: 0 <= k < ThreadCount() ==> iterations[k] == 0 && progress[k] == 0
      ensures !old(initialized) ==> maxProgress == old(maxProgress) && status == old(status)
      ensures !old(initialized) ==> iterations[..] == old(iterations[..]) && progress[..] == old(progress[..])
    {
      if !initialized {
        return;
      }
      maxProgress := max;
      ClearArray(progress);
      ClearArray(iterations);
      status := Run;
    }

    /** `stopProgressReport`: sets WAIT, once initialised. */
    method Stop()
      modifies this`status
      ensures status == if initialized then Wait else old(status)
    {
      if initialized {
        status := Wait;
      }
    }

    /** `registerProgress`: bumps slot `id` of both arrays and no other slot,
      * once initialised; the progress total grows by one. */
    method Register(id: nat)
      requires Valid() && (initialized ==> id < ThreadCount())
      modifies iterations, progress
      ensures initialized ==> iterations[..] == old(iterations[..])[id := old(iterations[id]) + 1]
      ensures initialized ==> progress[..] == old(progress[..])[id := old(progress[id]) + 1]
      ensures initialized ==> Sum(progress[..]) == Sum(old(progress[..])) + 1
      ensures !initialized ==> iterations[..] == old(iterations[..]) && progress[..] == old(progress[..])
    {
      if !initialized {
        return;
      }
      iterations[id] := iterations[id] + 1;
      progress[id] := progress[id] + 1;
      SumIncrement(old(progress[..]), id);
    }

    /** One round of the reporter's inner loop while RUN: after printing it
      * zeroes the per-interval `iterations` and keeps `progress`. */
    method Tick()
      requires Valid()
      modifies iterations
      ensures status == Run ==> forall k :: 0 <= k < ThreadCount() ==> iterations[k] == 0
      ensures status != Run ==> iterations[..] == old(iterations[..])
    {
      if status == Run {
        ClearArray(iterations);
      }
    }

    /** `shutdownProgressReporter`: sets EXIT, once initialised. */
    method Shutdown()
      modifies this`status
      ensures status == if initialized then Exit else old(status)
    {
      if initialized {
        status := Exit;
      }
    }
  }

  /** The threaded reporter's file-scope state, from `initProgressReporter`
    * on (before it the counter arrays are null). */
  class Reporter {
    var status: Status
    var maxProgress: nat
    var iterations: array<nat>
    var progress: array<nat>

    ghost predicate Valid()
      reads this
    {
      iterations != progress && iterations.Length == progress.Length
    }

    /** `s_threadCount`. */
    function ThreadCount(): nat
      reads this
    {
      progress.Length
    }

    /** `initProgressReporter`: zeroed counters for `threadCount` threads;
      * status and maximum keep their static values 0. */
    constructor (threadCount: nat)
      ensures Valid() && ThreadCount() == threadCount && status == Wait && maxProgress == 0
      ensures fresh(iterations) && fresh(progress)
      ensures forall k :: 0 <= k < threadCount ==> iterations[k] == 0 && progress[k] == 0
    {
      status := Wait;
      maxProgress := 0;
      iterations := new nat[threadCount](_ => 0);
      progress := new nat[threadCount](_ => 0);
    }

    /** `startProgressReport`: sets the maximum, zeroes both counter arrays
      * and sets status 1. */
    method Start(max: nat)
      requires Valid()
      modifies this, iterations, progress
      ensures Valid() && iterations == old(iterations) && progress == old(progress)
      ensures maxProgress == max && status == Run
      ensures forall k :: 0 <= k < ThreadCount() ==> iterations[k] == 0 && progress[k] == 0
    {
      maxProgress := max;
      ClearArray(progress);
      ClearArray(iterations);
      status := Run;
    }

    /** `stopProgressReport`: sets status 0. */
    method Stop()
      modifies this`status
      ensures status == Wait
    {
      status := Wait;
    }

    /** `registerProgress`: bumps slot `id` of both arrays and no other slot;
      * the progress total grows by one. */
    method Register(id: nat)
      requires Valid() && id < ThreadCount()
      modifies iterations, progress
      ensures iterations[..] == old(iterations[..])[id := old(iterations[id]) + 1]
      ensures progress[..] == old(progress[..])[id := old(progress[id]) + 1]
      ensures Sum(progress[..]) == Sum(old(progress[..])) + 1
    {
      iterations[id] := iterations[id] + 1;
      progress[id] := progress[id] + 1;
      SumIncrement(old(progress[..]), id);
    }

    /** One round of the reporter's inner loop while status is 1: zeroes
      * `iterations`, keeps `progress`. */
    method Tick()
      requires Valid()
      modifies iterations
      ensures status == Run ==> forall k :: 0 <= k < ThreadCount() ==> iterations[k] == 0
      ensures status != Run ==> iterations[..] == old(iterations[..])
    {
      if status == Run {
        ClearArray(iterations);
      }
    }

    /** `shutdownProgressReporter`: sets status 2. */
    method Shutdown()
      modifies this`status
      ensures status == Exit
    {
      status := Exit;
    }
  }

  /** The basic variant's single-threaded counters. */
  class BasicReporter {
    var iterCount: nat
    var progress: nat
    var maxProgress: nat
    var status: Status

    constructor ()
      ensures iterCount == 0 && progress == 0 && maxProgress == 0 && status == Wait
    {
      iterCount, progress, maxProgress, status := 0, 0, 0, Wait;
    }

    /** `startProgressReport`: sets the maximum, zeroes `progress` (but not
      * `iterCount`) and sets status 1. */
    method Start(max: nat)
      modifies this
      ensures maxProgress == max && progress == 0 && status == Run && iterCount == old(iterCount)
    {
      maxProgress := max;
      progress := 0;
      status := Run;
    }

    /** `stopProgressReport`: sets status 0. */
    method Stop()
      modifies this`status
      ensures status == Wait
    {
      status := Wait;
    }

    /** `registerProgress`: bumps both counters. */
    method Register()
      modifies this`iterCount, this`progress
      ensures iterCount == old(iterCount) + 1 && progress == old(progress) + 1
    {
      iterCount := iterCount + 1;
      progress := progress + 1;
    }

    /** One round of the reporter's inner loop while status is 1: zeroes
      * `iterCount`, keeps `progress`. */
    method Tick()
      modifies this`iterCount
      ensures iterCount == if status == Run then 0 else old(iterCount)
    {
      if status == Run {
        iterCount := 0;
      }
    }

    /** `main`'s shutdown of the reporter: sets status 2. */
    method Shutdown()
      modifies this`status
      ensures status == Exit
    {
      status := Exit;
    }
  }
}
