/** The memory-efficient variant's test harness: the suffix filter that picks
  * test functions by name, and the buffer of assertion failures that a test
  * run collects. */
module TestHarness {
  import opened CText
  import opened DynamicArray
  import opened Machine

  predicate IsSuffix(e: seq<char>, s: seq<char>) { |e| <= |s| && s[|s| - |e|..] == e }

  lemma SliceCons(x: seq<char>, k: nat)
    requires k < |x|
    ensures x[k..] == [x[k]] + x[k + 1..]
  {
  }

  /** `endsWith`: compares from the last characters backwards with unsigned
    * indices; the loop ends when the index into `end` wraps below zero,
    * which also makes an empty `end` match at once. */
  method EndsWith(str: seq<char>, end: seq<char>) returns (r: bool)
    requires Terminated(str) && Terminated(end)
    requires |str| < WORD && |end| < WORD
    ensures r <==> IsSuffix(Text(end), Text(str))
  {
    var lenStr := StrLen(str);
    var lenEnd := StrLen(end);
    ghost var s, e := Text(str), Text(end);
    if lenStr < lenEnd {
      return false;
    }
    var j := Decrement(lenStr);
    var i := Decrement(lenEnd);
    ghost var m := 0;
    while i < lenEnd && j < lenStr
      invariant m <= lenEnd
      invariant i == if m == lenEnd then WORD - 1 else lenEnd - 1 - m
      invariant j == if m == lenStr then WORD - 1 else lenStr - 1 - m
      invariant s[lenStr - m..] == e[lenEnd - m..]
      decreases lenEnd - m
    {
      if str[j] != end[i] {
        assert s[lenStr - lenEnd..][lenEnd - 1 - m] != e[lenEnd - 1 - m];
        return false;
      }
      SliceCons(s, j);
      SliceCons(e, i);
      j := Decrement(j);
      i := Decrement(i);
      m := m + 1;
    }
    assert m == lenEnd;
    r := i >= lenEnd;
    assert e[lenEnd - m..] == e;
  }

  /** One failed assertion as the test macros report it. */
  datatype AssertFail = AssertFail(expression: string, message: string, filename: string, line: int)

  /** `sizeof(AssertFail)` on a 64-bit target: three pointers and an `int`,
    * padded to a multiple of 8 bytes. */
  const ASSERT_FAIL_SIZE: nat := 32

  /** The failures buffer of one test session. */
  class TestSession {
    var failures: DArray<AssertFail>

    ghost predicate Valid()
      reads this, failures
    {
      failures.Valid()
    }

    constructor (blank: AssertFail)
      ensures Valid() && fresh(failures) && failures.Elements() == []
    {
      failures := new DArray<AssertFail>.Create(4, ASSERT_FAIL_SIZE, blank);
    }

    /** `reportAssertFail`: appends exactly one record and keeps the earlier
      * ones. */
    method ReportAssertFail(expression: string, message: string, filename: string, line: int)
      requires Valid()
      modifies failures
      ensures Valid()
      ensures failures.Elements() == old(failures.Elements()) + [AssertFail(expression, message, filename, line)]
    {
      var failure := AssertFail(expression, message, filename, line);
      failures.Add(failure);
    }

    /** `runTest`: empties the buffer, runs the test (which reports the
      * failures in `reports`, in order) and returns 0; `failed` says whether
      * the "Test has failed" message is printed. */
    method RunTest(reports: seq<AssertFail>) returns (status: int, failed: bool)
      requires Valid()
      modifies failures
      ensures Valid() && failures.Elements() == reports
      ensures status == 0 && (failed <==> |reports| > 0)
    {
      failures.Clear();
      var n := 0;
      while n < |reports|
        invariant n <= |reports| && Valid()
        invariant failures.Elements() == reports[..n]
      {
        var f := reports[n];
        ReportAssertFail(f.expression, f.message, f.filename, f.line);
        assert reports[..n + 1] == reports[..n] + [f];
        n := n + 1;
      }
      failed := failures.Length() > 0;
      status := 0;
    }
  }
}
