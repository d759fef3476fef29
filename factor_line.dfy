/** The text of one output line: the number, then " = " before the first
  * counted prime and " * " before each later one, each prime followed by
  * "^count" when its count exceeds one, and a newline. All three variants
  * print this layout. */
module FactorLine {
  import opened NumberTheory

  predicate IsDigit(c: char) { '0' <= c <= '9' }

  predicate IsDigits(s: string) { forall i :: 0 <= i < |s| ==> IsDigit(s[i]) }

  function DigitChar(d: nat): (c: char)
    requires d < 10
    ensures IsDigit(c)
  {
    (48 + d) as char
  }

  function DigitValue(c: char): nat
    requires IsDigit(c)
  {
    c as int - 48
  }

  /** `%zu`: the decimal digits of n, most significant first. */
  function Decimal(n: nat): (s: string)
    ensures |s| >= 1 && IsDigits(s)
    ensures s[0] == '0' <==> n == 0
    decreases n
  {
    if n < 10 then [DigitChar(n)] else Decimal(n / 10) + [DigitChar(n % 10)]
  }

  /** Reads a string of decimal digits back. */
  function ParseDecimal(s: string): nat
    requires IsDigits(s)
  {
    if s == [] then 0 else ParseDecimal(s[..|s| - 1]) * 10 + DigitValue(s[|s| - 1])
  }

  /** Printing a number and reading it back gives the number. */
  lemma {:induction false} DecimalRoundTrip(n: nat)
    ensures ParseDecimal(Decimal(n)) == n
    decreases n
  {
    if n >= 10 {
      DecimalRoundTrip(n / 10);
      var s := Decimal(n);
      assert s[..|s| - 1] == Decimal(n / 10);
    }
  }

  /** Different numbers print differently. */
  lemma DecimalInjective(m: nat, n: nat)
    requires Decimal(m) == Decimal(n)
    ensures m == n
  {
    DecimalRoundTrip(m);
    DecimalRoundTrip(n);
  }

  /** One counted prime: its separator, the prime and, above one, its count. */
  function Term(p: nat, c: nat, first: bool): string
  {
    (if first then " = " else " * ") + Decimal(p) + (if c > 1 then "^" + Decimal(c) else "")
  }

  predicate NoneCounted(es: seq<nat>) { forall k :: 0 <= k < |es| ==> es[k] == 0 }

  /** The terms for the primes `ps` with counts `es`, in order; a prime with
    * count 0 contributes nothing. */
  function Terms(ps: seq<nat>, es: seq<nat>): string
    requires |ps| == |es|
    decreases |ps|
  {
    if |ps| == 0 then ""
    else
      var n := |ps| - 1;
      Terms(ps[..n], es[..n]) + (if es[n] > 0 then Term(ps[n], es[n], NoneCounted(es[..n])) else "")
  }

  /** The whole line for `number`. */
  function Line(number: nat, ps: seq<nat>, es: seq<nat>): string
    requires |ps| == |es|
  {
    Decimal(number) + Terms(ps, es) + "\n"
  }

  lemma Associative<T>(a: seq<T>, b: seq<T>, c: seq<T>)
    ensures (a + b) + c == a + (b + c)
  {
  }

  /** Terms grow one table entry at a time. */
  lemma TermsStep(ps: seq<nat>, es: seq<nat>, j: nat)
    requires |ps| == |es| && j < |ps|
    ensures Terms(ps[..j + 1], es[..j + 1]) ==
      Terms(ps[..j], es[..j]) + (if es[j] > 0 then Term(ps[j], es[j], NoneCounted(es[..j])) else "")
  {
    assert ps[..j + 1][..j] == ps[..j] && es[..j + 1][..j] == es[..j];
  }

  lemma NoneCountedStep(es: seq<nat>, j: nat)
    requires j < |es|
    ensures NoneCounted(es[..j + 1]) <==> NoneCounted(es[..j]) && es[j] == 0
  {
    var a, b := es[..j], es[..j + 1];
    assert forall k :: 0 <= k < j ==> a[k] == b[k];
    assert b[j] == es[j];
  }

  /** No counted prime: the line is the bare number. */
  lemma {:induction false} TermsOfNothing(ps: seq<nat>, es: seq<nat>)
    requires |ps| == |es| && NoneCounted(es)
    ensures Terms(ps, es) == ""
    decreases |ps|
  {
    if |ps| > 0 {
      TermsOfNothing(ps[..|ps| - 1], es[..|es| - 1]);
    }
  }

  /** The entries with a positive count, in order. */
  function Counted(ps: seq<nat>, es: seq<nat>): (r: (seq<nat>, seq<nat>))
    requires |ps| == |es|
    ensures |r.0| == |r.1| && forall k :: 0 <= k < |r.1| ==> r.1[k] > 0
    decreases |ps|
  {
    if |ps| == 0 then ([], [])
    else
      var n := |ps| - 1;
      var r := Counted(ps[..n], es[..n]);
      if es[n] > 0 then (r.0 + [ps[n]], r.1 + [es[n]]) else r
  }

  lemma {:induction false} CountedEmpty(ps: seq<nat>, es: seq<nat>)
    requires |ps| == |es|
    ensures Counted(ps, es).1 == [] <==> NoneCounted(es)
    decreases |ps|
  {
    if |ps| > 0 {
      var n := |ps| - 1;
      CountedEmpty(ps[..n], es[..n]);
      if es[n] > 0 {
        assert !NoneCounted(es);
      } else {
        assert NoneCounted(es) <==> NoneCounted(es[..n]) by {
          if NoneCounted(es[..n]) {
            forall k | 0 <= k < |es| ensures es[k] == 0 { if k < n { assert es[..n][k] == es[k]; } }
          }
        }
      }
    }
  }

  /** Dropping the zero counts leaves the terms unchanged: a list holding
    * only the counted primes prints the same line as the whole table. */
  lemma {:induction false} TermsOfCounted(ps: seq<nat>, es: seq<nat>)
    requires |ps| == |es|
    ensures Terms(Counted(ps, es).0, Counted(ps, es).1) == Terms(ps, es)
    decreases |ps|
  {
    if |ps| > 0 {
      var n := |ps| - 1;
      TermsOfCounted(ps[..n], es[..n]);
      CountedStep(ps[..n], es[..n], ps[n], es[n]);
      SplitLast(ps);
      SplitLast(es);
    }
  }

  /** One more table entry adds the same term to both sides. */
  lemma CountedStep(ps: seq<nat>, es: seq<nat>, p: nat, e: nat)
    requires |ps| == |es|
    requires Terms(Counted(ps, es).0, Counted(ps, es).1) == Terms(ps, es)
    ensures Terms(Counted(ps + [p], es + [e]).0, Counted(ps + [p], es + [e]).1) == Terms(ps + [p], es + [e])
  {
    var r := Counted(ps, es);
    CountedSnoc(ps, es, p, e);
    TermsSnoc(ps, es, p, e);
    if e > 0 {
      CountedFirst(ps, es);
      TermsSnoc(r.0, r.1, p, e);
    }
  }

  lemma SplitLast<T>(s: seq<T>)
    requires |s| > 0
    ensures s[..|s| - 1] + [s[|s| - 1]] == s
  {
  }

  /** One more entry is kept when it is counted. */
  lemma CountedSnoc(ps: seq<nat>, es: seq<nat>, p: nat, e: nat)
    requires |ps| == |es|
    ensures Counted(ps + [p], es + [e]) ==
      if e > 0 then (Counted(ps, es).0 + [p], Counted(ps, es).1 + [e]) else Counted(ps, es)
  {
    assert (ps + [p])[..|ps|] == ps && (es + [e])[..|es|] == es;
  }

  /** One more entry adds its term, if it is counted. */
  lemma TermsSnoc(ps: seq<nat>, es: seq<nat>, p: nat, e: nat)
    requires |ps| == |es|
    ensures Terms(ps + [p], es + [e]) == Terms(ps, es) + (if e > 0 then Term(p, e, NoneCounted(es)) else "")
  {
    assert (ps + [p])[..|ps|] == ps && (es + [e])[..|es|] == es;
  }

  /** The counted entries are empty exactly when none is counted. */
  lemma CountedFirst(ps: seq<nat>, es: seq<nat>)
    requires |ps| == |es|
    ensures NoneCounted(Counted(ps, es).1) == NoneCounted(es)
  {
    var r := Counted(ps, es);
    CountedEmpty(ps, es);
    if r.1 != [] {
      assert r.1[0] > 0;
    }
  }

  lemma TermsOfTwelve()
    ensures Terms([2, 3], [2, 1]) == " = 2^2 * 3"
  {
    TermsSnoc([2], [2], 3, 1);
    assert [2] + [3] == [2, 3] && [2] + [1] == [2, 1];
    assert !NoneCounted([2]) by { assert [2][0] == 2; }
    TermsOfTwo();
    TermOfThree();
  }

  /** The terms of 4 over [2]. */
  lemma TermsOfTwo()
    ensures Terms([2], [2]) == " = 2^2"
  {
    TermsSnoc([], [], 2, 2);
    assert [] + [2] == [2];
    TermOfTwoSquared();
  }

  /** The first term of 12. */
  lemma TermOfTwoSquared()
    ensures Term(2, 2, true) == " = 2^2"
  {
    assert Decimal(2) == "2";
  }

  /** The second term of 12. */
  lemma TermOfThree()
    ensures Term(3, 1, false) == " * 3"
  {
    assert Decimal(3) == "3";
  }

  /** 12 = 2^2 * 3. */
  lemma LineOfTwelve()
    ensures Line(12, [2, 3, 5], [2, 1, 0]) == "12 = 2^2 * 3\n"
  {
    DecimalOfTwelve();
    TermsOfTwelveOverFive();
    LineOf(12, [2, 3, 5], [2, 1, 0], "12", " = 2^2 * 3");
  }

  /** A line is assembled from its number's digits and its terms. */
  lemma LineOf(number: nat, ps: seq<nat>, es: seq<nat>, digits: string, terms: string)
    requires |ps| == |es| && Decimal(number) == digits && Terms(ps, es) == terms
    ensures Line(number, ps, es) == digits + terms + "\n"
  {
  }

  /** 5 is not counted in 12, so it adds no term. */
  lemma TermsOfTwelveOverFive()
    ensures Terms([2, 3, 5], [2, 1, 0]) == " = 2^2 * 3"
  {
    TermsSnoc([2, 3], [2, 1], 5, 0);
    assert [2, 3] + [5] == [2, 3, 5] && [2, 1] + [0] == [2, 1, 0];
    TermsOfTwelve();
  }

  lemma DecimalOfTwelve()
    ensures Decimal(12) == "12"
  {
    assert Decimal(12) == Decimal(1) + [DigitChar(2)];
  }

  /** A prime is written as its own factor. */
  lemma LineOfSeven()
    ensures Line(7, [2, 3, 5, 7], [0, 0, 0, 1]) == "7 = 7\n"
  {
    var ps, es := [2, 3, 5, 7], [0, 0, 0, 1];
    assert ps[..3] == [2, 3, 5] && es[..3] == [0, 0, 0];
    TermsOfNothing([2, 3, 5], [0, 0, 0]);
    assert Decimal(7) == "7";
    assert Term(7, 1, true) == " = 7";
  }

  /** Counts that are zero from index n on add nothing after the first n. */
  lemma {:induction false} TermsZeroTail(ps: seq<nat>, es: seq<nat>, n: nat)
    requires |ps| == |es| && n <= |ps|
    requires forall k :: n <= k < |es| ==> es[k] == 0
    ensures Terms(ps, es) == Terms(ps[..n], es[..n])
    decreases |ps|
  {
    var m := |ps| - 1;
    if n <= m {
      TermsZeroTail(ps[..m], es[..m], n);
      assert ps[..m][..n] == ps[..n] && es[..m][..n] == es[..n];
    } else {
      assert ps[..n] == ps && es[..n] == es;
    }
  }

  /** The output file for the numbers of [lo, hi), one line each, factored
    * over table t. */
  function Lines(t: seq<nat>, lo: nat, hi: nat): (r: seq<string>)
    ensures |r| == if lo <= hi then hi - lo else 0
  {
    seq(if lo <= hi then hi - lo else 0, k requires 0 <= k => Line(lo + k, t, Exponents(t, lo + k)))
  }

  /** Two adjacent stretches of numbers give the file for both. */
  lemma LinesSplit(t: seq<nat>, lo: nat, mid: nat, hi: nat)
    requires lo <= mid <= hi
    ensures Lines(t, lo, mid) + Lines(t, mid, hi) == Lines(t, lo, hi)
  {
  }

  /** The file for [lo, hi + 1) is the file for [lo, hi) and the line of hi. */
  lemma LinesSnoc(t: seq<nat>, lo: nat, hi: nat)
    requires lo <= hi
    ensures Lines(t, lo, hi + 1) == Lines(t, lo, hi) + [Line(hi, t, Exponents(t, hi))]
  {
  }
}
