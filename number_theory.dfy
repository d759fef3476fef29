/** Arithmetic shared by every variant: primality, powers, divisibility,
    Euclid's lemma, Fermat's little theorem for base 2, tables of primes
    and the product of a factor list. */
module NumberTheory {

  /** n is prime: at least 2 and divisible by nothing strictly between 1 and n. */
  predicate IsPrime(n: nat) {
    n >= 2 && forall d :: 2 <= d < n ==> n % d != 0
  }

  function Pow(b: nat, e: nat): nat
    decreases e
  {
    if e == 0 then 1 else b * Pow(b, e - 1)
  }

  // ----- divisibility -------------------------------------------------------

  lemma MulMod(c: nat, k: nat)
    requires c > 0
    ensures (c * k) % c == 0 && (c * k) / c == k
  {
    DivModUnique(c * k, c, k, 0);
  }

  /** Division and remainder are determined by any decomposition a == c*q + r with r < c. */
  lemma DivModUnique(a: nat, c: nat, q: nat, r: nat)
    requires c > 0 && r < c && a == c * q + r
    ensures a / c == q && a % c == r
  {
    var q', r' := a / c, a % c;
    assert a == c * q' + r';
    if q' < q {
      assert c * q' + c <= c * q by { MulLe(c, q' + 1, q); }
    } else if q' > q {
      assert c * q + c <= c * q' by { MulLe(c, q + 1, q'); }
    }
  }

  /** A number below the modulus is its own remainder. */
  lemma ModSmall(x: nat, m: nat)
    requires x < m
    ensures x % m == x && x / m == 0
  {
    DivModUnique(x, m, 0, x);
  }

  lemma MulLe(c: nat, a: nat, b: nat)
    requires a <= b
    ensures c * a <= c * b
  {
  }

  /** A divisor of a divisor divides. */
  lemma DivTrans(a: nat, b: nat, c: nat)
    requires b > 0 && c > 0 && a % b == 0 && b % c == 0
    ensures a % c == 0
  {
    var x, y := a / b, b / c;
    assert a == b * x;
    assert b == c * y;
    assert a == c * (y * x);
    MulMod(c, y * x);
  }

  /** Subtracting a multiple of p keeps divisibility by p. */
  lemma ModSubMultiple(x: nat, p: nat, k: nat)
    requires p > 0 && x % p == 0 && p * k <= x
    ensures (x - p * k) % p == 0
  {
    var m := x / p;
    assert x == p * m;
    assert x - p * k == p * (m - k);
    MulMod(p, m - k);
  }

  // ----- the least divisor --------------------------------------------------

  /** The least divisor of n that is at least d, given that none below d divides n. */
  function LeastFactorFrom(n: nat, d: nat): (q: nat)
    requires 2 <= d <= n
    requires forall k :: 2 <= k < d ==> n % k != 0
    ensures d <= q <= n && n % q == 0
    ensures forall k :: 2 <= k < q ==> n % k != 0
    decreases n - d
  {
    if n % d == 0 then d
    else
      MulMod(n, 1);
      assert d < n;
      assert forall k :: 2 <= k < d + 1 ==> n % k != 0;
      LeastFactorFrom(n, d + 1)
  }

  /** The least divisor of n above 1. */
  function LeastFactor(n: nat): (q: nat)
    requires n >= 2
    ensures 2 <= q <= n && n % q == 0
    ensures forall k :: 2 <= k < q ==> n % k != 0
  {
    LeastFactorFrom(n, 2)
  }

  /** The least divisor of n is prime, and for a composite n its square is at most n. */
  lemma LeastFactorIsPrime(n: nat)
    requires n >= 2
    ensures IsPrime(LeastFactor(n))
    ensures !IsPrime(n) ==> LeastFactor(n) * LeastFactor(n) <= n
  {
    var q := LeastFactor(n);
    forall d | 2 <= d < q
      ensures q % d != 0
    {
      if q % d == 0 {
        DivTrans(n, q, d);
      }
    }
    if !IsPrime(n) {
      LeastFactorSquare(n, q);
    }
  }

  /** If q is the least divisor of a composite n, then q * q <= n. */
  lemma LeastFactorSquare(n: nat, q: nat)
    requires 2 <= q < n && n % q == 0
    requires forall k :: 2 <= k < q ==> n % k != 0
    ensures q * q <= n
  {
    var m := n / q;
    assert n == q * m;
    assert m >= 2;
    assert n % m == 0 by { MulMod(m, q); assert n == m * q; }
    assert m < n by {
      if m >= n { MulLe(q, n, m); MulLe(n, 2, q); }
    }
    assert m >= q;
    MulLe(q, q, m);
  }

  /** A composite n >= 2 has a prime divisor whose square is at most n. */
  lemma CompositeHasSmallPrimeFactor(n: nat)
    requires n >= 2 && !IsPrime(n)
    ensures exists q: nat :: IsPrime(q) && q * q <= n && n % q == 0
  {
    LeastFactorIsPrime(n);
    var q := LeastFactor(n);
    assert IsPrime(q) && q * q <= n && n % q == 0;
  }

  /** Any n >= 2 has a prime divisor. */
  lemma HasPrimeFactor(n: nat)
    requires n >= 2
    ensures exists q: nat :: IsPrime(q) && n % q == 0
  {
    LeastFactorIsPrime(n);
    var q := LeastFactor(n);
    assert IsPrime(q) && n % q == 0;
  }

  // ----- Euclid's lemma -----------------------------------------------------

  /** (x + y) * z == x * z + y * z, and the product reassociates. */
  lemma Distrib(x: nat, y: nat, z: nat)
    ensures (x + y) * z == x * z + y * z
  {
  }

  /** Reducing one factor modulo p keeps a product's divisibility by p. */
  lemma ReduceFactor(p: nat, a: nat, b: nat)
    requires p > 0 && (a * b) % p == 0
    ensures ((a % p) * b) % p == 0
  {
    var q, r := a / p, a % p;
    assert a == p * q + r;
    Distrib(p * q, r, b);
    assert (p * q) * b == p * (q * b);
    assert a * b == p * (q * b) + r * b;
    ModSubMultiple(a * b, p, q * b);
  }

  lemma SwapIdentity(p: nat, a: nat, t: nat, s: nat, b: nat, m: nat)
    requires p == a * t + s && a * b == p * m
    ensures p * b == p * (t * m) + s * b
  {
    calc {
      p * b;
      (a * t + s) * b;
      (a * t) * b + s * b;
      t * (a * b) + s * b;
      t * (p * m) + s * b;
      p * (t * m) + s * b;
    }
  }

  /** For a > 0 and p dividing a * b: p also divides (p % a) * b. */
  lemma SwapFactor(p: nat, a: nat, b: nat)
    requires 0 < a && p > 0 && (a * b) % p == 0
    ensures ((p % a) * b) % p == 0
  {
    var s, t := p % a, p / a;
    var m := (a * b) / p;
    SwapIdentity(p, a, t, s, b, m);
    MulMod(p, b);
    ModSubMultiple(p * b, p, t * m);
  }

  /** A prime dividing a product divides one of its factors. */
  lemma {:induction false} Euclid(p: nat, a: nat, b: nat)
    requires IsPrime(p) && (a * b) % p == 0
    ensures a % p == 0 || b % p == 0
    decreases a
  {
    if a % p == 0 {
      return;
    }
    if a % p < a {
      ReduceFactor(p, a, b);
      Euclid(p, a % p, b);
      ModSmall(a % p, p);
    } else if a == 1 {
      assert a * b == b;
    } else {
      // 2 <= a < p, so p % a is a smaller non-zero multiplier
      assert p % a != 0;
      SwapFactor(p, a, b);
      Euclid(p, p % a, b);
      ModSmall(p % a, p);
    }
  }

  // ----- powers -------------------------------------------------------------

  lemma {:induction false} PowAdd(b: nat, e1: nat, e2: nat)
    ensures Pow(b, e1 + e2) == Pow(b, e1) * Pow(b, e2)
    decreases e1
  {
    if e1 > 0 {
      PowAdd(b, e1 - 1, e2);
      assert Pow(b, e1 + e2) == b * Pow(b, e1 - 1 + e2);
    }
  }

  lemma {:induction false} PowSquare(b: nat, e: nat)
    ensures Pow(b * b, e) == Pow(b, 2 * e)
    decreases e
  {
    if e > 0 {
      PowSquare(b, e - 1);
      PowAdd(b, 2, 2 * e - 2);
      assert Pow(b, 2) == b * b;
    }
  }

  lemma PowPositive(b: nat, e: nat)
    requires b > 0
    ensures Pow(b, e) > 0
    decreases e
  {
    if e > 0 { PowPositive(b, e - 1); }
  }

  /** Adding a multiple of m does not change the remainder. */
  lemma ModAddMultiple(x: nat, m: nat, k: nat)
    requires m > 0
    ensures (m * k + x) % m == x % m
  {
    var q, r := x / m, x % m;
    assert m * k + x == m * (k + q) + r;
    DivModUnique(m * k + x, m, k + q, r);
  }

  lemma LeftIdentity(a: nat, m: nat, q: nat, r: nat, b: nat)
    requires a == m * q + r
    ensures a * b == m * (q * b) + r * b
  {
    calc {
      a * b;
      (m * q + r) * b;
      (m * q) * b + r * b;
      m * (q * b) + r * b;
    }
  }

  /** Reducing the left factor of a product modulo m. */
  lemma MulModLeft(a: nat, b: nat, m: nat)
    requires m > 0
    ensures (a * b) % m == ((a % m) * b) % m
  {
    LeftIdentity(a, m, a / m, a % m, b);
    ModAddMultiple((a % m) * b, m, (a / m) * b);
  }

  /** Reducing the right factor of a product modulo m. */
  lemma MulModRight(a: nat, b: nat, m: nat)
    requires m > 0
    ensures (a * b) % m == (a * (b % m)) % m
  {
    MulModLeft(b, a, m);
    assert a * b == b * a && (b % m) * a == a * (b % m);
  }

  lemma {:induction false} PowMod(b: nat, e: nat, m: nat)
    requires m > 0
    ensures Pow(b % m, e) % m == Pow(b, e) % m
    decreases e
  {
    if e > 0 {
      var x, y, z := b % m, Pow(b % m, e - 1), Pow(b, e - 1);
      PowMod(b, e - 1, m);
      assert y % m == z % m;
      MulModRight(x, y, m);
      MulModRight(x, z, m);
      assert (x * y) % m == (x * z) % m;
      MulModLeft(b, z, m);
      assert Pow(b % m, e) == x * y;
      assert Pow(b, e) == b * z;
    }
  }

  // ----- binomial coefficients and Fermat's little theorem for base 2 -------

  function Binom(n: nat, k: nat): nat
    decreases n, k
  {
    if k == 0 then 1 else if n == 0 then 0 else Binom(n - 1, k - 1) + Binom(n - 1, k)
  }

  /** Binom(n, 0) + ... + Binom(n, k - 1). */
  function BinomSum(n: nat, k: nat): nat
    decreases k
  {
    if k == 0 then 0 else BinomSum(n, k - 1) + Binom(n, k - 1)
  }

  lemma {:induction false} BinomAbove(n: nat, k: nat)
    requires k > n
    ensures Binom(n, k) == 0
    decreases n
  {
    if n > 0 {
      BinomAbove(n - 1, k - 1);
      BinomAbove(n - 1, k);
    }
  }

  lemma {:induction false} BinomDiagonal(n: nat)
    ensures Binom(n, n) == 1
    decreases n
  {
    if n > 0 {
      BinomDiagonal(n - 1);
      BinomAbove(n - 1, n);
    }
  }

  lemma {:induction false} BinomOne(n: nat)
    ensures Binom(n, 1) == n
    decreases n
  {
    if n > 0 { BinomOne(n - 1); }
  }

  /** Pascal's rule summed: the row-n+1 partial sum is two row-n partial sums. */
  lemma {:induction false} BinomSumPascal(n: nat, k: nat)
    ensures BinomSum(n + 1, k + 1) == BinomSum(n, k + 1) + BinomSum(n, k)
    decreases k
  {
    if k > 0 {
      BinomSumPascal(n, k - 1);
    }
  }

  /** The binomial theorem at x = y = 1. */
  lemma {:induction false} BinomRowSum(n: nat)
    ensures BinomSum(n, n + 1) == Pow(2, n)
    decreases n
  {
    if n > 0 {
      BinomRowSum(n - 1);
      BinomSumPascal(n - 1, n);
      BinomAbove(n - 1, n);
    }
  }

  /** k * C(n, k) == n * C(n - 1, k - 1). */
  lemma {:induction false} BinomAbsorb(n: nat, k: nat)
    requires n >= 1 && k >= 1
    ensures k * Binom(n, k) == n * Binom(n - 1, k - 1)
    decreases n
  {
    if k == 1 {
      BinomOne(n);
    } else if n == 1 {
      BinomAbove(1, k);
      BinomAbove(0, k - 1);
    } else {
      BinomAbsorb(n - 1, k - 1);
      BinomAbsorb(n - 1, k);
      AbsorbStep(n, k, Binom(n - 1, k - 1), Binom(n - 1, k), Binom(n - 2, k - 2), Binom(n - 2, k - 1));
    }
  }

  /** The arithmetic of one Pascal step of `BinomAbsorb`. */
  lemma AbsorbStep(n: int, k: int, a: int, b: int, c: int, d: int)
    requires a == c + d && (k - 1) * a == (n - 1) * c && k * b == (n - 1) * d
    ensures k * (a + b) == n * a
  {
    calc {
      k * (a + b);
      (k - 1) * a + a + k * b;
      (n - 1) * c + a + (n - 1) * d;
      (n - 1) * (c + d) + a;
      n * a;
    }
  }

  /** A prime divides every inner binomial coefficient of its row. */
  lemma BinomPrimeRow(p: nat, k: nat)
    requires IsPrime(p) && 0 < k < p
    ensures Binom(p, k) % p == 0
  {
    BinomAbsorb(p, k);
    MulMod(p, Binom(p - 1, k - 1));
    Euclid(p, k, Binom(p, k));
    ModSmall(k, p);
  }

  /** Row sums modulo p when the inner coefficients below k are multiples of p. */
  lemma {:induction false} BinomSumMod(p: nat, k: nat)
    requires p >= 2 && 1 <= k <= p
    requires forall i :: 1 <= i < k ==> Binom(p, i) % p == 0
    ensures BinomSum(p, k) % p == 1
    decreases k
  {
    if k == 1 {
      ModSmall(1, p);
    } else {
      BinomSumMod(p, k - 1);
      var x, y := BinomSum(p, k - 1), Binom(p, k - 1);
      assert y % p == 0;
      assert y == p * (y / p);
      ModAddMultiple(x, p, y / p);
      assert x + y == p * (y / p) + x;
    }
  }

  /** 2^p leaves remainder 2 modulo a prime p. */
  lemma Pow2Prime(p: nat)
    requires IsPrime(p)
    ensures Pow(2, p) == p * (BinomSum(p, p) / p) + 2
  {
    BinomRowSum(p);
    PrimeRowMod(p);
    BinomDiagonal(p);
    var x := BinomSum(p, p);
    assert x == p * (x / p) + 1;
    assert BinomSum(p, p + 1) == x + Binom(p, p);
  }

  /** The row of a prime p without its last entry sums to 1 modulo p. */
  lemma PrimeRowMod(p: nat)
    requires IsPrime(p)
    ensures BinomSum(p, p) % p == 1
  {
    forall i | 1 <= i < p
      ensures Binom(p, i) % p == 0
    {
      BinomPrimeRow(p, i);
    }
    BinomSumMod(p, p);
  }

  /** An odd prime dividing 2 * (t - 1) divides t - 1. */
  lemma CancelTwo(p: nat, t: nat, q: nat)
    requires IsPrime(p) && p != 2 && t >= 1 && 2 * t == p * q + 2
    ensures t % p == 1
  {
    assert 2 * (t - 1) == p * q;
    MulMod(p, q);
    Euclid(p, 2, t - 1);
    ModSmall(2, p);
    var m := (t - 1) / p;
    assert t == p * m + 1;
    DivModUnique(t, p, m, 1);
  }

  /** Fermat's little theorem for base 2 and an odd prime p. */
  lemma FermatBase2(p: nat)
    requires IsPrime(p) && p != 2
    ensures Pow(2, p - 1) % p == 1
  {
    Pow2Prime(p);
    PowPositive(2, p - 1);
    assert Pow(2, p) == 2 * Pow(2, p - 1);
    CancelTwo(p, Pow(2, p - 1), BinomSum(p, p) / p);
  }

  // ----- tables of primes ---------------------------------------------------

  /** The primes in [lo, hi), ascending. */
  function PrimesIn(lo: nat, hi: nat): seq<nat>
    decreases hi
  {
    if hi <= lo then [] else PrimesIn(lo, hi - 1) + (if IsPrime(hi - 1) then [hi - 1] else [])
  }

  predicate StrictlyIncreasing(s: seq<nat>) {
    forall i, j :: 0 <= i < j < |s| ==> s[i] < s[j]
  }

  /** PrimesIn holds exactly the primes of its range. */
  lemma {:induction false} PrimesInMembers(lo: nat, hi: nat)
    ensures forall x :: x in PrimesIn(lo, hi) <==> lo <= x < hi && IsPrime(x)
    decreases hi
  {
    if hi > lo {
      PrimesInMembers(lo, hi - 1);
    }
  }

  /** PrimesIn is ascending. */
  lemma {:induction false} PrimesInIncreasing(lo: nat, hi: nat)
    ensures StrictlyIncreasing(PrimesIn(lo, hi))
    decreases hi
  {
    if hi > lo {
      PrimesInIncreasing(lo, hi - 1);
      PrimesInMembers(lo, hi - 1);
      var s := PrimesIn(lo, hi - 1);
      forall i | 0 <= i < |s|
        ensures s[i] < hi - 1
      {
        assert s[i] in s;
      }
    }
  }

  /** PrimesIn has at most one entry per candidate. */
  lemma {:induction false} PrimesInLength(lo: nat, hi: nat)
    ensures lo <= hi ==> |PrimesIn(lo, hi)| <= hi - lo
    decreases hi
  {
    if hi > lo {
      PrimesInLength(lo, hi - 1);
    }
  }

  /** What PrimesIn holds: exactly the primes of the range, in ascending order. */
  lemma PrimesInSpec(lo: nat, hi: nat)
    ensures StrictlyIncreasing(PrimesIn(lo, hi))
    ensures forall x :: x in PrimesIn(lo, hi) <==> lo <= x < hi && IsPrime(x)
    ensures lo <= hi ==> |PrimesIn(lo, hi)| <= hi - lo
  {
    PrimesInMembers(lo, hi);
    PrimesInIncreasing(lo, hi);
    PrimesInLength(lo, hi);
  }

  /** Adjacent ranges concatenate. */
  lemma {:induction false} PrimesInSplit(lo: nat, mid: nat, hi: nat)
    requires lo <= mid <= hi
    ensures PrimesIn(lo, mid) + PrimesIn(mid, hi) == PrimesIn(lo, hi)
    decreases hi
  {
    if hi > mid {
      PrimesInSplit(lo, mid, hi - 1);
      var t := if IsPrime(hi - 1) then [hi - 1] else [];
      assert PrimesIn(lo, hi) == PrimesIn(lo, hi - 1) + t;
      assert PrimesIn(mid, hi) == PrimesIn(mid, hi - 1) + t;
    }
  }

  /** The primes below a limit. */
  function PrimesBelow(limit: nat): seq<nat> {
    PrimesIn(2, limit)
  }

  /** A table of primes that contains every prime below limit and nothing else, ascending. */
  predicate IsPrimeTable(t: seq<nat>, limit: nat) {
    StrictlyIncreasing(t)
    && (forall k :: 0 <= k < |t| ==> IsPrime(t[k]) && t[k] < limit)
    && (forall q :: 0 <= q < limit && IsPrime(q) ==> q in t)
  }

  lemma PrimesBelowIsTable(limit: nat)
    ensures IsPrimeTable(PrimesBelow(limit), limit)
  {
    PrimesInSpec(2, limit);
    var t := PrimesBelow(limit);
    forall k | 0 <= k < |t|
      ensures IsPrime(t[k]) && t[k] < limit
    {
      assert t[k] in t;
    }
  }

  /** In a table of all primes below a limit, a prime below t[j] sits before index j. */
  lemma TableBelow(t: seq<nat>, limit: nat, j: nat, q: nat)
    requires IsPrimeTable(t, limit) && j < |t| && IsPrime(q) && q < t[j]
    ensures exists k :: 0 <= k < j && t[k] == q
  {
    var k :| 0 <= k < |t| && t[k] == q;
  }

  // ----- factor lists -------------------------------------------------------

  /** ps[0]^es[0] * ... * ps[n-1]^es[n-1]. */
  function Prod(ps: seq<nat>, es: seq<nat>): nat
    requires |ps| == |es|
    decreases |ps|
  {
    if |ps| == 0 then 1 else Prod(ps[..|ps| - 1], es[..|es| - 1]) * Pow(ps[|ps| - 1], es[|es| - 1])
  }

  /** n counts, all zero. */
  function Zeros(n: nat): (z: seq<nat>)
    ensures |z| == n && forall k :: 0 <= k < n ==> z[k] == 0
  {
    seq(n, _ => 0)
  }

  /** Raising the exponent at index j by one multiplies the product by ps[j]. */
  lemma {:induction false} ProdIncrement(ps: seq<nat>, es: seq<nat>, j: nat)
    requires |ps| == |es| && j < |ps|
    ensures Prod(ps, es[j := es[j] + 1]) == Prod(ps, es) * ps[j]
    decreases |ps|
  {
    var n := |ps|;
    var es' := es[j := es[j] + 1];
    var rest, last := Prod(ps[..n - 1], es[..n - 1]), Pow(ps[n - 1], es[n - 1]);
    assert Prod(ps, es) == rest * last;
    if j == n - 1 {
      assert es'[..n - 1] == es[..n - 1];
      assert Pow(ps[n - 1], es'[n - 1]) == ps[j] * last;
      assert Prod(ps, es') == rest * (ps[j] * last);
    } else {
      ProdIncrement(ps[..n - 1], es[..n - 1], j);
      assert es'[..n - 1] == es[..n - 1][j := es[j] + 1];
      assert Prod(ps, es') == (rest * ps[j]) * last;
    }
    Rearrange(rest, last, ps[j]);
  }

  /** A reordering of a product of three. */
  lemma Rearrange(x: nat, y: nat, z: nat)
    ensures x * (z * y) == (x * y) * z && (x * z) * y == (x * y) * z
  {
  }

  /** Appending a pair multiplies the product by its power. */
  lemma ProdAppend(ps: seq<nat>, es: seq<nat>, p: nat, e: nat)
    requires |ps| == |es|
    ensures Prod(ps + [p], es + [e]) == Prod(ps, es) * Pow(p, e)
  {
    assert (ps + [p])[..|ps|] == ps;
    assert (es + [e])[..|es|] == es;
  }

  /** Exponents that are all zero give the empty product. */
  lemma {:induction false} ProdZeros(ps: seq<nat>, es: seq<nat>)
    requires |ps| == |es| && forall k :: 0 <= k < |es| ==> es[k] == 0
    ensures Prod(ps, es) == 1
    decreases |ps|
  {
    if |ps| > 0 {
      ProdZeros(ps[..|ps| - 1], es[..|es| - 1]);
    }
  }

  /** Trailing zero exponents do not change the product. */
  lemma {:induction false} ProdZeroTail(ps: seq<nat>, es: seq<nat>, n: nat)
    requires |ps| == |es| && n <= |ps|
    requires forall k :: n <= k < |es| ==> es[k] == 0
    ensures Prod(ps, es) == Prod(ps[..n], es[..n])
    decreases |ps|
  {
    if |ps| > n {
      ProdZeroTail(ps[..|ps| - 1], es[..|es| - 1], n);
      assert ps[..|ps| - 1][..n] == ps[..n];
      assert es[..|es| - 1][..n] == es[..n];
    } else {
      assert ps[..n] == ps && es[..n] == es;
    }
  }

  // ----- multiplicities -----------------------------------------------------

  /** How often p divides n: the exponent of p in n (0 for n == 0). */
  function Multiplicity(p: nat, n: nat): nat
    requires p >= 2
    decreases n
  {
    if n > 0 && n % p == 0 then 1 + Multiplicity(p, n / p) else 0
  }

  /** The exponent of a prime in a prime: 1 in itself, 0 in any other. */
  lemma MultiplicityOfPrime(q: nat, p: nat)
    requires IsPrime(q) && IsPrime(p)
    ensures Multiplicity(q, p) == if q == p then 1 else 0
  {
    if q == p {
      MulMod(p, 1);
      ModSmall(1, p);
    } else if q < p {
      assert p % q != 0;
    } else {
      ModSmall(p, q);
    }
  }

  lemma QuotientArith(n: nat, p: nat, q: nat, a: nat)
    requires p > 0 && q > 0 && n == p * (q * a)
    ensures n % q == 0 && n / q == p * a && (p * a) % p == 0 && (p * a) / p == a
  {
    assert n == q * (p * a);
    MulMod(q, p * a);
    MulMod(p, a);
  }

  /** Dividing n by a prime p leaves the exponent of every other prime q
    * unchanged. */
  lemma {:induction false} MultiplicityQuotient(q: nat, p: nat, n: nat)
    requires IsPrime(p) && IsPrime(q) && p != q
    requires n > 0 && n % p == 0
    ensures Multiplicity(q, n / p) == Multiplicity(q, n)
    decreases n
  {
    var m := n / p;
    if n % q == 0 {
      var a := CommonMultiple(n, p, q);
      MultiplicityStep(q, n, p * a);
      MultiplicityStep(q, m, a);
      MultiplicityQuotient(q, p, p * a);
    } else {
      OtherMultiple(n, p, q);
    }
  }

  /** n divisible by distinct primes p and q is p * q * a, and n / q < n. */
  lemma CommonMultiple(n: nat, p: nat, q: nat) returns (a: nat)
    requires IsPrime(p) && IsPrime(q) && p != q && n > 0 && n % p == 0 && n % q == 0
    ensures a >= 1 && n / p == q * a && n == q * (p * a) && p * a < n
    ensures (p * a) % p == 0 && (p * a) / p == a && p * a > 0
  {
    var m := CofactorMultiple(n, p, q);
    a := m / q;
    assert m == q * a;
    QuotientArith(n, p, q, a);
    MulLe(p * a, 2, q);
  }

  /** q also divides n's cofactor n / p. */
  lemma CofactorMultiple(n: nat, p: nat, q: nat) returns (m: nat)
    requires IsPrime(p) && IsPrime(q) && p != q && n % p == 0 && n % q == 0
    ensures m == n / p && n == p * m && m % q == 0
  {
    m := n / p;
    assert n == p * m;
    if q > p {
      ModSmall(p, q);
    } else {
      assert p % q != 0;
    }
    Euclid(q, p, m);
  }

  /** A prime q not dividing n = p * m does not divide m. */
  lemma OtherMultiple(n: nat, p: nat, q: nat)
    requires p > 0 && q > 0 && n % p == 0 && n % q != 0
    ensures (n / p) % q != 0
  {
    var m := n / p;
    assert n == p * m;
    var a := m / q;
    if m % q == 0 {
      assert m == q * a;
      QuotientArith(n, p, q, a);
    }
  }

  /** The exponent of every table prime in n (0 for an entry below 2). */
  function Exponents(t: seq<nat>, n: nat): (es: seq<nat>)
    ensures |es| == |t|
  {
    seq(|t|, k requires 0 <= k < |t| => if t[k] >= 2 then Multiplicity(t[k], n) else 0)
  }

  lemma QuotientBounds(n: nat, q: nat)
    requires 2 <= q <= n && n % q == 0
    ensures 1 <= n / q < n && n == q * (n / q)
  {
    var m := n / q;
    assert n == q * m;
    MulLe(m, 2, q);
  }

  /** Dividing by the table prime at index k lowers its exponent by one and
    * leaves the others. */
  lemma ExponentsQuotient(t: seq<nat>, limit: nat, n: nat, k: nat)
    requires IsPrimeTable(t, limit) && k < |t| && n > 0 && n % t[k] == 0
    ensures Exponents(t, n) == Exponents(t, n / t[k])[k := Exponents(t, n / t[k])[k] + 1]
  {
    var q := t[k];
    var e, e' := Exponents(t, n), Exponents(t, n / q);
    forall i | 0 <= i < |t| && i != k
      ensures e[i] == e'[i]
    {
      MultiplicityQuotient(t[i], q, n);
    }
  }

  /** Fundamental theorem of arithmetic, existence half: over a table of all
    * primes below the limit, the product of the exponents of n is n. */
  lemma {:induction false} ProdExponents(t: seq<nat>, limit: nat, n: nat)
    requires IsPrimeTable(t, limit) && 1 <= n < limit
    ensures Prod(t, Exponents(t, n)) == n
    decreases n
  {
    if n == 1 {
      forall k | 0 <= k < |t|
        ensures Exponents(t, 1)[k] == 0
      {
        ModSmall(1, t[k]);
      }
      ProdZeros(t, Exponents(t, 1));
    } else {
      var q := LeastFactor(n);
      LeastFactorIsPrime(n);
      var k :| 0 <= k < |t| && t[k] == q;
      QuotientBounds(n, q);
      ProdExponents(t, limit, n / q);
      ProdExponentsStep(t, limit, n, k);
    }
  }

  /** Multiplying back the prime at index k: from the quotient's product to n's. */
  lemma ProdExponentsStep(t: seq<nat>, limit: nat, n: nat, k: nat)
    requires IsPrimeTable(t, limit) && k < |t| && n > 0 && n % t[k] == 0
    requires n == t[k] * (n / t[k]) && Prod(t, Exponents(t, n / t[k])) == n / t[k]
    ensures Prod(t, Exponents(t, n)) == n
  {
    ExponentsQuotient(t, limit, n, k);
    ProdIncrement(t, Exponents(t, n / t[k]), k);
  }

  /** The exponent of a prime in a product is the sum of its exponents in
    * the factors. */
  lemma {:induction false} MultiplicityProduct(p: nat, a: nat, b: nat)
    requires IsPrime(p) && a >= 1 && b >= 1
    ensures Multiplicity(p, a * b) == Multiplicity(p, a) + Multiplicity(p, b)
    decreases a + b
  {
    if a % p == 0 {
      var a' := a / p;
      QuotientBounds(a, p);
      MultiplicityLeft(p, a, a', b);
      MultiplicityProduct(p, a', b);
    } else if b % p == 0 {
      var b' := b / p;
      QuotientBounds(b, p);
      MultiplicityRight(p, a, b, b');
      MultiplicityProduct(p, a, b');
    } else {
      MultiplicityNeither(p, a, b);
    }
  }

  /** With a == p * a', p divides a and a * b once more than a' and a' * b. */
  lemma MultiplicityLeft(p: nat, a: nat, a': nat, b: nat)
    requires p >= 2 && a' >= 1 && b >= 1 && a == p * a'
    ensures Multiplicity(p, a) == 1 + Multiplicity(p, a')
    ensures Multiplicity(p, a * b) == 1 + Multiplicity(p, a' * b)
  {
    ProductQuotient(p, a', b);
    MultiplicityStep(p, a, a');
    MultiplicityStep(p, a * b, a' * b);
  }

  /** The same with the multiple of p on the right: b == p * b'. */
  lemma MultiplicityRight(p: nat, a: nat, b: nat, b': nat)
    requires p >= 2 && b' >= 1 && a >= 1 && b == p * b'
    ensures Multiplicity(p, b) == 1 + Multiplicity(p, b')
    ensures Multiplicity(p, a * b) == 1 + Multiplicity(p, a * b')
  {
    MultiplicityLeft(p, b, b', a);
    assert b * a == a * b && b' * a == a * b';
  }

  /** A prime dividing neither factor does not divide the product. */
  lemma MultiplicityNeither(p: nat, a: nat, b: nat)
    requires IsPrime(p) && a % p != 0 && b % p != 0
    ensures Multiplicity(p, a * b) == 0 && Multiplicity(p, a) == 0 && Multiplicity(p, b) == 0
  {
    if (a * b) % p == 0 {
      Euclid(p, a, b);
    }
  }

  /** A multiple p * y of p has one more factor p than y. */
  lemma MultiplicityStep(p: nat, x: nat, y: nat)
    requires p >= 2 && y >= 1 && x == p * y
    ensures Multiplicity(p, x) == 1 + Multiplicity(p, y)
  {
    MulMod(p, y);
    MulLe(p, 1, y);
  }

  lemma ProductQuotient(p: nat, a: nat, b: nat)
    requires p >= 2 && a >= 1 && b >= 1
    ensures (p * a) * b == p * (a * b) && (p * (a * b)) % p == 0 && (p * (a * b)) / p == a * b
    ensures a * b >= 1
  {
    MulMod(p, a * b);
    MulLe(a, 1, b);
  }

  /** The exponent of a prime p in a power of a prime q. */
  lemma {:induction false} MultiplicityPow(p: nat, q: nat, e: nat)
    requires IsPrime(p) && IsPrime(q)
    ensures Multiplicity(p, Pow(q, e)) == if p == q then e else 0
    decreases e
  {
    if e == 0 {
      ModSmall(1, p);
    } else {
      MultiplicityPow(p, q, e - 1);
      PowPositive(q, e - 1);
      MultiplicityProduct(p, q, Pow(q, e - 1));
      MultiplicityOfPrime(p, q);
    }
  }

  /** Table entries 2 or more: the product is positive. */
  lemma {:induction false} ProdPositive(ps: seq<nat>, es: seq<nat>)
    requires |ps| == |es| && forall k :: 0 <= k < |ps| ==> ps[k] >= 2
    ensures Prod(ps, es) >= 1
    decreases |ps|
  {
    if |ps| > 0 {
      ProdPositive(ps[..|ps| - 1], es[..|es| - 1]);
      PowPositive(ps[|ps| - 1], es[|es| - 1]);
      MulLe(Prod(ps[..|ps| - 1], es[..|es| - 1]), 1, Pow(ps[|ps| - 1], es[|es| - 1]));
    }
  }

  predicate AllPrime(t: seq<nat>) { forall k :: 0 <= k < |t| ==> IsPrime(t[k]) }

  /** In a product over distinct primes, a prime's exponent is the one listed
    * for it, or 0 when it is not listed. */
  lemma {:induction false} MultiplicityOfProd(ps: seq<nat>, es: seq<nat>, p: nat)
    requires |ps| == |es| && AllPrime(ps) && StrictlyIncreasing(ps) && IsPrime(p)
    ensures p !in ps ==> Multiplicity(p, Prod(ps, es)) == 0
    ensures forall k :: 0 <= k < |ps| && ps[k] == p ==> Multiplicity(p, Prod(ps, es)) == es[k]
    decreases |ps|
  {
    if |ps| == 0 {
      ModSmall(1, p);
    } else {
      var n := |ps|;
      var ps', es' := ps[..n - 1], es[..n - 1];
      MultiplicityOfProd(ps', es', p);
      MultiplicityOfLast(ps, es, p);
      LastNotBefore(ps);
      forall k | 0 <= k < n && ps[k] == p
        ensures Multiplicity(p, Prod(ps, es)) == es[k]
      {
        if k < n - 1 {
          assert ps'[k] == p;
        }
      }
    }
  }

  /** The exponent of p in a product splits between all but the last entry and the last. */
  lemma MultiplicityOfLast(ps: seq<nat>, es: seq<nat>, p: nat)
    requires |ps| == |es| && |ps| > 0 && AllPrime(ps) && IsPrime(p)
    ensures Multiplicity(p, Prod(ps, es))
      == Multiplicity(p, Prod(ps[..|ps| - 1], es[..|ps| - 1])) + (if p == ps[|ps| - 1] then es[|ps| - 1] else 0)
  {
    var n := |ps|;
    var a, b := Prod(ps[..n - 1], es[..n - 1]), Pow(ps[n - 1], es[n - 1]);
    ProdPositive(ps[..n - 1], es[..n - 1]);
    PowPositive(ps[n - 1], es[n - 1]);
    MultiplicityProduct(p, a, b);
    MultiplicityPow(p, ps[n - 1], es[n - 1]);
  }

  /** In a strictly increasing sequence the last entry does not occur before. */
  lemma LastNotBefore(ps: seq<nat>)
    requires StrictlyIncreasing(ps) && |ps| > 0
    ensures ps[|ps| - 1] !in ps[..|ps| - 1]
  {
    var init := ps[..|ps| - 1];
    forall k | 0 <= k < |init|
      ensures init[k] != ps[|ps| - 1]
    {
      assert ps[k] < ps[|ps| - 1];
    }
  }

  /** Fundamental theorem of arithmetic, uniqueness half: a product of powers
    * of distinct primes determines its exponents. */
  lemma ExponentsOfProd(ps: seq<nat>, es: seq<nat>)
    requires |ps| == |es| && AllPrime(ps) && StrictlyIncreasing(ps)
    ensures Exponents(ps, Prod(ps, es)) == es
  {
    var n := Prod(ps, es);
    forall k | 0 <= k < |ps|
      ensures Exponents(ps, n)[k] == es[k]
    {
      MultiplicityOfProd(ps, es, ps[k]);
    }
  }
}
