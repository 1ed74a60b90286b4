/** prime_bug.c: an integer square root by Newton's iteration, in 32-bit arithmetic, and the
    primality test built on it -- which, as its header warns, is not quite one. */
module PrimeBug {

  newtype Int32 = x: int | -0x8000_0000 <= x < 0x8000_0000

  ghost predicate IsRoot(n: int, r: int) {
    r >= 0 && r * r <= n < (r + 1) * (r + 1)
  }

  // ---------------------------------------------------------------------
  // Newton's iteration
  // ---------------------------------------------------------------------

  lemma {:induction false} RootExists(n: nat) returns (s: nat)
    ensures IsRoot(n, s)
  {
    s := 0;
    while (s + 1) * (s + 1) <= n
      invariant s * s <= n
      decreases n - s
    {
      s := s + 1;
    }
  }

  lemma ProductBound(a: int, b: int, s: int)
    requires a + b <= 2 * s && a >= 0 && b >= 0
    ensures a * b <= s * s
  {
    var h := a + b;
    assert 4 * (a * b) == h * h - (a - b) * (a - b);
    assert (a - b) * (a - b) >= 0;
    assert h * h <= (2 * s) * (2 * s) by { MulMono(h, h, 2 * s, 2 * s); }
  }

  lemma MulMono(a: int, b: int, c: int, d: int)
    requires 0 <= a <= c && 0 <= b <= d
    ensures a * b <= c * d
  {
    assert a * b <= c * b <= c * d;
  }

  lemma QuotientBounds(n: int, x: int)
    requires n >= 0 && x > 0
    ensures var q := n / x; q >= 0 && q * x <= n < (q + 1) * x
  {
  }

  lemma SquareOfNext(s: int)
    ensures (s + 1) * (s + 1) == s * s + 2 * s + 1
    ensures (s + 2) * s == s * s + 2 * s && (s + 3) * s == s * s + 3 * s && s * (s + 1) == s * s + s
  {
  }

  /** A step from x leads to the mean of x and n / x; never below the root. */
  lemma QuotientRange(n: int, s: int, x: int)
    requires n >= 1 && IsRoot(n, s) && x >= s >= 1
    ensures var q := n / x; q + x >= 2 * s && q <= s + 2 && (x > s ==> q < x)
  {
    var q := n / x;
    QuotientBounds(n, x);
    SquareOfNext(s);
    if q + x < 2 * s {
      ProductBound(q + 1, x, s);
    }
    if q >= s + 3 {
      MulMono(s + 3, s, q, x);
    }
    if x > s && q >= x {
      MulMono(s + 1, s + 1, q, x);
    }
  }

  /** At the root, and just above it when n is one less than a square. */
  lemma QuotientAtRoot(n: int, s: int)
    requires n >= 1 && IsRoot(n, s) && s >= 1
    ensures s <= n / s <= s + 2 && (n / s == s + 2 ==> n == s * s + 2 * s)
    ensures n == s * s + 2 * s ==> n / (s + 1) == s
  {
    QuotientRange(n, s, s);
    QuotientBounds(n, s);
    SquareOfNext(s);
    if n == s * s + 2 * s {
      var q := n / (s + 1);
      QuotientRange(n, s, s + 1);
      QuotientBounds(n, s + 1);
      if q < s {
        MulMono(q + 1, s + 1, s, s + 1);
      }
    }
  }

  /** One step never falls below the root, comes down as long as it is above it, and at the
      root stays there or goes one up -- the latter just when n is one less than a square. */
  lemma NewtonStep(n: int, s: int, x: int)
    requires n >= 1 && IsRoot(n, s) && x >= s >= 1
    ensures var y := (n / x + x) / 2;
            && y >= s
            && n / x <= s + 2
            && (x > s ==> y < x)
            && (x == s ==> y == s || (y == s + 1 && n == s * s + 2 * s))
            && (x == s + 1 && n == s * s + 2 * s ==> y == s)
  {
    QuotientRange(n, s, x);
    QuotientAtRoot(n, s);
  }

  lemma RootAtMostHalf(n: int, s: int)
    requires n >= 2 && IsRoot(n, s)
    ensures 1 <= s <= n / 2
  {
    if s >= 2 {
      MulMono(2, s, s, s);
    }
  }

  lemma RootFits(n: int, s: int)
    requires n < 0x8000_0000 && IsRoot(n, s)
    ensures s <= 46340
  {
    if s > 46340 {
      MulMono(46341, 46341, s, s);
    }
  }

  /** sqroot: no division by zero, no overflow, and an end even when the iterate swings between
      the root and its successor. main() passes numbers from 3 on; for what happens below 2, see
      FirstDivisor. */
  method Sqroot(num: Int32) returns (r: Int32)
    requires num >= 2
    ensures IsRoot(num as int, r as int)
  {
    ghost var n := num as int;
    ghost var s := RootExists(n);
    RootAtMostHalf(n, s);
    RootFits(n, s);
    var oldX: Int32 := 0;
    var newX: Int32 := -1;
    var X: Int32 := num / 2;
    while true
      invariant s <= X as int <= n / 2 + 1
      invariant oldX == 0 || oldX > X || (X as int == s + 1 && oldX as int == s && n == s * s + 2 * s)
      decreases if X as int == s then 1 else if oldX as int == s && X as int == s + 1 then 0 else X as int - s + 1
    {
      NewtonStep(n, s, X as int);
      newX := (num / X + X) / 2;
      if newX == X || newX == oldX {
        break;
      }
      oldX := X;
      X := newX;
    }
    return if newX < X then newX else X;
  }

  /** C's division, which truncates toward zero. */
  function TruncDiv(a: int, b: int): int
    requires b != 0
  {
    if (a >= 0) == (b > 0) then Abs(a) / Abs(b) else -(Abs(a) / Abs(b))
  }

  function Abs(x: int): nat {
    if x < 0 then -x else x
  }

  /** The first value that sqroot() divides by is zero for three arguments and no other. */
  lemma FirstDivisor(num: int)
    ensures TruncDiv(num, 2) == 0 <==> -1 <= num <= 1
    ensures num >= 0 ==> TruncDiv(num, 2) == num / 2
  {
  }

  // ---------------------------------------------------------------------
  // Divisors and primes
  // ---------------------------------------------------------------------

  ghost predicate Divides(d: int, n: int) {
    exists k :: n == d * k
  }

  ghost predicate Prime(n: int) {
    n >= 2 && forall d :: 2 <= d < n ==> !Divides(d, n)
  }

  lemma DividesIffMod(d: int, n: int)
    requires d > 0
    ensures Divides(d, n) <==> n % d == 0
  {
    var q := n / d;
    assert n == d * q + n % d;
    if n % d == 0 {
      assert n == d * q;
    }
    if k :| n == d * k {
      assert d * (k - q) == n % d && d * (q - k) == -(n % d);
      if k - q >= 1 {
        MulMono(d, 1, d, k - q);
      } else if k - q <= -1 {
        MulMono(d, 1, d, q - k);
      }
    }
  }

  /** Euclid's lemma, by division with remainder. */
  lemma {:induction false} Euclid(p: int, d: int, e: int)
    requires Prime(p) && 0 < d < p && Divides(p, d * e)
    ensures Divides(p, e)
    decreases d
  {
    if d == 1 {
      assert d * e == e;
    } else {
      var q, t := p / d, p % d;
      assert p == d * q + t;
      DividesIffMod(d, p);
      var k :| d * e == p * k;
      assert t * e == p * (e - q * k) by {
        assert t * e == p * e - (d * q) * e;
        assert (d * q) * e == q * (d * e);
        assert q * (p * k) == p * (q * k);
        assert p * (e - q * k) == p * e - p * (q * k);
      }
      Euclid(p, t, e);
    }
  }

  lemma Cofactor(d: int, n: int) returns (k: int)
    requires Divides(d, n)
    ensures n == d * k
  {
    k :| n == d * k;
  }

  lemma CofactorRange(d: int, k: int, n: int)
    requires n == d * k && n > 0 && d > 0
    ensures 0 < k && (d >= 2 ==> k < n) && (k >= 2 ==> d < n)
  {
    if k <= 0 {
      MulMono(d, 0, d, -k);
    }
    if d >= 2 {
      MulMono(2, k, d, k);
    }
    if k >= 2 {
      MulMono(d, 2, d, k);
    }
  }

  // ---------------------------------------------------------------------
  // The primality test
  // ---------------------------------------------------------------------

  /** What test_prime accepts, given the root r of n: no odd divisor from 3 up to but not
      including the root. */
  ghost predicate Accepts(n: int, r: int) {
    forall d :: 3 <= d < r && d % 2 == 1 ==> !Divides(d, n)
  }

  lemma RootUnique(n: int, r: int, s: int)
    requires IsRoot(n, r) && IsRoot(n, s)
    ensures r == s
  {
    if r < s {
      MulMono(r + 1, r + 1, s, s);
    } else if s < r {
      MulMono(s + 1, s + 1, r, r);
    }
  }

  /** What the numbers accepted are: see AcceptsExactly. */
  ghost predicate Accepted(n: int) {
    exists r :: IsRoot(n, r) && Accepts(n, r)
  }

  lemma AcceptedIs(n: int, r: int)
    requires IsRoot(n, r)
    ensures Accepted(n) <==> Accepts(n, r)
  {
    if Accepted(n) {
      var s :| IsRoot(n, s) && Accepts(n, s);
      RootUnique(n, r, s);
    }
  }

  /** The loop of test_prime over the odd numbers below the root. */
  method TrialDivision(test: Int32, root: Int32) returns (accepted: bool)
    requires test >= 3 && 1 <= root < 0x1_0000
    ensures accepted <==> Accepts(test as int, root as int)
  {
    hide Divides;
    var fac: Int32 := 3;
    while fac < root
      invariant 3 <= fac as int <= root as int + 3 && fac as int % 2 == 1
      invariant forall d :: 3 <= d < fac as int && d < root as int && d % 2 == 1 ==> !Divides(d, test as int)
      decreases root as int - fac as int
    {
      DividesIffMod(fac as int, test as int);
      assert (test % fac) as int == test as int % fac as int;
      if test % fac == 0 {
        return false;
      }
      fac := fac + 2;
    }
    return true;
  }

  method TestPrime(test: Int32) returns (accepted: bool)
    requires test >= 3
    ensures accepted <==> Accepted(test as int)
    ensures accepted <==>
      Prime(test as int) || PrimeSquare(test as int) || TwinProduct(test as int) || EvenKind(test as int)
  {
    hide Prime, PrimeSquare, TwinProduct, EvenKind, Accepted, Accepts, IsRoot;
    var root := Sqroot(test);
    RootFits(test as int, root as int);
    accepted := TrialDivision(test, root);
    AcceptedIs(test as int, root as int);
    AcceptsExactly(test as int, root as int);
  }

  lemma NeverRejectsPrime(n: int, r: int)
    requires n >= 3 && IsRoot(n, r) && Prime(n)
    ensures Accepts(n, r)
  {
    if r >= n {
      MulMono(n, 2, r, r);
    }
  }

  /** The least divisor. */
  lemma {:induction false} LeastDivisor(n: int, d: int) returns (m: int)
    requires 2 <= d < n && Divides(d, n)
    ensures 2 <= m <= d && Divides(m, n) && forall k :: 2 <= k < m ==> !Divides(k, n)
    decreases d
  {
    if k :| 2 <= k < d && Divides(k, n) {
      m := LeastDivisor(n, k);
    } else {
      m := d;
    }
  }

  lemma DividesTransitive(a: int, b: int, c: int)
    requires Divides(a, b) && Divides(b, c)
    ensures Divides(a, c)
  {
    var k :| b == a * k;
    var l :| c == b * l;
    assert c == a * (k * l);
  }

  ghost predicate PrimeSquare(n: int) {
    exists p :: Prime(p) && n == p * p
  }

  ghost predicate TwinProduct(n: int) {
    exists p :: Prime(p) && Prime(p + 2) && n == p * (p + 2)
  }

  lemma EvenFactor(a: int, b: int)
    requires a % 2 == 0
    ensures (a * b) % 2 == 0
  {
    assert a * b == 2 * ((a / 2) * b);
  }

  lemma OddFactors(a: int, b: int)
    requires (a * b) % 2 == 1
    ensures a % 2 == 1 && b % 2 == 1
  {
    assert a * b == b * a;
    if a % 2 == 0 {
      EvenFactor(a, b);
    } else if b % 2 == 0 {
      EvenFactor(b, a);
    }
  }

  /** The least divisor m of an accepted composite odd number is its root, and the cofactor is
      at most two more. */
  lemma WrongCofactor(n: int, r: int, m: int, e: int)
    requires n >= 3 && n % 2 == 1 && IsRoot(n, r) && Accepts(n, r)
    requires n == m * e && m >= 2 && e >= m && Divides(m, n)
    ensures m == r >= 3 && (e == m || e == m + 2)
  {
    OddFactors(m, e);
    if m > r {
      MulMono(r + 1, r + 1, m, e);
    }
    assert m == r;
    assert m * (m + 3) == m * m + 3 * m && (m + 1) * (m + 1) == m * m + 2 * m + 1;
    if e >= m + 3 {
      MulMono(m, m + 3, m, e);
    }
  }

  ghost predicate Least(m: int, n: int) {
    m >= 2 && Divides(m, n) && forall k :: 2 <= k < m ==> !Divides(k, n)
  }

  lemma LeastIsPrime(n: int, m: int)
    requires Least(m, n)
    ensures Prime(m)
  {
    forall k | 2 <= k < m ensures !Divides(k, m) {
      if Divides(k, m) {
        DividesTransitive(k, m, n);
      }
    }
  }

  lemma TwinIsPrime(n: int, m: int)
    requires Least(m, n) && m >= 3 && m % 2 == 1 && Divides(m + 2, n)
    ensures Prime(m + 2)
  {
    var t := m + 2;
    forall k | 2 <= k < t ensures !Divides(k, t) {
      if k >= m {
        NoTwinDivisor(m, k);
      } else if Divides(k, t) {
        DividesTransitive(k, t, n);
      }
    }
  }

  lemma LeastSplit(n: int) returns (m: int, e: int)
    requires n >= 3 && !Prime(n)
    ensures Least(m, n) && n == m * e && e >= m && Divides(e, n)
  {
    var d :| 2 <= d < n && Divides(d, n);
    m := LeastDivisor(n, d);
    e := Cofactor(m, n);
    CofactorRange(m, e, n);
    assert n == e * m && Divides(e, n);
    assert e == 1 ==> n == m;
  }

  lemma AcceptedComposite(n: int, r: int)
    requires n >= 3 && n % 2 == 1 && IsRoot(n, r) && Accepts(n, r) && !Prime(n)
    ensures PrimeSquare(n) || TwinProduct(n)
  {
    var m, e := LeastSplit(n);
    hide Prime, Divides;
    WrongCofactor(n, r, m, e);
    LeastIsPrime(n, m);
    if e == m + 2 {
      OddFactors(m, e);
      TwinIsPrime(n, m);
    }
  }

  lemma NoTwinDivisor(m: int, k: int)
    requires m >= 3 && m % 2 == 1 && m <= k < m + 2
    ensures !Divides(k, m + 2)
  {
    DividesIffMod(k, m + 2);
    if k == m {
      assert (m + 2) % m == 2 by { ModIs(m + 2, m, 1, 2); }
    } else {
      assert (m + 2) % (m + 1) == 1 by { ModIs(m + 2, m + 1, 1, 1); }
    }
  }

  lemma ModIs(n: int, d: int, q: int, t: int)
    requires d > 0 && n == d * q + t && 0 <= t < d
    ensures n % d == t
  {
    var q', t' := n / d, n % d;
    assert d * (q - q') == t' - t && d * (q' - q) == t - t';
    if q - q' >= 1 {
      MulMono(d, 1, d, q - q');
    } else if q - q' <= -1 {
      MulMono(d, 1, d, q' - q);
    }
  }

  lemma ProductRoot(p: int, e: int, r: int)
    requires p >= 2 && (e == p || e == p + 2) && IsRoot(p * e, r)
    ensures r == p
  {
    assert p * (p + 2) == p * p + 2 * p && (p + 1) * (p + 1) == p * p + 2 * p + 1;
    if r > p {
      MulMono(p + 1, p + 1, r, r);
    } else if r < p {
      MulMono(r + 1, r + 1, p, p);
    }
  }

  lemma DivisorOfCofactor(p: int, e: int, d: int)
    requires Prime(p) && 0 < d < p && Divides(d, p * e)
    ensures Divides(d, e)
  {
    var f := Cofactor(d, p * e);
    assert Divides(p, d * f) by { assert d * f == p * e; }
    Euclid(p, d, f);
    var g := Cofactor(p, f);
    assert d * (p * g) == p * (d * g);
    SameFactor(p, e, d * g);
  }

  /** A product of a prime with itself or its twin has no odd divisor below that prime. */
  lemma ProductAccepted(p: int, e: int, r: int)
    requires Prime(p) && Prime(e) && (e == p || e == p + 2) && IsRoot(p * e, r)
    ensures Accepts(p * e, r)
  {
    ProductRoot(p, e, r);
    forall d | 3 <= d < r && d % 2 == 1 ensures !Divides(d, p * e) {
      if Divides(d, p * e) {
        DivisorOfCofactor(p, e, d);
      }
    }
  }

  lemma SameFactor(p: int, a: int, b: int)
    requires p > 0 && p * a == p * b
    ensures a == b
  {
    assert p * (a - b) == 0 && p * (b - a) == 0;
    if a > b {
      MulMono(1, 1, p, a - b);
    } else if a < b {
      MulMono(1, 1, p, b - a);
    }
  }

  /** For odd numbers the test errs on exactly two kinds: it takes for prime the square of a
      prime and the product of twin primes, and nothing else. */
  lemma OddAccepted(n: int, r: int)
    requires n >= 3 && n % 2 == 1 && IsRoot(n, r)
    ensures Accepts(n, r) <==> Prime(n) || PrimeSquare(n) || TwinProduct(n)
  {
    if Accepts(n, r) && !Prime(n) {
      AcceptedComposite(n, r);
    }
    if Prime(n) {
      NeverRejectsPrime(n, r);
    }
    if PrimeSquare(n) {
      var p :| Prime(p) && n == p * p;
      ProductAccepted(p, p, r);
    }
    if TwinProduct(n) {
      var p :| Prime(p) && Prime(p + 2) && n == p * (p + 2);
      ProductAccepted(p, p + 2, r);
    }
  }

  // ---------------------------------------------------------------------
  // Even numbers
  // ---------------------------------------------------------------------

  function Pow2(k: nat): (p: nat)
    ensures p >= 1 && (k >= 1 ==> p >= 2 && p % 2 == 0)
  {
    if k == 0 then 1 else 2 * Pow2(k - 1)
  }

  lemma {:induction false} OddPart(n: int) returns (k: nat, m: int)
    requires n >= 1
    ensures n == Pow2(k) * m && m >= 1 && m % 2 == 1 && (n % 2 == 0 <==> k >= 1)
    decreases n
  {
    if n % 2 == 1 {
      k, m := 0, n;
    } else {
      k, m := OddPart(n / 2);
      assert Pow2(k + 1) * m == 2 * (Pow2(k) * m);
      k := k + 1;
    }
  }

  lemma EvenCofactor(d: int, q: int, x: int)
    requires d % 2 == 1 && d * q == 2 * x
    ensures x == d * (q / 2)
  {
    if q % 2 == 1 {
      OddTimesOdd(d, q);
    } else {
      var h := q / 2;
      assert d * (2 * h) == 2 * (d * h);
    }
  }

  lemma OddDividesHalf(d: int, x: int)
    requires d % 2 == 1
    ensures Divides(d, 2 * x) <==> Divides(d, x)
  {
    if Divides(d, 2 * x) {
      var q := Cofactor(d, 2 * x);
      EvenCofactor(d, q, x);
      assert x == d * (q / 2);
    }
    if Divides(d, x) {
      var q := Cofactor(d, x);
      assert 2 * x == d * (2 * q);
    }
  }

  /** An odd divisor of a number is one of its odd part. */
  lemma {:induction false} OddDivisor(d: int, k: nat, m: int)
    requires d % 2 == 1
    ensures Divides(d, Pow2(k) * m) <==> Divides(d, m)
  {
    hide Divides;
    if k > 0 {
      assert Pow2(k) * m == 2 * (Pow2(k - 1) * m);
      OddDivisor(d, k - 1, m);
      OddDividesHalf(d, Pow2(k - 1) * m);
    } else {
      assert Pow2(k) * m == m;
    }
  }

  lemma OddTimesOdd(a: int, b: int)
    requires a % 2 == 1 && b % 2 == 1
    ensures (a * b) % 2 == 1
  {
    var x, y := a / 2, b / 2;
    assert a * b == 2 * (2 * (x * y) + x + y) + 1 by {
      assert a * b == (2 * x + 1) * (2 * y + 1);
    }
  }

  /** A power of two times an odd prime that is at least as large, give or take one. */
  ghost predicate PowerOrPrimeMultiple(n: int, k: nat, m: int) {
    && k >= 1 && n == Pow2(k) * m
    && (m == 1 || (Prime(m) && m % 2 == 1 && Pow2(k) <= m + 1))
  }

  ghost predicate EvenKind(n: int) {
    exists k: nat, m: int :: PowerOrPrimeMultiple(n, k, m)
  }

  /** A divisor that is not below the root of twice its multiple. */
  lemma SmallSquare(n: int, r: int, p: int, a: int, e: int)
    requires IsRoot(n, r) && p >= 2 && n == p * (a * e) && 3 <= a <= e
    ensures a < r
  {
    MulMono(a, a, a, e);
    MulMono(2, a * a, p, a * e);
    MulMono(3, a, a, a);
    assert (a + 1) * (a + 1) == a * a + 2 * a + 1;
    if a >= r {
      MulMono(r + 1, r + 1, a + 1, a + 1);
    }
  }

  /** An odd part that is itself no divisor below the root. */
  lemma LargeEnough(n: int, r: int, p: int, m: int)
    requires IsRoot(n, r) && n == p * m && m >= 3 && p >= 2 && m % 2 == 1 && p % 2 == 0
    ensures m >= r <==> p <= m + 1
  {
    assert (m + 1) * (m + 1) == m * m + 2 * m + 1 && (m + 3) * m == m * m + 3 * m && (m + 1) * m == m * m + m;
    if p <= m + 1 {
      MulMono(p, m, m + 1, m);
      if m < r {
        MulMono(m + 1, m + 1, r, r);
      }
    } else {
      MulMono(m + 3, m, p, m);
      if m >= r {
        MulMono(r + 1, r + 1, m + 1, m + 1);
      }
    }
  }

  lemma EvenOddPartPrime(n: int, r: int, k: nat, m: int)
    requires IsRoot(n, r) && n == Pow2(k) * m && k >= 1 && m >= 3 && m % 2 == 1 && Accepts(n, r)
    ensures Prime(m)
  {
    if !Prime(m) {
      var a, e := LeastSplit(m);
      OddFactors(a, e);
      OddDivisor(a, k, m);
      SmallSquare(n, r, Pow2(k), a, e);
    }
  }

  lemma PrimeMultipleAccepted(n: int, r: int, k: nat, m: int)
    requires IsRoot(n, r) && n == Pow2(k) * m && k >= 1 && m % 2 == 1
    requires m == 1 || (Prime(m) && m >= r)
    ensures Accepts(n, r)
  {
    forall d | 3 <= d < r && d % 2 == 1 ensures !Divides(d, n) {
      OddDivisor(d, k, m);
      if m == 1 {
        DividesIffMod(d, 1);
      }
    }
  }

  /** The even numbers accepted: the powers of two, and an odd prime times a power of two that
      exceeds it by one at most. */
  lemma EvenAccepted(n: int, r: int)
    requires n >= 4 && n % 2 == 0 && IsRoot(n, r)
    ensures Accepts(n, r) <==> EvenKind(n)
  {
    if Accepts(n, r) {
      var k, m := OddPart(n);
      if m >= 3 {
        EvenOddPartPrime(n, r, k, m);
        LargeEnough(n, r, Pow2(k), m);
        OddDivisor(m, k, m);
        assert Divides(m, m) by { assert m == m * 1; }
      }
      assert PowerOrPrimeMultiple(n, k, m);
    }
    if EvenKind(n) {
      var k: nat, m: int :| PowerOrPrimeMultiple(n, k, m);
      if m != 1 {
        LargeEnough(n, r, Pow2(k), m);
      }
      PrimeMultipleAccepted(n, r, k, m);
    }
  }

  lemma NotOfTheOtherKind(n: int)
    requires n >= 3
    ensures n % 2 == 1 ==> !EvenKind(n)
    ensures n % 2 == 0 ==> !Prime(n) && !TwinProduct(n) && (PrimeSquare(n) ==> EvenKind(n))
  {
    if n % 2 == 1 {
      if k: nat, m: int :| PowerOrPrimeMultiple(n, k, m) {
        EvenFactor(Pow2(k), m);
      }
    } else {
      assert n == 2 * (n / 2) && Divides(2, n);
      if p :| Prime(p) && n == p * p {
        EvenPrime(p, p);
        assert PowerOrPrimeMultiple(4, 2, 1);
      }
      if p :| Prime(p) && Prime(p + 2) && n == p * (p + 2) {
        EvenPrime(p, p + 2);
        assert 4 == 2 * 2 && Divides(2, 4);
      }
    }
  }

  lemma EvenPrime(p: int, q: int)
    requires Prime(p) && Prime(q) && (p * q) % 2 == 0
    ensures p == 2 || q == 2
  {
    if p % 2 == 1 && q % 2 == 1 {
      OddTimesOdd(p, q);
    }
    assert p % 2 == 0 ==> p == 2 * (p / 2) && Divides(2, p);
    assert q % 2 == 0 ==> q == 2 * (q / 2) && Divides(2, q);
  }

  /** Exactly what test_prime takes for prime: the primes; the squares of primes and the products
      of twin primes; the powers of two and some multiples of primes by them. */
  lemma AcceptsExactly(n: int, r: int)
    requires n >= 3 && IsRoot(n, r)
    ensures Accepts(n, r) <==> Prime(n) || PrimeSquare(n) || TwinProduct(n) || EvenKind(n)
  {
    NotOfTheOtherKind(n);
    if n % 2 == 1 {
      OddAccepted(n, r);
    } else {
      EvenAccepted(n, r);
    }
  }

  /** The first number that is wrongly accepted. */
  lemma FourIsAccepted()
    ensures IsRoot(4, 2) && Accepts(4, 2) && !Prime(4)
  {
    assert 4 == 2 * 2 && Divides(2, 4);
  }
}
