/** The edge rule of the banana tournament (mysterious_challenge.py): two
    trainers are paired when the sum of their banana counts, reduced by the
    greatest common divisor, is not a power of two. Counts are naturals;
    the source divides by the gcd, so a pair of two zeros is excluded. */
module PairRule {

  /** d divides x (d positive). */
  predicate Divides(d: nat, x: nat) {
    d > 0 && x % d == 0
  }

  /** Euclid's algorithm, the recursive reading of the loop in ComputeGcd. */
  function Gcd(a: nat, b: nat): nat
    decreases b
  {
    if b == 0 then a else Gcd(b, a % b)
  }

  /** 2^k. */
  function Pow2(k: nat): (p: nat)
    ensures p >= 1
  {
    if k == 0 then 1 else 2 * Pow2(k - 1)
  }

  // ----- division facts (Dafny's / and % are Euclidean; operands here are natural)

  /** Quotient and remainder are the unique ones. */
  lemma ModUnique(x: int, d: int, q: int, r: int)
    requires d > 0 && x == d * q + r && 0 <= r < d
    ensures x / d == q && x % d == r
  {
    var q', r' := x / d, x % d;
    assert d * q' + r' == d * q + r;
    assert d * (q - q') == r' - r;
    MulBound(d, q - q');
  }

  /** A non-zero multiple of d is at least d away from zero. */
  lemma MulBound(d: int, t: int)
    requires d > 0
    ensures t >= 1 ==> d * t >= d
    ensures t <= -1 ==> d * t <= -d
  {
  }

  /** g * h == g with g positive forces h == 1. */
  lemma UnitFactor(g: int, h: int)
    requires g > 0 && g * h == g
    ensures h == 1
  {
    assert g * (h - 1) == 0;
  }

  /** An exact quotient multiplies back to the dividend. */
  lemma DivExact(x: nat, d: nat)
    requires Divides(d, x)
    ensures (x / d) * d == x && d * (x / d) == x
  {
  }

  /** ra * (g * rb) == rb * (g * ra). */
  lemma CrossMul(ra: nat, rb: nat, g: nat)
    ensures ra * (g * rb) == rb * (g * ra)
  {
  }

  /** A multiple of d leaves no remainder. */
  lemma MultipleDivides(d: nat, k: nat)
    requires d > 0
    ensures Divides(d, d * k) && (d * k) / d == k
  {
    ModUnique(d * k, d, k, 0);
  }

  /** A common divisor of x and y divides x % y. */
  lemma DivisorOfMod(x: nat, y: nat, d: nat)
    requires y > 0 && Divides(d, x) && Divides(d, y)
    ensures Divides(d, x % y)
  {
    var i, j, q := x / d, y / d, x / y;
    assert x == d * i && y == d * j;
    assert x % y == d * i - (d * j) * q;
    assert x % y == d * (i - j * q);
    ModUnique(x % y, d, i - j * q, 0);
  }

  /** A divisor of y and of x % y divides x. */
  lemma DivisorFromMod(x: nat, y: nat, d: nat)
    requires y > 0 && Divides(d, y) && Divides(d, x % y)
    ensures Divides(d, x)
  {
    var j, r, q := y / d, (x % y) / d, x / y;
    assert y == d * j && x % y == d * r;
    assert x == (d * j) * q + d * r;
    assert x == d * (j * q + r);
    ModUnique(x, d, j * q + r, 0);
  }

  /** Scaling both operands scales the remainder. */
  lemma ModScale(k: nat, a: nat, b: nat)
    requires k > 0 && b > 0
    ensures (k * a) % (k * b) == k * (a % b)
  {
    var q, r := a / b, a % b;
    assert a == b * q + r;
    assert k * a == (k * b) * q + k * r;
    assert k * r < k * b;
    ModUnique(k * a, k * b, q, k * r);
  }

  // ----- gcd

  /** The gcd of two numbers, not both zero, is positive and divides both. */
  lemma {:induction false} GcdDividesBoth(a: nat, b: nat)
    requires a > 0 || b > 0
    ensures Gcd(a, b) > 0 && Divides(Gcd(a, b), a) && Divides(Gcd(a, b), b)
    decreases b
  {
    if b == 0 {
      MultipleDivides(a, 1);
      MultipleDivides(a, 0);
    } else {
      GcdDividesBoth(b, a % b);
      DivisorFromMod(a, b, Gcd(a, b));
    }
  }

  /** Every common divisor of a and b divides their gcd. */
  lemma {:induction false} GcdGreatest(a: nat, b: nat, d: nat)
    requires Divides(d, a) && Divides(d, b)
    ensures Divides(d, Gcd(a, b))
    decreases b
  {
    if b != 0 {
      DivisorOfMod(a, b, d);
      GcdGreatest(b, a % b, d);
    }
  }

  /** The gcd does not depend on the order of its operands. */
  lemma GcdCommutes(a: nat, b: nat)
    ensures Gcd(a, b) == Gcd(b, a)
  {
    if a < b {
      ModUnique(a, b, 0, a);
    } else if b < a {
      ModUnique(b, a, 0, b);
    }
  }

  /** gcd(k*a, k*b) == k * gcd(a, b). */
  lemma {:induction false} GcdScale(k: nat, a: nat, b: nat)
    requires k > 0
    ensures Gcd(k * a, k * b) == k * Gcd(a, b)
    decreases b
  {
    if b != 0 {
      ModScale(k, a, b);
      GcdScale(k, b, a % b);
    }
  }

  /** The loop of gcd (mysterious_challenge.py:29-33); b strictly decreases. */
  method ComputeGcd(a: nat, b: nat) returns (g: nat)
    ensures g == Gcd(a, b)
    ensures b == 0 ==> g == a
    ensures a > 0 || b > 0 ==> g > 0 && Divides(g, a) && Divides(g, b)
    ensures forall d :: Divides(d, a) && Divides(d, b) ==> Divides(d, g)
  {
    var x, y := a, b;
    while y != 0
      invariant Gcd(x, y) == Gcd(a, b)
      decreases y
    {
      x, y := y, x % y;
    }
    g := x;
    if a > 0 || b > 0 {
      GcdDividesBoth(a, b);
    }
    forall d | Divides(d, a) && Divides(d, b) ensures Divides(d, g) {
      GcdGreatest(a, b, d);
    }
  }

  // ----- reduce_pair

  /** Both counts divided by their gcd (mysterious_challenge.py:36-39). */
  function ReducePair(a: nat, b: nat): (nat, nat)
    requires a > 0 || b > 0
  {
    GcdDividesBoth(a, b);
    (a / Gcd(a, b), b / Gcd(a, b))
  }

  /** The division is exact, and the reduced pair has the ratio of the
      original one. */
  lemma ReducePairExact(a: nat, b: nat)
    requires a > 0 || b > 0
    ensures ReducePair(a, b).0 * Gcd(a, b) == a && ReducePair(a, b).1 * Gcd(a, b) == b
    ensures ReducePair(a, b).0 * b == ReducePair(a, b).1 * a
  {
    GcdDividesBoth(a, b);
    var g := Gcd(a, b);
    DivExact(a, g);
    DivExact(b, g);
    CrossMul(a / g, b / g, g);
  }

  /** The reduced pair is coprime. */
  lemma ReducedCoprime(a: nat, b: nat)
    requires a > 0 || b > 0
    ensures Gcd(ReducePair(a, b).0, ReducePair(a, b).1) == 1
  {
    var r := ReducePair(a, b);
    var g := Gcd(a, b);
    GcdDividesBoth(a, b);
    ReducePairExact(a, b);
    assert g * r.0 == a && g * r.1 == b;
    GcdScale(g, r.0, r.1);
    UnitFactor(g, Gcd(r.0, r.1));
  }

  /** Scaling both counts by k > 0 does not change the reduced pair. */
  lemma ReduceScale(k: nat, a: nat, b: nat)
    requires k > 0 && (a > 0 || b > 0)
    ensures k * a > 0 || k * b > 0
    ensures ReducePair(k * a, k * b) == ReducePair(a, b)
  {
    var r := ReducePair(a, b);
    var g := Gcd(a, b);
    GcdDividesBoth(a, b);
    ReducePairExact(a, b);
    assert r.0 * g == a && r.1 * g == b;
    var ka, kb := k * a, k * b;
    ScaledQuotient(k, g, r.0, a);
    ScaledQuotient(k, g, r.1, b);
    GcdScale(k, a, b);
    assert Gcd(ka, kb) == k * g;
    assert ka > 0 || kb > 0 by { MulBound(k, if a > 0 then a else b); }
  }

  /** (k * x) / (k * g) == q when x == q * g. */
  lemma ScaledQuotient(k: nat, g: nat, q: nat, x: nat)
    requires k > 0 && g > 0 && x == q * g
    ensures (k * x) / (k * g) == q
  {
    assert k * x == (k * g) * q;
    ModUnique(k * x, k * g, q, 0);
  }

  /** Swapping the counts swaps the reduced pair. */
  lemma ReduceSwap(a: nat, b: nat)
    requires a > 0 || b > 0
    ensures ReducePair(b, a) == (ReducePair(a, b).1, ReducePair(a, b).0)
  {
    GcdCommutes(a, b);
  }

  // ----- is_power_of_two

  /** Python's & on non-negative integers, bit by bit from the lowest. */
  function BitAnd(x: nat, y: nat): nat
    decreases x
  {
    if x == 0 || y == 0 then 0
    else (if x % 2 == 1 && y % 2 == 1 then 1 else 0) + 2 * BitAnd(x / 2, y / 2)
  }

  /** x & x == x. */
  lemma {:induction false} BitAndSelf(x: nat)
    ensures BitAnd(x, x) == x
    decreases x
  {
    if x > 0 {
      BitAndSelf(x / 2);
    }
  }

  /** The n & (n - 1) test (mysterious_challenge.py:42-44). */
  function IsPowerOfTwo(n: int): bool {
    n > 0 && BitAnd(n, n - 1) == 0
  }

  /** The bit trick is exact: n & (n - 1) == 0 for positive n exactly when
      n is 2^k for some k >= 0; no n <= 0 passes. */
  lemma {:induction false} PowerOfTwoExact(n: int)
    ensures IsPowerOfTwo(n) <==> exists k: nat :: Pow2(k) == n
    decreases if n > 0 then n else 0
  {
    if n <= 0 {
    } else if n == 1 {
      assert BitAnd(1, 0) == 0;
      assert Pow2(0) == 1;
    } else if n % 2 == 0 {
      var m := n / 2;
      assert n - 1 == 2 * (m - 1) + 1;
      assert BitAnd(n, n - 1) == 2 * BitAnd(m, m - 1);
      PowerOfTwoExact(m);
      if IsPowerOfTwo(m) {
        var k: nat :| Pow2(k) == m;
        assert Pow2(k + 1) == n;
      }
      if exists k: nat :: Pow2(k) == n {
        var k: nat :| Pow2(k) == n;
        assert k > 0;
        var j: nat := k - 1;
        assert Pow2(j) == m;
        assert exists i: nat :: Pow2(i) == m;
        assert IsPowerOfTwo(m);
      }
    } else {
      var m := n / 2;
      assert m > 0 && n - 1 == 2 * m;
      BitAndSelf(m);
      assert BitAnd(n, n - 1) == 2 * m;
      forall k: nat ensures Pow2(k) != n {
        if k > 0 {
          assert Pow2(k) == 2 * Pow2(k - 1);
        }
      }
    }
  }

  // ----- check_pair

  /** Two trainers wrestle forever when the reduced sum of their bananas is
      not a power of two (mysterious_challenge.py:47-69). */
  function CheckPair(a: nat, b: nat): bool
    requires a > 0 || b > 0
  {
    var (ra, rb) := ReducePair(a, b);
    !IsPowerOfTwo(ra + rb)
  }

  /** check_pair holds exactly when the reduced sum is no power of two. */
  lemma CheckPairMeaning(a: nat, b: nat)
    requires a > 0 || b > 0
    ensures CheckPair(a, b) <==> forall k: nat :: Pow2(k) != ReducePair(a, b).0 + ReducePair(a, b).1
  {
    PowerOfTwoExact(ReducePair(a, b).0 + ReducePair(a, b).1);
  }

  /** The rule does not depend on which trainer comes first. */
  lemma CheckPairSymmetric(a: nat, b: nat)
    requires a > 0 || b > 0
    ensures CheckPair(a, b) == CheckPair(b, a)
  {
    ReduceSwap(a, b);
  }

  /** Scaling both counts by k > 0 does not change the rule. */
  lemma CheckPairScale(k: nat, a: nat, b: nat)
    requires k > 0 && (a > 0 || b > 0)
    ensures k * a > 0 || k * b > 0
    ensures CheckPair(k * a, k * b) == CheckPair(a, b)
  {
    ReduceScale(k, a, b);
  }

  /** Trainers with equal counts are never paired: (x, x) reduces to (1, 1). */
  lemma CheckPairEqual(x: nat)
    requires x > 0
    ensures ReducePair(x, x) == (1, 1)
    ensures !CheckPair(x, x)
  {
    ModUnique(x, x, 1, 0);
    assert Gcd(x, x) == x;
    assert Pow2(1) == 2;
  }

  /** The examples of the problem statement: 1 and 4 wrestle forever,
      3 and 5 stop after two rounds. */
  lemma CheckPairExamples()
    ensures CheckPair(1, 4)
    ensures !CheckPair(3, 5)
  {
    assert Gcd(1, 4) == 1 && Gcd(3, 5) == 1;
    assert ReducePair(1, 4) == (1, 4) && ReducePair(3, 5) == (3, 5);
    assert !IsPowerOfTwo(5) by {
      assert BitAnd(5, 4) == 4 by {
        assert BitAnd(2, 2) == 2 by { assert BitAnd(1, 1) == 1; }
      }
    }
    assert IsPowerOfTwo(8) by {
      assert BitAnd(8, 7) == 0 by {
        assert BitAnd(4, 3) == 0 by { assert BitAnd(2, 1) == 0; }
      }
    }
    PowerOfTwoExact(5);
    PowerOfTwoExact(8);
  }
}
