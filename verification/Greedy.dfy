/**
  The greedy chain search: from a start (a, b), keep taking the nearest term whose exponents
  do not exceed the last ones. Distances are compared exactly where the source compares doubles.
 */
module Greedy {
  import opened Powers
  import opened Chains

  function Dist(x: nat, y: nat): nat {
    if x >= y then x - y else y - x
  }

  /** floor(log2(t / 3^j)), searched from k upwards. */
  function FloorExponent(t: nat, j: nat, k: nat): (r: nat)
    requires Pow23(k, j) <= t
    ensures k <= r && Pow23(r, j) <= t < Pow23(r + 1, j)
    decreases t - Pow23(k, j)
  {
    assert Pow23(k + 1, j) == 2 * Pow23(k, j);
    if Pow23(k + 1, j) <= t then FloorExponent(t, j, k + 1) else k
  }

  /** `alpha_j`: the best exponent of two up to a, in column j. */
  function ColumnExponent(t: nat, a: nat, j: nat): nat {
    if Pow23(0, j) >= t then 0
    else
      var k := FloorExponent(t, j, 0);
      if k >= a then a
      else if t - Pow23(k, j) <= Pow23(k + 1, j) - t then k
      else k + 1
  }

  /** The first column of the window below b. */
  function WindowEnd(b: nat, window: nat): nat {
    if b >= window then b - window else 0
  }

  /** The scan over the columns j, j-1, ..., end, with the best term so far. */
  function Scan(t: nat, a: nat, j: int, end: nat, alpha: nat, beta: nat): (nat, nat)
    decreases j + 1
  {
    if j < 0 || j < end then (alpha, beta)
    else
      var x := ColumnExponent(t, a, j);
      if Dist(t, Pow23(x, j)) <= Dist(t, Pow23(alpha, beta)) then Scan(t, a, j - 1, end, x, j)
      else Scan(t, a, j - 1, end, alpha, beta)
  }

  /** The term the loop settles on. */
  function Select(t: nat, a: nat, b: nat, window: nat): (nat, nat) {
    Scan(t, a, b, WindowEnd(b, window), a, b)
  }

  /** (x, y) is inside the window, the columns b - window to b, and no term of the window is nearer to t. */
  ghost predicate IsNearest(t: nat, a: nat, b: nat, window: nat, x: nat, y: nat) {
    && x <= a && b - window <= y <= b
    && forall x': nat, y': nat :: x' <= a && b - window <= y' <= b ==>
         Dist(t, Pow23(x, y)) <= Dist(t, Pow23(x', y'))
  }

  lemma ColumnNearest(t: nat, a: nat, j: nat, x: nat)
    requires x <= a
    ensures ColumnExponent(t, a, j) <= a
    ensures Dist(t, Pow23(ColumnExponent(t, a, j), j)) <= Dist(t, Pow23(x, j))
    ensures Dist(t, Pow23(ColumnExponent(t, a, j), j)) == Dist(t, Pow23(x, j)) ==> ColumnExponent(t, a, j) <= x
  {
    if Pow23(0, j) >= t {
      Pow23Monotone(0, j, x, j);
    } else {
      var k := FloorExponent(t, j, 0);
      hide Pow23;
      DoubleStep(k, j);
      if x <= k {
        BelowIsFarther(t, x, k, j);
        if k > a {
          BelowIsFarther(t, x, a, j);
          Pow23Monotone(a, j, k, j);
        }
      } else {
        Pow23Monotone(k + 1, j, x, j);
      }
    }
  }

  /** Of two terms of a column not above t, the smaller is farther away. */
  lemma BelowIsFarther(t: nat, x: nat, k: nat, j: nat)
    requires x <= k
    ensures Pow23(k, j) <= t ==> Pow23(x, j) <= Pow23(k, j) && (x < k ==> Pow23(x, j) < Pow23(k, j))
  {
    if x < k {
      Pow23StrictlyMonotone(x, j, k, j);
    }
  }

  /** (p, q) is nearer to t than (x, y), or as near and further down, or as near in the same column and not larger. */
  predicate Preferred(t: nat, p: nat, q: nat, x: nat, y: nat) {
    var d, e := Dist(t, Pow23(p, q)), Dist(t, Pow23(x, y));
    d < e || (d == e && (q < y || (q == y && p <= x)))
  }

  lemma {:induction false} ScanNearest(t: nat, a: nat, j: int, end: nat, alpha: nat, beta: nat, x: nat, y: nat)
    requires x <= a && -1 <= j
    ensures var (p, q) := Scan(t, a, j, end, alpha, beta);
      && Dist(t, Pow23(p, q)) <= Dist(t, Pow23(alpha, beta))
      && (end <= y <= j ==> Preferred(t, p, q, x, y))
      && ((p, q) == (alpha, beta) || (p <= a && end <= q <= j))
    decreases j + 1
  {
    hide Pow23, ColumnExponent, Dist;
    if j >= 0 && j >= end {
      ColumnNearest(t, a, j, x);
      var z := ColumnExponent(t, a, j);
      if Dist(t, Pow23(z, j)) <= Dist(t, Pow23(alpha, beta)) {
        ScanNearest(t, a, j - 1, end, z, j, x, y);
      } else {
        ScanNearest(t, a, j - 1, end, alpha, beta, x, y);
      }
    }
  }

  /**
    The scan finds the nearest term with exponents up to a and from b - window to b; among equally
    near ones the one of the lowest column, and in it the smaller.
   */
  lemma SelectIsNearest(t: nat, a: nat, b: nat, window: nat)
    ensures var (x, y) := Select(t, a, b, window);
      && x <= a && b - window <= y <= b
      && forall x': nat, y': nat :: x' <= a && b - window <= y' <= b ==>
           || Dist(t, Pow23(x, y)) < Dist(t, Pow23(x', y'))
           || (Dist(t, Pow23(x, y)) == Dist(t, Pow23(x', y')) && (y < y' || (y == y' && x <= x')))
    ensures var (x, y) := Select(t, a, b, window); IsNearest(t, a, b, window, x, y)
  {
    hide Pow23, Dist;
    var end := WindowEnd(b, window);
    ScanNearest(t, a, b, end, a, b, a, b);
    var (p, q) := Select(t, a, b, window);
    forall x: nat, y: nat | x <= a && b - window <= y <= b
      ensures Dist(t, Pow23(p, q)) <= Dist(t, Pow23(x, y)) && Preferred(t, p, q, x, y)
    {
      ScanNearest(t, a, b, end, a, b, x, y);
    }
  }

  /** What remains after a nearest term never exceeds that term. */
  lemma RemainderBound(t: nat, a: nat, b: nat, window: nat, x: nat, y: nat)
    requires t < 2 * Pow23(a, b) && IsNearest(t, a, b, window, x, y)
    ensures Dist(t, Pow23(x, y)) <= Pow23(x, y)
  {
    hide Pow23;
    if x < a {
      DoubleStep(x, y);
      assert Dist(t, Pow23(x, y)) <= Dist(t, Pow23(x + 1, y));
    } else if y < b {
      TripleStep(x, y + 1);
      assert Dist(t, Pow23(x, y)) <= Dist(t, Pow23(x, y + 1));
    }
  }

  /** Taking the same term again needs t close to it, and leaves at most a third. */
  lemma Repeated(t: nat, a: nat, b: nat, window: nat)
    requires 0 < t < 2 * Pow23(a, b) && window >= 2 && IsNearest(t, a, b, window, a, b)
    ensures Dist(t, Pow23(a, b)) < t && Pow23(a, b) < 2 * t
    ensures t <= Pow23(a, b) ==> 3 * Dist(t, Pow23(a, b)) <= Pow23(a, b)
  {
    if a > 0 {
      assert Dist(t, Pow23(a, b)) <= Dist(t, Pow23(a - 1, b));
    } else if b > 0 {
      TripleStep(a, b);
      assert Dist(t, Pow23(a, b)) <= Dist(t, Pow23(a, b - 1));
    }
  }

  /** From at most a third of the last term, two exponents go, or one goes and again at most a third is left. */
  lemma SmallRemainder(t: nat, a: nat, b: nat, window: nat, x: nat, y: nat)
    requires 0 < t && 3 * t <= Pow23(a, b) && window >= 2 && IsNearest(t, a, b, window, x, y)
    ensures x != a || y != b
    ensures x + y + 2 <= a + b || 3 * Dist(t, Pow23(x, y)) <= Pow23(x, y)
  {
    if x == a && y == b {
      Repeated(t, a, b, window);
    } else if x + 1 == a && y == b {
      HalfTooFar(t, a, b, window);
    } else if x == a && y + 1 == b {
      ThirdIsClose(t, a, b, window);
    }
  }

  /** The half of the last term is never nearest to something below a third of it. */
  lemma HalfTooFar(t: nat, a: nat, b: nat, window: nat)
    requires 0 < t && 3 * t <= Pow23(a, b) && window >= 2 && a > 0
    ensures !IsNearest(t, a, b, window, a - 1, b)
  {
    if b > 0 {
      TripleStep(a, b);
      assert Dist(t, Pow23(a - 1, b)) > Dist(t, Pow23(a, b - 1));
    } else if a > 1 {
      assert Pow23(a, b) == 4 * Pow23(a - 2, b);
      assert Dist(t, Pow23(a - 1, b)) > Dist(t, Pow23(a - 2, b));
    }
  }

  lemma ThirdIsClose(t: nat, a: nat, b: nat, window: nat)
    requires 0 < t && 3 * t <= Pow23(a, b) && window >= 2 && b > 0
    requires IsNearest(t, a, b, window, a, b - 1)
    ensures 3 * Dist(t, Pow23(a, b - 1)) <= Pow23(a, b - 1)
  {
    TripleStep(a, b);
    if a > 0 {
      assert Dist(t, Pow23(a, b - 1)) <= Dist(t, Pow23(a - 1, b - 1));
    } else if b > 1 {
      TripleStep(a, b - 1);
      assert Dist(t, Pow23(a, b - 1)) <= Dist(t, Pow23(a, b - 2));
    }
  }

  /** One selection: exponents do not rise, and either they fall or the remainder does. */
  lemma SelectStep(t: nat, a: nat, b: nat, window: nat)
    requires 0 < t < 2 * Pow23(a, b) && window >= 2
    ensures var (x, y) := Select(t, a, b, window); var d := Dist(t, Pow23(x, y));
      && x <= a && y <= b && IsNearest(t, a, b, window, x, y)
      && d <= Pow23(x, y) && d < 2 * Pow23(x, y)
      && (x == a && y == b ==> d < t)
  {
    SelectIsNearest(t, a, b, window);
    hide Pow23, Dist, Select;
    var (x, y) := Select(t, a, b, window);
    RemainderBound(t, a, b, window, x, y);
    if x == a && y == b {
      Repeated(t, a, b, window);
    }
  }

  /** The run of the loop from remainder t and sign; it ends because (a + b, t) falls. */
  function GreedyChain(minus: bool, t: nat, a: nat, b: nat, window: nat): Chain
    requires t < 2 * Pow23(a, b) && window >= 2
    decreases a + b, t
  {
    if t == 0 then Empty
    else
      SelectStep(t, a, b, window);
      var (x, y) := Select(t, a, b, window);
      var p := Pow23(x, y);
      Term(Node(x, y, minus), GreedyChain(if t >= p then minus else !minus, Dist(t, p), x, y, window))
  }

  /** Exponents start at most at (a, b) and never rise. */
  predicate StaysBelow(c: Chain, a: nat, b: nat) {
    c.Term? ==> c.head.dbl <= a && c.head.tpl <= b && StaysBelow(c.rest, c.head.dbl, c.head.tpl)
  }

  /** The stored terms plus s * t stay equal to n, so the exact run stores a chain of n. */
  lemma {:induction false} GreedyValue(minus: bool, t: nat, a: nat, b: nat, window: nat)
    requires t < 2 * Pow23(a, b) && window >= 2
    ensures var c := GreedyChain(minus, t, a, b, window);
      && Value(c) == (if minus then 0 - t else t) && StaysBelow(c, a, b)
      && (t > 0 ==> c.Term? && c.head.minus == minus)
    decreases a + b, t
  {
    if t > 0 {
      SelectStep(t, a, b, window);
      hide Pow23, Select;
      var (x, y) := Select(t, a, b, window);
      var p := Pow23(x, y);
      GreedyValue(if t >= p then minus else !minus, Dist(t, p), x, y, window);
    }
  }

  /** One term for each exponent that can go, and at most two more. */
  lemma {:induction false} GreedyLength(minus: bool, t: nat, a: nat, b: nat, window: nat)
    requires t < 2 * Pow23(a, b) && window >= 2
    ensures Size(GreedyChain(minus, t, a, b, window)) <= a + b + 2
    ensures t <= Pow23(a, b) ==> Size(GreedyChain(minus, t, a, b, window)) <= a + b + 1
    ensures 3 * t <= Pow23(a, b) ==> Size(GreedyChain(minus, t, a, b, window)) <= a + b
    decreases a + b, t
  {
    if t > 0 {
      SelectStep(t, a, b, window);
      hide Pow23, Select, Dist, IsNearest;
      var (x, y) := Select(t, a, b, window);
      var p := Pow23(x, y);
      GreedyLength(if t >= p then minus else !minus, Dist(t, p), x, y, window);
      if x == a && y == b {
        Repeated(t, a, b, window);
      }
      if 3 * t <= Pow23(a, b) {
        SmallRemainder(t, a, b, window, x, y);
      }
    }
  }

  /** How often a term 2^x 3^y occurs. */
  function Uses(c: Chain, x: nat, y: nat): nat {
    if c.Empty? then 0
    else (if c.head.dbl == x && c.head.tpl == y then 1 else 0) + Uses(c.rest, x, y)
  }

  /** A term that stands at three places is used three times. */
  lemma {:induction false} ThreePlaces(c: Chain, i: nat, j: nat, k: nat)
    requires i < j < k < Size(c)
    requires var s := Terms(c); s[i].dbl == s[j].dbl == s[k].dbl && s[i].tpl == s[j].tpl == s[k].tpl
    ensures Uses(c, Terms(c)[i].dbl, Terms(c)[i].tpl) >= 3
  {
    var x, y := Terms(c)[i].dbl, Terms(c)[i].tpl;
    UsesAfter(c, i, x, y);
    UsesAfter(c, j, x, y);
    UsesAfter(c, k, x, y);
    UsesFall(c, i, i, x, y);
    UsesFall(c, i + 1, j, x, y);
    UsesFall(c, j + 1, k, x, y);
  }

  /** How often the term occurs from place i on. */
  function UsesFrom(c: Chain, i: nat, x: nat, y: nat): nat
    requires i <= Size(c)
  {
    if i == 0 then Uses(c, x, y) else UsesFrom(c.rest, i - 1, x, y)
  }

  lemma {:induction false} UsesAfter(c: Chain, i: nat, x: nat, y: nat)
    requires i < Size(c) && Terms(c)[i].dbl == x && Terms(c)[i].tpl == y
    ensures UsesFrom(c, i, x, y) == 1 + UsesFrom(c, i + 1, x, y)
  {
    if i > 0 {
      UsesAfter(c.rest, i - 1, x, y);
    }
  }

  lemma {:induction false} UsesFall(c: Chain, i: nat, j: nat, x: nat, y: nat)
    requires i <= j <= Size(c)
    ensures UsesFrom(c, i, x, y) >= UsesFrom(c, j, x, y)
    ensures Uses(c, x, y) >= UsesFrom(c, i, x, y)
  {
    if i > 0 {
      UsesFall(c.rest, i - 1, j - 1, x, y);
    } else if j > 0 {
      UsesFall(c.rest, 0, j - 1, x, y);
    }
  }

  /** No term is used more than twice. */
  lemma {:induction false} GreedyUses(minus: bool, t: nat, a: nat, b: nat, window: nat, x: nat, y: nat)
    requires t < 2 * Pow23(a, b) && window >= 2
    ensures var n := Uses(GreedyChain(minus, t, a, b, window), x, y);
      && n <= 2
      && (t <= Pow23(a, b) && x == a && y == b ==> n <= 1)
      && (3 * t <= Pow23(a, b) && x == a && y == b ==> n == 0)
      && (x > a || y > b ==> n == 0)
    decreases a + b, t
  {
    if t > 0 {
      SelectStep(t, a, b, window);
      hide Pow23, Select, Dist, IsNearest;
      var (p, q) := Select(t, a, b, window);
      var d := Pow23(p, q);
      GreedyUses(if t >= d then minus else !minus, Dist(t, d), p, q, window, x, y);
      if p == a && q == b {
        Repeated(t, a, b, window);
      }
      if 3 * t <= Pow23(a, b) {
        SmallRemainder(t, a, b, window, p, q);
      }
    }
  }
}
