/** The staircase of cells with 2^b 3^t <= 2n, and why it fits the tables. */
module Bounds {
  import opened Powers
  import opened CostOptimality
  import opened Digits

  /** The cells a run visits. */
  predicate InRegion(n: nat, b: nat, t: nat) {
    Pow23(b, t) <= 2 * n
  }

  /** floor(log2 2n). */
  predicate IsLog2(n: nat, x: nat) {
    Pow23(x, 0) <= 2 * n < Pow23(x + 1, 0)
  }

  /** floor(log3 2n). */
  predicate IsLog3(n: nat, x: nat) {
    Pow23(0, x) <= 2 * n < Pow23(0, x + 1)
  }

  /** `bBound[t]` is the last row of column t in the region. */
  lemma BoundIsLast(n: nat, bound: nat, b: nat, t: nat)
    requires IsBound(n, bound, t)
    ensures InRegion(n, b, t) <==> b <= bound
  {
    if b <= bound {
      Pow23Monotone(b, t, bound, t);
    } else {
      Pow23Monotone(bound + 1, t, b, t);
    }
  }

  lemma RegionInLogs(n: nat, log2: nat, log3: nat, b: nat, t: nat)
    requires IsLog2(n, log2) && IsLog3(n, log3) && InRegion(n, b, t)
    ensures b <= log2 && t <= log3
  {
    Pow23Monotone(b, 0, b, t);
    Pow23Monotone(0, t, b, t);
    if b > log2 {
      Pow23Monotone(log2 + 1, 0, b, 0);
    }
    if t > log3 {
      Pow23Monotone(0, log3 + 1, 0, t);
    }
  }

  /** The region is closed under taking divisors. */
  lemma RegionDown(n: nat, b: nat, t: nat, b': nat, t': nat)
    requires InRegion(n, b, t) && b' <= b && t' <= t
    ensures InRegion(n, b', t')
  {
    Pow23Monotone(b', t', b, t);
  }

  /** From column to column the bound falls by one or two. */
  lemma BoundSteps(n: nat, b: nat, b': nat, t: nat)
    requires IsBound(n, b, t) && IsBound(n, b', t + 1)
    ensures b - 2 <= b' <= b - 1
  {
    TripleStep(b', t + 1);
    TripleStep(b' + 1, t + 1);
    assert Pow23(b + 1, t) == 2 * Pow23(b, t);
    assert Pow23(b' + 3, t) == 4 * Pow23(b' + 1, t);
    if b' >= b {
      Pow23Monotone(b, t, b', t);
    } else if b' + 3 <= b {
      Pow23Monotone(b' + 3, t, b, t);
    }
  }

  /** The branch for n >= 2^bBound[t] 3^t is never taken. */
  lemma BoundExceedsN(n: nat, b: nat, t: nat)
    requires IsBound(n, b, t)
    ensures n < Pow23(b, t) <= 2 * n
  {
    assert Pow23(b + 1, t) == 2 * Pow23(b, t);
  }

  /** Rows and columns of the tables: MAX_2 = 32 * INTS and MAX_3 = int(20.19 * INTS). */
  function MaxDbl(ints: nat): nat {
    32 * ints
  }

  function MaxTpl(ints: nat): nat {
    2019 * ints / 100
  }

  predicate FitsIn(n: nat, ints: nat) {
    2 <= ints <= 21 && 0 < n && 6 * n < Pow23(MaxDbl(ints), 0)
  }

  lemma FitsInFits(n: nat, ints: nat)
    requires FitsIn(n, ints)
    ensures Fits(n)
  {
    Pow23Monotone(MaxDbl(ints), 0, MAX_BITS, 0);
  }

  /** Exponents with 2^FLOOR[e] <= 3^e. */
  const FLOOR: seq<nat> := [0, 1, 3, 4, 6, 7, 9, 11, 12, 14, 15, 17]

  lemma Combine(p: nat, q: nat, p': nat, q': nat)
    requires Pow23(q, 0) <= Pow23(0, p) && Pow23(q', 0) <= Pow23(0, p')
    ensures Pow23(q + q', 0) <= Pow23(0, p + p')
  {
    Pow23Product(q, 0, q', 0);
    Pow23Product(0, p, 0, p');
    ProductOrder(Pow23(q, 0), Pow23(0, p), Pow23(q', 0), Pow23(0, p'));
  }

  lemma ProductOrder(x: nat, x': nat, y: nat, y': nat)
    requires x <= x' && y <= y'
    ensures x * y <= x' * y'
  {
    assert x * y <= x' * y;
    assert x' * y <= x' * y';
  }

  lemma {:induction false} SmallThrees(e: nat)
    requires e < 12
    ensures Pow23(FLOOR[e], 0) <= Pow23(0, e)
  {
    Tiny();
    hide Pow23;
    if e >= 7 {
      SmallThrees(e - 7);
      Combine(7, 11, e - 7, FLOOR[e - 7]);
    } else if e >= 2 {
      SmallThrees(e - 2);
      Combine(2, 3, e - 2, FLOOR[e - 2]);
    }
  }

  lemma Tiny()
    ensures Pow23(0, 0) == 1 && Pow23(1, 0) <= Pow23(0, 1)
    ensures Pow23(3, 0) <= Pow23(0, 2) && Pow23(11, 0) <= Pow23(0, 7)
  {
    assert Pow23(5, 0) == 32;
  }

  /** 2^19 < 3^12 and 2^84 < 3^53. */
  lemma Convergents()
    ensures Pow23(19, 0) <= Pow23(0, 12)
    ensures Pow23(84, 0) <= Pow23(0, 53)
  {
    hide Pow23;
    Twos();
    Threes();
  }

  lemma Twos()
    ensures Pow23(19, 0) == 0x8_0000 && Pow23(84, 0) == 0x10_0000_0000_0000_0000_0000
  {
    TwoPower();
    SmallPowers();
    hide Pow23;
    Pow23Product(32, 0, 32, 0);
    DoubleStep(19, 0);
    Pow23Product(10, 0, 10, 0);
    Pow23Product(64, 0, 20, 0);
  }

  lemma SmallPowers()
    ensures Pow23(10, 0) == 1024
    ensures Pow23(0, 13) == 1594323 && Pow23(0, 12) == 531441
  {
    assert Pow23(5, 0) == 32 && Pow23(0, 6) == 729;
    TripleStep(0, 13);
    Pow23Product(0, 6, 0, 6);
  }

  lemma Threes()
    ensures Pow23(0, 12) == 531441 && Pow23(0, 39) == 4052555153018976267
    ensures Pow23(0, 53) == 19383245667680019896796723
  {
    SmallPowers();
    hide Pow23;
    Pow23Product(0, 13, 0, 13);
    Pow23Product(0, 26, 0, 13);
    Pow23Product(0, 39, 0, 13);
    Pow23Product(0, 52, 0, 1);
    assert Pow23(0, 1) == 3 by { TripleStep(0, 1); ZeroPower(); }
  }

  lemma ZeroPower()
    ensures Pow23(0, 0) == 1
  {
  }

  lemma {:induction false} ThreesBeatTwos(k: nat, d: nat, e: nat)
    requires e < 12
    ensures Pow23(84 * k + 19 * d + FLOOR[e], 0) <= Pow23(0, 53 * k + 12 * d + e)
  {
    Convergents();
    hide Pow23;
    if k > 0 {
      ThreesBeatTwos(k - 1, d, e);
      Combine(53, 84, 53 * (k - 1) + 12 * d + e, 84 * (k - 1) + 19 * d + FLOOR[e]);
    } else if d > 0 {
      ThreesBeatTwos(k, d - 1, e);
      Combine(12, 19, 12 * (d - 1) + e, 19 * (d - 1) + FLOOR[e]);
    } else {
      SmallThrees(e);
    }
  }

  /** For each number of limbs, the column after the last one, as 53 k + 12 d + e. */
  const WIDTH: seq<(nat, nat, nat)> := [
    (0, 3, 5), (1, 0, 8), (1, 2, 4), (1, 4, 0), (2, 1, 4), (2, 3, 0), (3, 0, 3),
    (3, 1, 11), (3, 3, 7), (4, 0, 11), (4, 2, 7), (4, 4, 3), (5, 1, 6), (5, 3, 2),
    (6, 0, 6), (6, 2, 2), (6, 3, 10), (7, 1, 1), (7, 2, 9), (8, 0, 0)]

  lemma WidthIs(ints: nat)
    requires 2 <= ints <= 21
    ensures var (k, d, e) := WIDTH[ints - 2];
      e < 12 && 53 * k + 12 * d + e == MaxTpl(ints) + 1 && 84 * k + 19 * d + FLOOR[e] >= MaxDbl(ints)
  {
    if ints <= 6 {
      assert ints == 2 || ints == 3 || ints == 4 || ints == 5 || ints == 6;
    } else if ints <= 11 {
      assert ints == 7 || ints == 8 || ints == 9 || ints == 10 || ints == 11;
    } else if ints <= 16 {
      assert ints == 12 || ints == 13 || ints == 14 || ints == 15 || ints == 16;
    } else {
      assert ints == 17 || ints == 18 || ints == 19 || ints == 20 || ints == 21;
    }
  }

  /** One column more than the table has would overflow the limbs. */
  lemma TableIsWide(ints: nat)
    requires 2 <= ints <= 21
    ensures Pow23(MaxDbl(ints), 0) <= Pow23(0, MaxTpl(ints) + 1)
  {
    hide Pow23;
    WidthIs(ints);
    var (k, d, e) := WIDTH[ints - 2];
    ThreesBeatTwos(k, d, e);
    Pow23Monotone(MaxDbl(ints), 0, 84 * k + 19 * d + FLOOR[e], 0);
  }

  /** Every visited cell has a slot, and room for one more row and column. */
  lemma RegionFits(n: nat, ints: nat, b: nat, t: nat)
    requires FitsIn(n, ints) && InRegion(n, b, t)
    ensures b + t + 1 < MaxDbl(ints) && t + 1 <= MaxTpl(ints)
  {
    Pow23LowerBound(b, t);
    assert Pow23(b + t + 1, 0) == 2 * Pow23(b + t, 0);
    PowerOrder(b + t + 1, MaxDbl(ints));
    Pow23Monotone(0, t, b, t);
    TripleStep(0, t + 1);
    var p := MaxTpl(ints) + 1;
    if t + 1 >= p {
      Pow23Monotone(0, p, 0, t + 1);
      TableIsWide(ints);
    }
  }
}
