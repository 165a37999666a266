/** The numbers 2^b * 3^t from which every double-base chain is built. */
module Powers {

  /** 2^b * 3^t, the entry the source keeps in its power tables. */
  function Pow23(b: nat, t: nat): (d: nat)
    ensures d > 0
  {
    if b > 0 then 2 * Pow23(b - 1, t)
    else if t > 0 then 3 * Pow23(b, t - 1)
    else 1
  }

  lemma DoubleStep(b: nat, t: nat)
    ensures Pow23(b + 1, t) == 2 * Pow23(b, t)
  {
  }

  lemma {:induction false} TripleStep(b: nat, t: nat)
    requires t > 0
    ensures Pow23(b, t) == 3 * Pow23(b, t - 1)
  {
    if b > 0 {
      TripleStep(b - 1, t);
    }
  }

  lemma {:induction false} Pow23Monotone(b: nat, t: nat, b': nat, t': nat)
    requires b <= b' && t <= t'
    ensures Pow23(b, t) <= Pow23(b', t')
    decreases b' - b + t' - t
  {
    if b < b' {
      Pow23Monotone(b, t, b' - 1, t');
    } else if t < t' {
      Pow23Monotone(b, t, b', t' - 1);
      TripleStep(b', t');
    }
  }

  lemma {:induction false} Pow23Product(b: nat, t: nat, b': nat, t': nat)
    ensures Pow23(b + b', t + t') == Pow23(b, t) * Pow23(b', t')
    decreases b', t'
  {
    var p := Pow23(b, t);
    if b' > 0 {
      Pow23Product(b, t, b' - 1, t');
      Regroup(p, 2, Pow23(b' - 1, t'));
    } else if t' > 0 {
      Pow23Product(b, t, b', t' - 1);
      TripleStep(b + b', t + t');
      Regroup(p, 3, Pow23(b', t' - 1));
    }
  }

  lemma Regroup(x: int, y: int, z: int)
    ensures x * (y * z) == y * (x * z)
  {
  }

  /** 2^(b+t) is the smallest number with b + t prime factors drawn from {2, 3}. */
  lemma {:induction false} Pow23LowerBound(b: nat, t: nat)
    ensures Pow23(b + t, 0) <= Pow23(b, t)
    decreases t
  {
    if t > 0 {
      Pow23LowerBound(b + 1, t - 1);
      TripleStep(b, t);
      assert Pow23(b + 1, t - 1) == 2 * Pow23(b, t - 1);
    }
  }

  lemma {:induction false} Pow23StrictlyMonotone(b: nat, t: nat, b': nat, t': nat)
    requires b <= b' && t <= t' && (b != b' || t != t')
    ensures 2 * Pow23(b, t) <= Pow23(b', t')
  {
    if b < b' {
      Pow23Monotone(b, t, b' - 1, t');
    } else {
      Pow23Monotone(b, t, b', t' - 1);
      TripleStep(b', t');
    }
  }

  /** A proper divisor of 2^b 3^t is its half, its third, or at most a quarter of it. */
  lemma DivisorCases(b': nat, t': nat, b: nat, t: nat)
    requires b' <= b && t' <= t && (b' != b || t' != t)
    ensures var d, d' := Pow23(b, t), Pow23(b', t');
      if b' + 1 == b && t' == t then d == 2 * d'
      else if b' == b && t' + 1 == t then d == 3 * d'
      else d >= 4 * d'
  {
    if b' + 2 <= b {
      Pow23Monotone(b', t', b - 2, t);
    } else if t' + 2 <= t {
      Pow23Monotone(b', t', b, t - 2);
      TripleStep(b, t);
      TripleStep(b, t - 1);
    } else if b' < b && t' < t {
      Pow23Monotone(b', t', b - 1, t - 1);
      TripleStep(b - 1, t);
    } else if t' < t {
      TripleStep(b, t);
    }
  }

  /** ... or, looking one step further, its half, third or quarter, or at most a sixth. */
  lemma FineDivisorCases(b': nat, t': nat, b: nat, t: nat)
    requires b' <= b && t' <= t && (b' != b || t' != t)
    ensures var d, d' := Pow23(b, t), Pow23(b', t');
      if b' + 1 == b && t' == t then d == 2 * d'
      else if b' == b && t' + 1 == t then d == 3 * d'
      else if b' + 2 == b && t' == t then d == 4 * d'
      else d >= 6 * d'
  {
    if b' + 1 == b {
      assert Pow23(b, t') == 2 * Pow23(b', t');
      if t' < t {
        TripleStep(b, t' + 1);
        Pow23Monotone(b, t' + 1, b, t);
      }
    } else if b' == b {
      TripleStep(b, t' + 1);
      if t' + 1 < t {
        DivisorCases(b, t' + 1, b, t);
      }
    } else if b' + 2 == b && t' == t {
      assert Pow23(b, t) == 2 * Pow23(b - 1, t);
    } else {
      assert Pow23(b' + 2, t') == 2 * Pow23(b' + 1, t') == 4 * Pow23(b', t');
      DivisorCases(b' + 2, t', b, t);
    }
  }

  lemma {:induction false} OddPower(t: nat)
    ensures Pow23(0, t) % 2 == 1
  {
    if t > 0 {
      OddPower(t - 1);
    }
  }

  lemma {:induction false} NoThrees(b: nat)
    ensures Pow23(b, 0) % 3 != 0
  {
    if b > 0 {
      NoThrees(b - 1);
    }
  }

  lemma CancelFactor(f: nat, y: nat, k: int)
    requires f > 0
    ensures (f * y) * k == f * (y * k)
    ensures ((f * y) * k) % f == 0
  {
    Regroup(f, 1, y * k);
    ModUnique(f * (y * k), f, y * k, 0);
  }

  /** A divisor of 2^b' 3^t' among these numbers has no larger exponents. */
  lemma {:induction false} DivisorExponents(b: nat, t: nat, b': nat, t': nat, k: int)
    requires Pow23(b', t') == Pow23(b, t) * k
    ensures b <= b' && t <= t'
    decreases b, t
  {
    if b > 0 {
      DoubleStep(b - 1, t);
      CancelFactor(2, Pow23(b - 1, t), k);
      if b' > 0 {
        DoubleStep(b' - 1, t');
        hide Pow23;
        DivisorExponents(b - 1, t, b' - 1, t', k);
      } else {
        OddPower(t');
      }
    } else if t > 0 {
      TripleStep(b, t);
      CancelFactor(3, Pow23(b, t - 1), k);
      if t' > 0 {
        TripleStep(b', t');
        hide Pow23;
        DivisorExponents(b, t - 1, b', t' - 1, k);
      } else {
        NoThrees(b');
      }
    }
  }

  /** Divisibility among the powers, in terms of the exponents. */
  lemma DividesExactly(b: nat, t: nat, b': nat, t': nat)
    ensures Pow23(b', t') % Pow23(b, t) == 0 <==> b <= b' && t <= t'
  {
    hide Pow23;
    var d, d' := Pow23(b, t), Pow23(b', t');
    if d' % d == 0 {
      var k := d' / d;
      assert d' == d * k + d' % d;
      DivisorExponents(b, t, b', t', k);
    }
    if b <= b' && t <= t' {
      Pow23Product(b, t, b' - b, t' - t);
      ModUnique(d', d, Pow23(b' - b, t' - t), 0);
    }
  }

  /** Powers of two are ordered like their exponents. */
  lemma PowerOrder(x: nat, y: nat)
    ensures Pow23(x, 0) < Pow23(y, 0) <==> x < y
  {
    if x < y {
      Pow23StrictlyMonotone(x, 0, y, 0);
    } else {
      Pow23Monotone(y, 0, x, 0);
    }
  }

  /** Halving the modulus: x mod 2h is x mod h, or that plus h. */
  lemma ModHalf(x: nat, h: nat)
    requires h > 0
    ensures x % (2 * h) == x % h || x % (2 * h) == x % h + h
  {
    var q, r := x / (2 * h), x % (2 * h);
    assert x == (2 * h) * q + r;
    if r < h {
      ModUnique(x, h, 2 * q, r);
    } else {
      assert x == h * (2 * q + 1) + (r - h);
      ModUnique(x, h, 2 * q + 1, r - h);
    }
  }

  /** Cutting the modulus to a third. */
  lemma ModThird(x: nat, h: nat)
    requires h > 0
    ensures x % (3 * h) == x % h || x % (3 * h) == x % h + h || x % (3 * h) == x % h + 2 * h
  {
    var q, r := x / (3 * h), x % (3 * h);
    assert x == (3 * h) * q + r;
    if r < h {
      ModUnique(x, h, 3 * q, r);
    } else if r < 2 * h {
      assert x == h * (3 * q + 1) + (r - h);
      ModUnique(x, h, 3 * q + 1, r - h);
    } else {
      assert x == h * (3 * q + 2) + (r - 2 * h);
      ModUnique(x, h, 3 * q + 2, r - 2 * h);
    }
  }

  /** Quotient and remainder are determined by the division equation. */
  lemma ModUnique(x: int, d: int, q: int, r: int)
    requires d > 0 && x == d * q + r && 0 <= r < d
    ensures x / d == q && x % d == r
  {
    var q', r' := x / d, x % d;
    var diff := q - q';
    assert d * diff == d * q - d * q';
    assert d * diff == r' - r;
    if diff >= 1 {
      MulAtLeast(d, diff);
    } else if diff <= -1 {
      MulAtLeast(d, -diff);
    }
  }

  lemma MulAtLeast(d: int, k: int)
    requires d > 0 && k >= 1
    ensures d * k >= d
  {
  }
}
