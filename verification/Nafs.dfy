/** The non-adjacent form: its digits, its minimal weight, and its use in a scalar multiplication. */
module Nafs {
  import opened Powers
  import opened Chains
  import opened CostOptimality
  import opened Points

  /** Digits -1, 0, 1, least significant first. */
  predicate IsSigned(d: seq<int>) {
    forall i :: 0 <= i < |d| ==> -1 <= d[i] <= 1
  }

  function SignedValue(d: seq<int>): int {
    if |d| == 0 then 0 else d[0] + 2 * SignedValue(d[1..])
  }

  /** The number of nonzero digits. */
  function Weight(d: seq<int>): nat {
    if |d| == 0 then 0 else (if d[0] == 0 then 0 else 1) + Weight(d[1..])
  }

  /** The digit pushed for n: 0 for an even number, else the one that makes the rest even. */
  function Digit(n: int): (r: int)
    ensures -1 <= r <= 1 && (r == 0 <==> n % 2 == 0)
  {
    if n % 2 == 0 then 0
    else
      OddResidue(n);
      2 - n % 4
  }

  lemma OddResidue(n: int)
    requires n % 2 != 0
    ensures n % 4 == 1 || n % 4 == 3
  {
    var q, r := n / 4, n % 4;
    assert n == 4 * q + r;
    if r == 0 {
      ModUnique(n, 2, 2 * q, 0);
    } else if r == 2 {
      ModUnique(n, 2, 2 * q + 1, 0);
    }
  }

  /** What is left after the digit is taken off and the rest halved. */
  function Rest(n: int): (r: int)
    ensures n == 2 * r + Digit(n)
    ensures Digit(n) != 0 ==> r % 2 == 0
    ensures n > 0 ==> 0 <= r < n
    ensures n < 0 ==> n < r <= 0
  {
    RestFacts(n);
    (n - Digit(n)) / 2
  }

  lemma RestFacts(n: int)
    ensures n == 2 * ((n - Digit(n)) / 2) + Digit(n)
    ensures Digit(n) != 0 ==> ((n - Digit(n)) / 2) % 2 == 0
  {
    var q, r := n / 4, n % 4;
    if r == 0 {
      ModUnique(n, 2, 2 * q, 0);
    } else if r == 1 {
      ModUnique(n, 2, 2 * q, 1);
      ModUnique(n - 1, 2, 2 * q, 0);
      ModUnique(2 * q, 2, q, 0);
    } else if r == 2 {
      ModUnique(n, 2, 2 * q + 1, 0);
    } else {
      ModUnique(n, 2, 2 * q + 1, 1);
      ModUnique(n + 1, 2, 2 * q + 2, 0);
      ModUnique(2 * q + 2, 2, q + 1, 0);
    }
  }

  /** The digits in the order the conversion pushes them. */
  function Naf(n: nat): (d: seq<int>)
    ensures n > 0 ==> |d| > 0
  {
    if n == 0 then [] else [Digit(n)] + Naf(Rest(n))
  }

  /** The conversion's digits: the right value, no two adjacent nonzero, leading digit 1. */
  lemma {:induction false} NafIsNonAdjacent(n: nat)
    ensures SignedValue(Naf(n)) == n && IsSigned(Naf(n))
    ensures forall i :: 0 <= i < |Naf(n)| - 1 ==> Naf(n)[i] == 0 || Naf(n)[i + 1] == 0
    ensures n > 0 ==> Naf(n)[|Naf(n)| - 1] == 1
  {
    if n > 0 {
      hide Digit, Rest;
      var m := Rest(n);
      NafIsNonAdjacent(m);
      var d := Naf(n);
      assert d == [Digit(n)] + Naf(m) && d[1..] == Naf(m);
      FirstDigit(m);
      forall i | 0 <= i < |d| - 1
        ensures d[i] == 0 || d[i + 1] == 0
      {
        if i > 0 {
          assert Naf(m)[i - 1] == 0 || Naf(m)[i] == 0;
        }
      }
      if m > 0 {
        assert d[|d| - 1] == Naf(m)[|Naf(m)| - 1];
      }
    }
  }

  lemma FirstDigit(m: nat)
    ensures m > 0 && m % 2 == 0 ==> Naf(m)[0] == 0
  {
  }

  /** The weight of the non-adjacent form, for negative numbers too. */
  function NafWeight(n: int): nat
    decreases if n < 0 then -n else n
  {
    if n == 0 then 0 else (if Digit(n) == 0 then 0 else 1) + NafWeight(Rest(n))
  }

  lemma {:induction false} NafHasNafWeight(n: nat)
    ensures Weight(Naf(n)) == NafWeight(n)
  {
    hide Digit, Rest;
    if n > 0 {
      NafHasNafWeight(Rest(n));
      assert Naf(n)[1..] == Naf(Rest(n));
    }
  }

  lemma EvenWeight(k: int)
    ensures NafWeight(2 * k) == NafWeight(k)
  {
    hide Rest;
    if k != 0 {
      assert (2 * k) % 2 == 0;
      assert Rest(2 * k) == k;
    }
  }

  lemma OddWeight(k: int)
    ensures k % 2 == 0 ==> NafWeight(2 * k + 1) == 1 + NafWeight(k)
    ensures k % 2 != 0 ==> NafWeight(2 * k + 1) == 1 + NafWeight(k + 1)
  {
    hide Rest, Digit;
    var n := 2 * k + 1;
    assert Digit(n) == 1 || Digit(n) == -1;
    assert Rest(n) == k || Rest(n) == k + 1;
  }

  /** Neighbours differ by at most one, and an even number is never the heavier of a pair. */
  lemma {:induction false} NeighbourWeights(n: int)
    ensures NafWeight(n + 1) <= NafWeight(n) + 1 && NafWeight(n) <= NafWeight(n + 1) + 1
    ensures n % 2 == 0 ==> NafWeight(n) <= NafWeight(n + 1)
    ensures n % 2 != 0 ==> NafWeight(n + 1) <= NafWeight(n)
    decreases if n < 0 then -n else n
  {
    hide NafWeight;
    var k := n / 2;
    EvenWeight(k);
    EvenWeight(k + 1);
    OddWeight(k);
    if n != 0 && n != -1 {
      NeighbourWeights(k);
    }
  }

  /** No signed-binary representation of a number has fewer nonzero digits. */
  lemma {:induction false} NafIsLightest(d: seq<int>)
    requires IsSigned(d)
    ensures NafWeight(SignedValue(d)) <= Weight(d)
  {
    if |d| > 0 {
      hide NafWeight;
      NafIsLightest(d[1..]);
      LightStep(d[0], SignedValue(d[1..]));
    }
  }

  lemma LightStep(digit: int, v: int)
    requires -1 <= digit <= 1
    ensures NafWeight(digit + 2 * v) <= NafWeight(v) + (if digit == 0 then 0 else 1)
  {
    hide NafWeight;
    NeighbourWeights(2 * v);
    NeighbourWeights(2 * v - 1);
    EvenWeight(v);
  }

  function Reversed(d: seq<int>): (r: seq<int>)
    ensures |r| == |d|
    ensures forall i :: 0 <= i < |d| ==> r[i] == d[|d| - 1 - i]
  {
    if |d| == 0 then [] else Reversed(d[1..]) + [d[0]]
  }

  lemma NoDigits()
    ensures Naf(0) == []
  {
  }

  /** One turn of the conversion loop takes the digit off and halves. */
  lemma OneDigit(n: nat)
    requires n > 0
    ensures n % 2 == 0 ==> Digit(n) == 0 && n / 2 == Rest(n)
    ensures n % 2 != 0 ==> Digit(n) == 2 - n as int % 4
    ensures n % 2 != 0 ==> n + (if 2 - n as int % 4 > 0 then -1 else 1) >= 0
    ensures n % 2 != 0 ==> Rest(n) == (if 2 - n as int % 4 > 0 then n - 1 else n + 1) / 2
    ensures Naf(n) == [Digit(n)] + Naf(Rest(n))
  {
  }

  /** `int_to_naf`: the digits are pushed lowest first and the vector is reversed at the end. */
  method IntToNaf(scalar: nat) returns (naf: seq<int>)
    ensures naf == if scalar == 0 then [0] else Reversed(Naf(scalar))
  {
    hide Naf, Digit, Rest;
    if scalar == 0 {
      return [0];
    }
    NoDigits();
    var n := scalar;
    var digits: seq<int> := [];
    while n != 0
      invariant digits + Naf(n) == Naf(scalar)
      decreases n
    {
      OneDigit(n);
      assert digits + Naf(n) == (digits + [Digit(n)]) + Naf(Rest(n));
      if n % 2 == 0 {
        digits := digits + [0];
      } else {
        var ni := 2 - n as int % 4;
        digits := digits + [ni];
        n := if ni > 0 then n - 1 else n + 1;
      }
      n := n / 2;
    }
    naf := Reversed(digits);
  }

  /** The value of the leading digits, most significant first. */
  function Horner(d: seq<int>): int {
    if |d| == 0 then 0 else 2 * Horner(d[..|d| - 1]) + d[|d| - 1]
  }

  lemma {:induction false} HornerReversed(d: seq<int>)
    ensures Horner(Reversed(d)) == SignedValue(d)
  {
    if |d| > 0 {
      HornerReversed(d[1..]);
      assert Reversed(d)[..|d| - 1] == Reversed(d[1..]);
    }
  }

  /** Nonzero digits among the first n. */
  function WeightUpTo(d: seq<int>, n: nat): nat
    requires n <= |d|
  {
    if n == 0 then 0 else WeightUpTo(d, n - 1) + (if d[n - 1] == 0 then 0 else 1)
  }

  lemma {:induction false} WeightReversed(d: seq<int>)
    ensures WeightUpTo(Reversed(d), |d|) == Weight(d)
  {
    if |d| > 0 {
      WeightReversed(d[1..]);
      WeightPrefix(Reversed(d[1..]), [d[0]], |d| - 1);
    }
  }

  lemma {:induction false} WeightPrefix(d: seq<int>, e: seq<int>, n: nat)
    requires n <= |d|
    ensures WeightUpTo(d + e, n) == WeightUpTo(d, n)
  {
    if n > 0 {
      WeightPrefix(d, e, n - 1);
    }
  }

  /**
    `NAF_POINT_mul`: starts from the point itself, so it is right for every scalar but zero,
    where it returns the point. The returned value charges 7 a doubling and 15 an addition.
   */
  method NafPointMul<G(!new)>(g: Group<G>, a: G, scalar: nat) returns (r: G, ttv: int)
    requires IsAbelian(g)
    ensures r == Mul(g, if scalar == 0 then 1 else scalar, a)
    ensures scalar > 0 ==> ttv == 7 * (|Naf(scalar)| - 1) + 15 * (Weight(Naf(scalar)) - 1)
  {
    hide IsAbelian, Mul, Naf, Horner, WeightUpTo;
    var invertG := g.neg(a);
    r := a;
    MulOps(g, 1, a);
    var naf := IntToNaf(scalar);
    NafStart(scalar, naf);
    ttv := 0;
    var i := 1;
    while i < |naf|
      invariant 1 <= i <= |naf|
      invariant scalar > 0 ==> r == Mul(g, Horner(naf[..i]), a)
      invariant scalar == 0 ==> r == Mul(g, 1, a) && |naf| == 1
      invariant ttv == 7 * (i - 1) + 15 * (WeightUpTo(naf, i) - WeightUpTo(naf, 1))
    {
      ghost var v := Horner(naf[..i]);
      HornerStep(naf, i);
      MulOps(g, v, a);
      MulSteps(g, 2 * v, a);
      r := g.Dbl(r);
      ttv := ttv + 7;
      if naf[i] == 1 {
        r := g.add(r, a);
        ttv := ttv + 15;
      }
      if naf[i] == -1 {
        r := g.add(r, invertG);
        ttv := ttv + 15;
      }
      i := i + 1;
    }
    assert naf[..|naf|] == naf;
  }

  lemma HornerStep(naf: seq<int>, i: nat)
    requires i < |naf| && IsSigned(naf)
    ensures Horner(naf[..i + 1]) == 2 * Horner(naf[..i]) + naf[i] && -1 <= naf[i] <= 1
    ensures WeightUpTo(naf, i + 1) == WeightUpTo(naf, i) + (if naf[i] == 0 then 0 else 1)
  {
    assert naf[..i + 1][..i] == naf[..i];
  }

  lemma NafStart(n: nat, naf: seq<int>)
    requires naf == if n == 0 then [0] else Reversed(Naf(n))
    ensures |naf| > 0 && IsSigned(naf)
    ensures n > 0 ==> |naf| == |Naf(n)| && Horner(naf) == n && WeightUpTo(naf, |naf|) == Weight(Naf(n))
    ensures n > 0 ==> Horner(naf[..1]) == 1 && WeightUpTo(naf, 1) == 1
  {
    if n > 0 {
      NafIsNonAdjacent(n);
      HornerReversed(Naf(n));
      WeightReversed(Naf(n));
      assert naf[0] == 1;
      assert naf[..1][..0] == [];
      assert WeightUpTo(naf, 1) == WeightUpTo(naf, 0) + 1;
    }
  }

  /** The first k digits as a chain of signed powers of two. */
  function DigitChain(d: seq<int>, k: nat): Chain
    requires k <= |d|
  {
    if k == 0 then Empty
    else if d[k - 1] == 0 then DigitChain(d, k - 1)
    else Term(Node(k - 1, 0, d[k - 1] < 0), DigitChain(d, k - 1))
  }

  /** Sum of the first k digits at their places. */
  function PlaceValue(d: seq<int>, k: nat): int
    requires k <= |d|
  {
    if k == 0 then 0 else PlaceValue(d, k - 1) + d[k - 1] * Pow23(k - 1, 0)
  }

  lemma {:induction false} DigitChainFacts(d: seq<int>, k: nat)
    requires IsSigned(d) && k <= |d|
    ensures Below(DigitChain(d, k), k, 0)
    ensures Value(DigitChain(d, k)) == PlaceValue(d, k)
    ensures Size(DigitChain(d, k)) == WeightUpTo(d, k)
  {
    if k > 0 {
      DigitChainFacts(d, k - 1);
      BelowWeaken(DigitChain(d, k - 1), k - 1, 0, k, 0);
    }
  }

  /** Reading the digits from below or by place gives the same number and the same weight. */
  lemma {:induction false} PlacesAgree(d: seq<int>, k: nat)
    requires k <= |d|
    ensures PlaceValue(d, k) + Pow23(k, 0) * SignedValue(d[k..]) == SignedValue(d)
    ensures WeightUpTo(d, k) + Weight(d[k..]) == Weight(d)
  {
    if k == 0 {
      assert d[0..] == d && Pow23(0, 0) == 1;
    } else {
      PlacesAgree(d, k - 1);
      assert d[k - 1..][1..] == d[k..];
      PlaceStep(Pow23(k - 1, 0), d[k - 1], SignedValue(d[k..]));
      assert Pow23(k, 0) == 2 * Pow23(k - 1, 0);
    }
  }

  lemma PlaceStep(p: nat, d: int, v: int)
    ensures p * (d + 2 * v) == d * p + (2 * p) * v
  {
  }

  /** The non-adjacent form is a double-base chain without triplings, and costs what its multiplication does. */
  lemma NafChain(n: nat) returns (c: Chain)
    requires n > 0
    ensures IsChainOf(c, n)
    ensures Cost(c) == DBL_COST * (|Naf(n)| - 1) + ADD_COST * (Weight(Naf(n)) - 1)
  {
    var d := Naf(n);
    var k := |d|;
    NafIsNonAdjacent(n);
    c := DigitChain(d, k);
    DigitChainFacts(d, k);
    PlacesAgree(d, k);
    assert d[k..] == [];
    assert c.head == Node(k - 1, 0, false);
  }
}
