/** `operator-` on limb sequences: which results its borrow heuristic gets wrong, and by how much. */
module Subtraction {
  import opened Limbs

  /** 2^64. */
  const TWO_LIMBS: nat := 0x1_0000_0000_0000_0000

  /** x modulo 2^32, for a difference of limbs. */
  function Wrap(x: int): (r: Limb)
    requires -0x1_0000_0000 <= x < BASE
    ensures r == if x < 0 then x + BASE else x
  {
    if x < 0 then x + BASE else x
  }

  /** The borrow the routine takes out of limb i: 0 or 1. */
  function Borrow(a: seq<Limb>, b: seq<Limb>, i: nat): (r: nat)
    requires |a| == |b| && i < |a|
    ensures r <= 1
    decreases |a| - i, 0
  {
    if i == |a| - 1 then 0
    else if i == |a| - 2 then (if a[i + 1] < b[i + 1] then 1 else 0)
    else
      var d := Decremented(a, b, i + 1);
      if d < b[i + 1] || d == 0xFFFF_FFFF then 1 else 0
  }

  /** Limb i of the minuend after the borrow was taken. */
  function Decremented(a: seq<Limb>, b: seq<Limb>, i: nat): Limb
    requires |a| == |b| && i < |a|
    decreases |a| - i, 1
  {
    Wrap(a[i] - Borrow(a, b, i))
  }

  function Minus(a: seq<Limb>, b: seq<Limb>): (r: seq<Limb>)
    requires |a| == |b|
    ensures |r| == |a|
  {
    seq(|a|, i requires 0 <= i < |a| => Wrap(Decremented(a, b, i) - b[i]))
  }

  /** An interior limb of all ones that nothing was borrowed from is taken for an underflow. */
  predicate SpuriousBorrow(a: seq<Limb>, b: seq<Limb>, i: nat)
    requires |a| == |b| && i < |a|
  {
    1 <= i <= |a| - 2 && a[i] == 0xFFFF_FFFF && Borrow(a, b, i) == 0
  }

  predicate NoneSpurious(a: seq<Limb>, b: seq<Limb>)
    requires |a| == |b|
  {
    forall i :: 0 <= i < |a| ==> !SpuriousBorrow(a, b, i)
  }

  /** What the spurious borrows among the first n limbs cost. */
  function SpuriousValue(a: seq<Limb>, b: seq<Limb>, n: nat): nat
    requires |a| == |b| && n <= |a|
  {
    if n == 0 then 0
    else SpuriousValue(a, b, n - 1) * BASE + (if SpuriousBorrow(a, b, n - 1) then BASE else 0)
  }

  /** The true borrow out of limb i, given what was taken from it. */
  function TrueBorrow(a: seq<Limb>, b: seq<Limb>, i: nat): (r: nat)
    requires |a| == |b| && i < |a|
    ensures r <= 1
  {
    if a[i] - Borrow(a, b, i) < b[i] then 1 else 0
  }

  lemma LimbDifference(a: seq<Limb>, b: seq<Limb>, i: nat)
    requires |a| == |b| && i < |a|
    ensures Minus(a, b)[i] == a[i] - Borrow(a, b, i) - b[i] + TrueBorrow(a, b, i) * BASE
    ensures i > 0 ==> Borrow(a, b, i - 1) == TrueBorrow(a, b, i) + (if SpuriousBorrow(a, b, i) then 1 else 0)
  {
  }

  lemma {:induction false} MinusPrefix(a: seq<Limb>, b: seq<Limb>, i: nat)
    requires |a| == |b| && 0 < i <= |a|
    ensures LimbValue(Minus(a, b)[..i]) == LimbValue(a[..i]) - LimbValue(b[..i]) - Borrow(a, b, i - 1)
              - SpuriousValue(a, b, i) + (if TrueBorrow(a, b, 0) == 1 then BasePow(i) else 0)
  {
    hide Borrow, TrueBorrow, Minus, SpuriousBorrow, LimbValue;
    LimbDifference(a, b, i - 1);
    PrefixValue(Minus(a, b), i - 1);
    PrefixValue(a, i - 1);
    PrefixValue(b, i - 1);
    if i > 1 {
      MinusPrefix(a, b, i - 1);
    } else {
      NotSpuriousAtTop(a, b);
      assert BasePow(1) == BASE * BasePow(0);
      EmptyValue(a);
      EmptyValue(b);
      EmptyValue(Minus(a, b));
    }
  }

  lemma EmptyValue(s: seq<Limb>)
    ensures LimbValue(s[..0]) == 0
  {
  }

  lemma NotSpuriousAtTop(a: seq<Limb>, b: seq<Limb>)
    requires |a| == |b| && 0 < |a|
    ensures !SpuriousBorrow(a, b, 0)
  {
  }

  lemma {:induction false} SpuriousBound(a: seq<Limb>, b: seq<Limb>, n: nat)
    requires |a| == |b| && 0 < n <= |a|
    ensures SpuriousValue(a, b, n) < BasePow(n)
    ensures SpuriousValue(a, b, n) == 0 <==> forall i :: 0 <= i < n ==> !SpuriousBorrow(a, b, i)
  {
    hide SpuriousBorrow;
    NotSpuriousAtTop(a, b);
    assert SpuriousValue(a, b, 0) == 0;
    if n > 1 {
      SpuriousBound(a, b, n - 1);
    }
  }

  /** The exact difference, modulo 2^(32 n): off by the spurious borrows. */
  lemma MinusValue(a: seq<Limb>, b: seq<Limb>)
    requires |a| == |b| && |a| >= 2
    ensures LimbValue(Minus(a, b)) == LimbValue(a) - LimbValue(b) - SpuriousValue(a, b, |a|)
              + (if TrueBorrow(a, b, 0) == 1 then BasePow(|a|) else 0)
  {
    MinusPrefix(a, b, |a|);
    assert Minus(a, b)[..|a|] == Minus(a, b) && a[..|a|] == a && b[..|a|] == b;
  }

  /** With a >= b, `operator-` is right exactly when there is no spurious borrow. */
  lemma MinusExact(a: seq<Limb>, b: seq<Limb>)
    requires |a| == |b| && |a| >= 2 && LimbValue(a) >= LimbValue(b)
    ensures LimbValue(Minus(a, b)) == LimbValue(a) - LimbValue(b)
      <==> NoneSpurious(a, b)
  {
    hide Minus, SpuriousBorrow, TrueBorrow, Borrow, LimbValue;
    MinusValue(a, b);
    SpuriousBound(a, b, |a|);
    ValueBound(Minus(a, b));
  }

  /** What the difference of a >= b comes out short by; negative when it wraps around. */
  function Excess(a: seq<Limb>, b: seq<Limb>): int
    requires |a| == |b|
  {
    var lost := SpuriousValue(a, b, |a|);
    if LimbValue(a) - LimbValue(b) < lost then lost - BasePow(|a|) else lost
  }

  /** Nothing is borrowed spuriously below the last but one limb, so all the damage is above 2^64. */
  lemma MinusExcess(a: seq<Limb>, b: seq<Limb>)
    requires |a| == |b| && |a| >= 2 && LimbValue(a) >= LimbValue(b)
    ensures LimbValue(Minus(a, b)) == LimbValue(a) - LimbValue(b) - Excess(a, b)
    ensures Excess(a, b) == 0 <==> NoneSpurious(a, b)
    ensures Excess(a, b) % TWO_LIMBS == 0
  {
    hide Minus, SpuriousBorrow, TrueBorrow, Borrow, LimbValue, BasePow, SpuriousValue;
    MinusValue(a, b);
    SpuriousBound(a, b, |a|);
    ValueBound(a);
    ValueBound(Minus(a, b));
    SpuriousAbove(a, b);
    BasePowAbove(|a|);
  }

  lemma SpuriousAbove(a: seq<Limb>, b: seq<Limb>)
    requires |a| == |b| && |a| >= 2
    ensures SpuriousValue(a, b, |a|) % TWO_LIMBS == 0
  {
    hide SpuriousBorrow;
    var n := |a|;
    LastNotSpurious(a, b);
    var k := SpuriousValue(a, b, n - 2) + (if SpuriousBorrow(a, b, n - 2) then 1 else 0);
    assert SpuriousValue(a, b, n - 1) == k * BASE;
    assert SpuriousValue(a, b, n) == k * BASE * BASE;
    MultipleOfTwoLimbs(k);
  }

  lemma BasePowAbove(n: nat)
    requires n >= 2
    ensures BasePow(n) % TWO_LIMBS == 0
  {
    assert BasePow(n) == BASE * BasePow(n - 1) && BasePow(n - 1) == BASE * BasePow(n - 2);
    MultipleOfTwoLimbs(BasePow(n - 2));
  }

  lemma MultipleOfTwoLimbs(k: int)
    ensures (k * BASE * BASE) % TWO_LIMBS == 0
  {
    assert k * BASE * BASE == k * TWO_LIMBS;
  }

  lemma LastNotSpurious(a: seq<Limb>, b: seq<Limb>)
    requires |a| == |b| && |a| >= 2
    ensures !SpuriousBorrow(a, b, |a| - 1)
  {
  }

  /** 0x1_FFFFFFFF_00000000 - 0 comes out as 0xFFFFFFFF_00000000. */
  lemma MinusCounterexample()
    ensures var a: seq<Limb> := [1, 0xFFFF_FFFF, 0]; var b: seq<Limb> := [0, 0, 0];
      SpuriousBorrow(a, b, 1) && Minus(a, b) == [0, 0xFFFF_FFFF, 0]
  {
  }
}
