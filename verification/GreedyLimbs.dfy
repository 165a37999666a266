/**
  The greedy loop as it runs, on limbs: remainders come from `operator-`, spurious borrows and
  all. What the loop stores, what that is worth, and exactly when it follows the exact run.
 */
module GreedyLimbs {
  import opened Powers
  import opened Limbs
  import opened Chains
  import opened Greedy
  import Subtraction

  datatype Option<T> = None | Some(value: T)

  /** A stored power, as `pow23_all` holds it. */
  function PowerLimbs(b: nat, t: nat, n: nat): (s: seq<Limb>)
    ensures |s| == n
  {
    LimbsOf(Pow23(b, t), n)
  }

  /** The next remainder: the smaller of t and the term is subtracted from the larger. */
  function Remainder(t: seq<Limb>, p: seq<Limb>): (r: seq<Limb>)
    requires |t| == |p|
    ensures |r| == |t|
  {
    if LimbValue(t) >= LimbValue(p) then Subtraction.Minus(t, p) else Subtraction.Minus(p, t)
  }

  /** The subtraction of one step meets no spurious borrow. */
  predicate BorrowsRight(t: seq<Limb>, p: seq<Limb>)
    requires |t| == |p|
  {
    if LimbValue(t) >= LimbValue(p) then Subtraction.NoneSpurious(t, p) else Subtraction.NoneSpurious(p, t)
  }

  /** What spurious borrows take from the remainder of one step. */
  function Excess(t: seq<Limb>, p: seq<Limb>): int
    requires |t| == |p|
  {
    if LimbValue(t) >= LimbValue(p) then Subtraction.Excess(t, p) else Subtraction.Excess(p, t)
  }

  lemma RemainderValue(t: seq<Limb>, p: seq<Limb>)
    requires |t| == |p| >= 2
    ensures LimbValue(Remainder(t, p)) == Dist(LimbValue(t), LimbValue(p)) - Excess(t, p)
    ensures Excess(t, p) == 0 <==> BorrowsRight(t, p)
    ensures Excess(t, p) % Subtraction.TWO_LIMBS == 0
  {
    hide LimbValue, Subtraction.Minus, Subtraction.NoneSpurious, Subtraction.Excess;
    if LimbValue(t) >= LimbValue(p) {
      Subtraction.MinusExcess(t, p);
    } else {
      Subtraction.MinusExcess(p, t);
    }
  }

  /** A run of the loop on limbs that keeps the exponents from rising, whatever term it picks. */
  ghost predicate IsRun(c: Chain, minus: bool, t: seq<Limb>, a: nat, b: nat) {
    if c.Empty? then LimbValue(t) == 0
    else
      var p := PowerLimbs(c.head.dbl, c.head.tpl, |t|);
      && LimbValue(t) > 0 && c.head.minus == minus && c.head.dbl <= a && c.head.tpl <= b
      && IsRun(c.rest, if LimbValue(t) >= LimbValue(p) then minus else !minus, Remainder(t, p), c.head.dbl, c.head.tpl)
  }

  /** What the spurious borrows of a whole run add up to, each with the sign of its remainder. */
  function Drift(c: Chain, t: seq<Limb>): int {
    if c.Empty? then 0
    else
      var p := PowerLimbs(c.head.dbl, c.head.tpl, |t|);
      var minus := if LimbValue(t) >= LimbValue(p) then c.head.minus else !c.head.minus;
      (if minus then -Excess(t, p) else Excess(t, p)) + Drift(c.rest, Remainder(t, p))
  }

  /** No step of the run borrows spuriously. */
  predicate BorrowsRightAlong(c: Chain, t: seq<Limb>) {
    c.Term? ==>
      var p := PowerLimbs(c.head.dbl, c.head.tpl, |t|);
      BorrowsRight(t, p) && BorrowsRightAlong(c.rest, Remainder(t, p))
  }

  lemma PowerFits(b: nat, t: nat, b': nat, t': nat, n: nat)
    requires b <= b' && t <= t' && Pow23(b', t') < BasePow(n)
    ensures Pow23(b, t) < BasePow(n) && LimbValue(PowerLimbs(b, t, n)) == Pow23(b, t)
  {
    Pow23Monotone(b, t, b', t');
    LimbsOfValue(Pow23(b, t), n);
  }

  /** A run that ends has stored a chain of n, up to what its spurious borrows add up to. */
  lemma {:induction false} RunIsSound(c: Chain, minus: bool, t: seq<Limb>, a: nat, b: nat)
    requires IsRun(c, minus, t, a, b) && |t| >= 2 && Pow23(a, b) < BasePow(|t|)
    ensures Value(c) == (if minus then 0 - LimbValue(t) else LimbValue(t)) - Drift(c, t)
    ensures BorrowsRightAlong(c, t) ==> Drift(c, t) == 0
    ensures StaysBelow(c, a, b)
  {
    hide Pow23, LimbValue, PowerLimbs, Remainder, BorrowsRight, Excess, BasePow;
    if c.Term? {
      var p := PowerLimbs(c.head.dbl, c.head.tpl, |t|);
      PowerFits(c.head.dbl, c.head.tpl, a, b, |t|);
      RemainderValue(t, p);
      RunIsSound(c.rest, if LimbValue(t) >= LimbValue(p) then minus else !minus, Remainder(t, p), c.head.dbl, c.head.tpl);
    }
  }

  /** Spurious borrows only ever take multiples of 2^64. */
  lemma {:induction false} DriftIsWhole(c: Chain, t: seq<Limb>)
    requires |t| >= 2
    ensures Drift(c, t) % Subtraction.TWO_LIMBS == 0
  {
    hide LimbValue, PowerLimbs, Remainder, BorrowsRight, Excess;
    if c.Term? {
      var p := PowerLimbs(c.head.dbl, c.head.tpl, |t|);
      RemainderValue(t, p);
      DriftIsWhole(c.rest, Remainder(t, p));
      WholeMultiples(Excess(t, p), Drift(c.rest, Remainder(t, p)));
    }
  }

  lemma WholeMultiples(x: int, y: int)
    requires x % Subtraction.TWO_LIMBS == 0 && y % Subtraction.TWO_LIMBS == 0
    ensures (x + y) % Subtraction.TWO_LIMBS == 0 && (-x + y) % Subtraction.TWO_LIMBS == 0
  {
  }

  /** What the loop stores from a remainder on, or None if it asks for more than `room` entries. */
  function Loop(minus: bool, t: seq<Limb>, a: nat, b: nat, window: nat, room: nat): Option<Chain>
    decreases room
  {
    if LimbValue(t) == 0 then Some(Empty)
    else if room == 0 then None
    else
      var (x, y) := Select(LimbValue(t), a, b, window);
      var p := PowerLimbs(x, y, |t|);
      var rest := Loop(if LimbValue(t) >= LimbValue(p) then minus else !minus, Remainder(t, p), x, y, window, room - 1);
      if rest.None? then None else Some(Term(Node(x, y, minus), rest.value))
  }

  lemma SelectBelow(t: nat, a: nat, b: nat, window: nat)
    ensures var (x, y) := Select(t, a, b, window); x <= a && y <= b
  {
    SelectIsNearest(t, a, b, window);
  }

  lemma {:induction false} LoopIsRun(minus: bool, t: seq<Limb>, a: nat, b: nat, window: nat, room: nat)
    requires Loop(minus, t, a, b, window, room).Some?
    ensures var c := Loop(minus, t, a, b, window, room).value;
      && IsRun(c, minus, t, a, b) && Size(c) <= room
      && (LimbValue(t) > 0 ==> c.Term?)
    decreases room
  {
    hide Pow23, LimbValue, PowerLimbs, Remainder, Select;
    if LimbValue(t) > 0 {
      var (x, y) := Select(LimbValue(t), a, b, window);
      var p := PowerLimbs(x, y, |t|);
      SelectBelow(LimbValue(t), a, b, window);
      LoopIsRun(if LimbValue(t) >= LimbValue(p) then minus else !minus, Remainder(t, p), x, y, window, room - 1);
    }
  }

  /** No step of the exact run from t asks `operator-` for a difference that it gets wrong. */
  predicate BorrowFree(t: nat, a: nat, b: nat, window: nat, n: nat)
    requires t < 2 * Pow23(a, b) && window >= 2
    decreases a + b, t
  {
    t == 0 ||
    (SelectStep(t, a, b, window);
     var (x, y) := Select(t, a, b, window);
     BorrowsRight(LimbsOf(t, n), PowerLimbs(x, y, n)) && BorrowFree(Dist(t, Pow23(x, y)), x, y, window, n))
  }

  /** The loop's remainder and bounds after k steps, as it computes them ... */
  function After(t: seq<Limb>, a: nat, b: nat, window: nat, k: nat): (seq<Limb>, nat, nat)
    decreases k
  {
    if k == 0 || LimbValue(t) == 0 then (t, a, b)
    else
      var (x, y) := Select(LimbValue(t), a, b, window);
      After(Remainder(t, PowerLimbs(x, y, |t|)), x, y, window, k - 1)
  }

  /** ... and as they would be with exact subtraction. */
  function ExactAfter(t: nat, a: nat, b: nat, window: nat, k: nat): (nat, nat, nat)
    decreases k
  {
    if k == 0 || t == 0 then (t, a, b)
    else
      var (x, y) := Select(t, a, b, window);
      ExactAfter(Dist(t, Pow23(x, y)), x, y, window, k - 1)
  }

  /** One step of the loop, next to the exact one. */
  lemma StepExactly(t: seq<Limb>, a: nat, b: nat, window: nat)
    requires 0 < LimbValue(t) < 2 * Pow23(a, b) && Pow23(a, b) < BasePow(|t|) && |t| >= 2 && window >= 2
    ensures var (x, y) := Select(LimbValue(t), a, b, window);
      var p := PowerLimbs(x, y, |t|);
      && x <= a && y <= b && LimbValue(p) == Pow23(x, y) < BasePow(|t|)
      && Dist(LimbValue(t), Pow23(x, y)) < 2 * Pow23(x, y)
      && LimbsOf(LimbValue(t), |t|) == t
      && (LimbValue(Remainder(t, p)) == Dist(LimbValue(t), Pow23(x, y)) <==> BorrowsRight(t, p))
  {
    hide Pow23, LimbValue, Remainder, BorrowsRight, Select, PowerLimbs, LimbsOf, BasePow, Excess, Dist, IsNearest;
    var v := LimbValue(t);
    SelectStep(v, a, b, window);
    var (x, y) := Select(v, a, b, window);
    PowerFits(x, y, a, b, |t|);
    LimbsOfUnique(t);
    RemainderValue(t, PowerLimbs(x, y, |t|));
  }

  lemma {:induction false} BorrowFreeAgrees(t: seq<Limb>, a: nat, b: nat, window: nat, k: nat)
    requires LimbValue(t) < 2 * Pow23(a, b) && Pow23(a, b) < BasePow(|t|) && |t| >= 2 && window >= 2
    requires BorrowFree(LimbValue(t), a, b, window, |t|)
    ensures var (r, x, y) := After(t, a, b, window, k); ExactAfter(LimbValue(t), a, b, window, k) == (LimbValue(r), x, y)
    decreases k
  {
    hide Pow23, LimbValue, Remainder, BorrowsRight, Select, PowerLimbs, LimbsOf, BasePow, Dist;
    if k > 0 && LimbValue(t) > 0 {
      StepExactly(t, a, b, window);
      var (x, y) := Select(LimbValue(t), a, b, window);
      BorrowFreeAgrees(Remainder(t, PowerLimbs(x, y, |t|)), x, y, window, k - 1);
    }
  }

  /** The step after which a run with a spurious borrow holds a wrong remainder. */
  lemma {:induction false} FirstWrongStep(t: seq<Limb>, a: nat, b: nat, window: nat) returns (k: nat)
    requires LimbValue(t) < 2 * Pow23(a, b) && Pow23(a, b) < BasePow(|t|) && |t| >= 2 && window >= 2
    requires !BorrowFree(LimbValue(t), a, b, window, |t|)
    ensures LimbValue(After(t, a, b, window, k).0) != ExactAfter(LimbValue(t), a, b, window, k).0
    decreases a + b, LimbValue(t)
  {
    hide Pow23, LimbValue, Remainder, BorrowsRight, Select, PowerLimbs, LimbsOf, BasePow, Dist;
    var v := LimbValue(t);
    StepExactly(t, a, b, window);
    var (x, y) := Select(v, a, b, window);
    var p := PowerLimbs(x, y, |t|);
    if BorrowsRight(t, p) {
      SelectStep(v, a, b, window);
      k := FirstWrongStep(Remainder(t, p), x, y, window);
      k := k + 1;
    } else {
      k := 1;
      assert After(Remainder(t, p), x, y, window, 0).0 == Remainder(t, p);
    }
  }

  /** The computed remainders are all the exact ones if and only if no step borrows spuriously. */
  lemma RemaindersExactly(t: seq<Limb>, a: nat, b: nat, window: nat)
    requires LimbValue(t) < 2 * Pow23(a, b) && Pow23(a, b) < BasePow(|t|) && |t| >= 2 && window >= 2
    ensures (forall k: nat :: LimbValue(After(t, a, b, window, k).0) == ExactAfter(LimbValue(t), a, b, window, k).0)
      <==> BorrowFree(LimbValue(t), a, b, window, |t|)
  {
    hide Pow23, LimbValue, After, ExactAfter, BorrowFree, BasePow;
    if BorrowFree(LimbValue(t), a, b, window, |t|) {
      forall k: nat
        ensures LimbValue(After(t, a, b, window, k).0) == ExactAfter(LimbValue(t), a, b, window, k).0
      {
        BorrowFreeAgrees(t, a, b, window, k);
      }
    } else {
      var k := FirstWrongStep(t, a, b, window);
    }
  }

  /** Without a spurious borrow the loop stores the exact greedy chain. */
  lemma {:induction false} BorrowFreeLoop(minus: bool, t: seq<Limb>, a: nat, b: nat, window: nat, room: nat)
    requires LimbValue(t) < 2 * Pow23(a, b) && Pow23(a, b) < BasePow(|t|) && |t| >= 2 && window >= 2
    requires BorrowFree(LimbValue(t), a, b, window, |t|)
    requires Size(GreedyChain(minus, LimbValue(t), a, b, window)) <= room
    ensures Loop(minus, t, a, b, window, room) == Some(GreedyChain(minus, LimbValue(t), a, b, window))
    decreases room
  {
    hide Pow23, LimbValue, Remainder, BorrowsRight, Select, PowerLimbs, LimbsOf, BasePow, Dist;
    if LimbValue(t) > 0 {
      StepExactly(t, a, b, window);
      var (x, y) := Select(LimbValue(t), a, b, window);
      var p := PowerLimbs(x, y, |t|);
      BorrowFreeLoop(if LimbValue(t) >= LimbValue(p) then minus else !minus, Remainder(t, p), x, y, window, room - 1);
    }
  }

  /** With two limbs there is no limb to borrow from spuriously. */
  lemma {:induction false} TwoLimbsBorrowFree(t: nat, a: nat, b: nat, window: nat)
    requires t < 2 * Pow23(a, b) && window >= 2
    ensures BorrowFree(t, a, b, window, 2)
    decreases a + b, t
  {
    hide Pow23, LimbValue, Select, PowerLimbs, LimbsOf, Dist;
    if t > 0 {
      SelectStep(t, a, b, window);
      var (x, y) := Select(t, a, b, window);
      TwoLimbsBorrowFree(Dist(t, Pow23(x, y)), x, y, window);
    }
  }

  lemma {:induction false} SmallLimb(v: nat, n: nat, i: nat)
    requires i < n && v < 0xFFFF_FFFF
    ensures LimbsOf(v, n)[i] < 0xFFFF_FFFF
  {
    if i < n - 1 {
      SmallLimb(v / BASE, n - 1, i);
    }
  }

  lemma SmallInterior(v: nat, n: nat, i: nat)
    requires i + 1 < n && v < 0xFFFF_FFFF_0000_0000
    ensures LimbsOf(v, n)[i] < 0xFFFF_FFFF
  {
    SmallLimb(v / BASE, n - 1, i);
  }

  /** Below 2^64 - 2^32 no limb but the last can be all ones. */
  lemma {:induction false} SmallBorrowFree(t: nat, a: nat, b: nat, window: nat, n: nat)
    requires t < 2 * Pow23(a, b) && window >= 2
    requires t < 0xFFFF_FFFF_0000_0000 && Pow23(a, b) < 0xFFFF_FFFF_0000_0000
    ensures BorrowFree(t, a, b, window, n)
    decreases a + b, t
  {
    hide Pow23, LimbValue, Select, LimbsOf, Dist;
    if t > 0 {
      SelectStep(t, a, b, window);
      var (x, y) := Select(t, a, b, window);
      Pow23Monotone(x, y, a, b);
      forall i | 0 <= i < n - 1
        ensures LimbsOf(t, n)[i] < 0xFFFF_FFFF && PowerLimbs(x, y, n)[i] < 0xFFFF_FFFF
      {
        SmallInterior(t, n, i);
        SmallInterior(Pow23(x, y), n, i);
      }
      SmallBorrowFree(Dist(t, Pow23(x, y)), x, y, window, n);
    }
  }
}
