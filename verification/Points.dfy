/** Chain evaluation in an arbitrary abelian group, in both directions, and plain double-and-add. */
module Points {
  import opened Powers
  import opened Limbs
  import opened Residues
  import opened Chains
  import opened Digits
  import opened BinaryChains
  import opened Builders

  /** The point operations that the evaluators call. */
  datatype Group<!G> = Group(zero: G, add: (G, G) -> G, neg: G -> G) {
    function Dbl(p: G): G {
      add(p, p)
    }

    function Tpl(p: G): G {
      add(add(p, p), p)
    }
  }

  ghost predicate IsAbelian<G(!new)>(g: Group<G>) {
    && (forall x, y, z :: g.add(g.add(x, y), z) == g.add(x, g.add(y, z)))
    && (forall x, y :: g.add(x, y) == g.add(y, x))
    && (forall x :: g.add(x, g.zero) == x)
    && (forall x :: g.add(x, g.neg(x)) == g.zero)
  }

  /** k * a. */
  function Mul<G>(g: Group<G>, k: int, a: G): G
    decreases if k < 0 then -k else k
  {
    if k == 0 then g.zero
    else if k > 0 then g.add(Mul(g, k - 1, a), a)
    else g.add(Mul(g, k + 1, a), g.neg(a))
  }

  lemma Assoc<G(!new)>(g: Group<G>, x: G, y: G, z: G)
    requires IsAbelian(g)
    ensures g.add(g.add(x, y), z) == g.add(x, g.add(y, z))
  {
  }

  lemma Inverse<G(!new)>(g: Group<G>, x: G)
    requires IsAbelian(g)
    ensures g.add(x, g.neg(x)) == g.zero && g.add(g.neg(x), x) == g.zero
    ensures g.add(x, g.zero) == x && g.add(g.zero, x) == x
  {
    assert g.add(g.neg(x), x) == g.add(x, g.neg(x));
    assert g.add(g.zero, x) == g.add(x, g.zero);
  }

  lemma MulSteps<G(!new)>(g: Group<G>, k: int, a: G)
    requires IsAbelian(g)
    ensures g.add(Mul(g, k, a), a) == Mul(g, k + 1, a)
    ensures g.add(Mul(g, k, a), g.neg(a)) == Mul(g, k - 1, a)
  {
    hide IsAbelian;
    Inverse(g, a);
    if k < 0 {
      Assoc(g, Mul(g, k + 1, a), g.neg(a), a);
      Inverse(g, Mul(g, k + 1, a));
    } else if k > 0 {
      Assoc(g, Mul(g, k - 1, a), a, g.neg(a));
      Inverse(g, Mul(g, k - 1, a));
    }
  }

  /** Multiples of one point add like integers. */
  lemma {:induction false} MulAdd<G(!new)>(g: Group<G>, k: int, m: int, a: G)
    requires IsAbelian(g)
    ensures g.add(Mul(g, k, a), Mul(g, m, a)) == Mul(g, k + m, a)
    decreases if m < 0 then -m else m
  {
    hide IsAbelian;
    if m > 0 {
      MulAdd(g, k, m - 1, a);
      MulSteps(g, k + m - 1, a);
      Assoc(g, Mul(g, k, a), Mul(g, m - 1, a), a);
    } else if m < 0 {
      MulAdd(g, k, m + 1, a);
      MulSteps(g, k + m + 1, a);
      Assoc(g, Mul(g, k, a), Mul(g, m + 1, a), g.neg(a));
    } else {
      Inverse(g, Mul(g, k, a));
    }
  }

  lemma MulOps<G(!new)>(g: Group<G>, k: int, a: G)
    requires IsAbelian(g)
    ensures g.Dbl(Mul(g, k, a)) == Mul(g, 2 * k, a)
    ensures g.Tpl(Mul(g, k, a)) == Mul(g, 3 * k, a)
    ensures g.neg(Mul(g, k, a)) == Mul(g, -k, a)
    ensures Mul(g, 1, a) == a && Mul(g, -1, a) == g.neg(a)
  {
    hide IsAbelian;
    MulAdd(g, k, k, a);
    MulAdd(g, 2 * k, k, a);
    MulAdd(g, k, -k, a);
    NegUnique(g, Mul(g, k, a), Mul(g, -k, a));
    MulSteps(g, 0, a);
    Inverse(g, a);
    Inverse(g, g.neg(a));
  }

  lemma NegUnique<G(!new)>(g: Group<G>, x: G, y: G)
    requires IsAbelian(g) && g.add(x, y) == g.zero
    ensures g.neg(x) == y
  {
    hide IsAbelian;
    Assoc(g, g.neg(x), x, y);
    Inverse(g, x);
    Inverse(g, y);
    Inverse(g, g.neg(x));
  }

  /** What the left-to-right evaluator reads: it takes the leading sign for a plus. */
  function PlusLead(c: Chain): Chain
    requires c.Term?
  {
    Term(Node(c.head.dbl, c.head.tpl, false), c.rest)
  }

  /** A chain of a positive number starts with a plus, so nothing is lost. */
  lemma PositiveKeepsLead(c: Chain)
    requires IsChain(c) && Value(c) > 0
    ensures c.Term? && PlusLead(c) == c
  {
    LeadingTerm(c);
  }

  /** Exponents never rise from term to term: all that evaluation needs, and all that the greedy chains offer. */
  predicate Descends(c: Chain) {
    c.Term? && c.rest.Term? ==>
      c.rest.head.dbl <= c.head.dbl && c.rest.head.tpl <= c.head.tpl && Descends(c.rest)
  }

  lemma {:induction false} ChainDescends(c: Chain)
    requires IsChain(c)
    ensures Descends(c)
  {
    if c.Term? {
      ChainDescends(c.rest);
    }
  }

  /** The next term's exponents are within reach. */
  ghost predicate Reaches(d: Chain, dbl: nat, tpl: nat) {
    d.Term? ==> Descends(d) && d.head.dbl <= dbl && d.head.tpl <= tpl
  }

  /**
    `DBC_POINT_mul`, left to right: Horner evaluation of `DBC_store[minIndex]`. The ghost results count
    the operations of its loops, which at 70, 126 and 150 each are what the chain costs.
   */
  method DbcPointMul<G(!new)>(g: Group<G>, store: Builder, minIndex: nat, a: G, ghost c: Chain)
    returns (r: G, ghost dbls: nat, ghost tpls: nat, ghost adds: nat)
    requires IsAbelian(g) && store.Shape() && minIndex < 2 && store.Stored(minIndex, c)
    requires c.Term? && Descends(c)
    ensures r == Mul(g, Value(PlusLead(c)), a)
    ensures 70 * dbls + 126 * tpls + 150 * adds == Cost(c)
  {
    hide IsAbelian, Pow23, Mul;
    CostInNumbers(c);
    dbls, tpls, adds := 0, 0, 0;
    var invertA := g.neg(a);
    r := g.add(a, a);
    r := g.add(r, invertA);
    StartPoint(g, a);
    var nowDbl: int, nowTpl: int := store.dbcStore[minIndex, 0].dbl, store.dbcStore[minIndex, 0].tpl;
    assert Terms(c)[0] == c.head;
    ghost var v, d := 1, c.rest;
    var i := 1;
    while i < store.dbcLen[minIndex]
      invariant 1 <= i <= Size(c) && Terms(d) == Terms(c)[i..] && Size(d) == Size(c) - i
      invariant nowDbl >= 0 && nowTpl >= 0 && Reaches(d, nowDbl, nowTpl)
      invariant r == Mul(g, v, a)
      invariant dbls == c.head.dbl - nowDbl && tpls == c.head.tpl - nowTpl && adds == i - 1
      invariant v * Pow23(nowDbl, nowTpl) + Value(d) == Value(PlusLead(c))
    {
      var entry := store.dbcStore[minIndex, i];
      assert Terms(c)[i] == Terms(c)[i..][0] == d.head;
      ghost var dblSteps, tplSteps;
      r, nowDbl, nowTpl, v, dblSteps, tplSteps := StepDown(g, r, nowDbl, nowTpl, entry.dbl, entry.tpl, a, v);
      dbls, tpls := dbls + dblSteps, tpls + tplSteps;
      MulSteps(g, v, a);
      if entry.sign == -1 {
        r := g.add(r, invertA);
        Distribute3(v, -1, Pow23(nowDbl, nowTpl));
        v := v - 1;
      } else {
        r := g.add(r, a);
        Distribute3(v, 1, Pow23(nowDbl, nowTpl));
        v := v + 1;
      }
      assert Terms(d)[1..] == Terms(c)[i + 1..];
      d := d.rest;
      adds := adds + 1;
      i := i + 1;
    }
    ghost var dblSteps, tplSteps;
    r, nowDbl, nowTpl, v, dblSteps, tplSteps := StepDown(g, r, nowDbl, nowTpl, 0, 0, a, v);
    dbls, tpls := dbls + dblSteps, tpls + tplSteps;
    UnitPower();
  }

  /** Doublings while the exponent of two is too large, then triplings. */
  method StepDown<G(!new)>(g: Group<G>, p: G, dblIn: nat, tplIn: nat, dbl: nat, tpl: nat, ghost a: G, ghost vIn: int)
    returns (r: G, nowDbl: nat, nowTpl: nat, ghost v: int, ghost dbls: nat, ghost tpls: nat)
    requires IsAbelian(g) && p == Mul(g, vIn, a) && dbl <= dblIn && tpl <= tplIn
    ensures nowDbl == dbl && nowTpl == tpl && dbls == dblIn - dbl && tpls == tplIn - tpl
    ensures r == Mul(g, v, a) && v * Pow23(dbl, tpl) == vIn * Pow23(dblIn, tplIn)
  {
    hide IsAbelian, Pow23, Mul;
    r, nowDbl, nowTpl, v := p, dblIn, tplIn, vIn;
    dbls, tpls := 0, 0;
    while nowDbl > dbl || nowTpl > tpl
      invariant dbl <= nowDbl && tpl <= nowTpl && dbls == dblIn - nowDbl && tpls == tplIn - nowTpl
      invariant r == Mul(g, v, a) && v * Pow23(nowDbl, nowTpl) == vIn * Pow23(dblIn, tplIn)
      decreases nowDbl + nowTpl
    {
      MulOps(g, v, a);
      if nowDbl > dbl {
        r := g.Dbl(r);
        dbls := dbls + 1;
        DoubleStep(nowDbl - 1, nowTpl);
        Shift(v, 2, Pow23(nowDbl - 1, nowTpl));
        v := 2 * v;
        nowDbl := nowDbl - 1;
      } else {
        r := g.Tpl(r);
        tpls := tpls + 1;
        TripleStep(nowDbl, nowTpl);
        Shift(v, 3, Pow23(nowDbl, nowTpl - 1));
        v := 3 * v;
        nowTpl := nowTpl - 1;
      }
    }
  }

  lemma StartPoint<G(!new)>(g: Group<G>, a: G)
    requires IsAbelian(g)
    ensures g.add(g.add(a, a), g.neg(a)) == a == Mul(g, 1, a)
  {
    MulOps(g, 1, a);
    MulOps(g, 2, a);
    MulAdd(g, 2, -1, a);
  }

  lemma Shift(v: int, k: int, p: int)
    ensures (k * v) * p == v * (k * p)
  {
  }

  lemma Distribute3(v: int, s: int, p: int)
    ensures (v + s) * p == v * p + s * p
  {
  }

  lemma UnitPower()
    ensures Pow23(0, 0) == 1
  {
  }

  /** The last `size` terms of a chain. */
  function Last(c: Chain, size: nat): (d: Chain)
    requires size <= Size(c)
    ensures Size(d) == size
  {
    if Size(c) == size then c else Last(c.rest, size)
  }

  lemma {:induction false} LastGrows(c: Chain, size: nat)
    requires size < Size(c)
    ensures Last(c, size + 1).Term? && Last(c, size + 1).rest == Last(c, size)
    ensures Terms(c)[Size(c) - 1 - size] == Last(c, size + 1).head
  {
    if Size(c) > size + 1 {
      LastGrows(c.rest, size);
      assert Terms(c)[Size(c) - 1 - size] == Terms(c.rest)[Size(c.rest) - 1 - size];
    }
  }

  lemma {:induction false} LastDescends(c: Chain, size: nat)
    requires Descends(c) && size <= Size(c)
    ensures Descends(Last(c, size))
  {
    if Size(c) > size {
      LastDescends(c.rest, size);
    }
  }

  /** The chain of the last i terms, with the next larger term put on top. */
  lemma LastStep(c: Chain, i: nat)
    requires Descends(c) && i < Size(c)
    ensures var x, d, e := Terms(c)[Size(c) - 1 - i], Last(c, i), Last(c, i + 1);
      && e.Term? && e.head == x
      && Value(e) == Signed(x) + Value(d)
      && (i == 0 ==> Value(d) == 0)
      && (i > 0 ==> d.Term? && d.head.dbl <= x.dbl && d.head.tpl <= x.tpl)
  {
    LastGrows(c, i);
    LastDescends(c, i + 1);
  }

  lemma LastAll(c: Chain)
    ensures Last(c, Size(c)) == c && (c.Empty? <==> Size(c) == 0)
  {
  }

  /** `DBC_POINT_mul`, right to left: the running multiple of the point grows, signed copies are summed. */
  method DbcPointMulRightToLeft<G(!new)>(g: Group<G>, store: Builder, rIn: G, a: G, ghost c: Chain) returns (r: G)
    requires IsAbelian(g) && store.Shape() && store.Listed(c) && Descends(c)
    requires store.wMin.length == Size(c)
    ensures r == if store.wMin.isNull || c.Empty? then rIn else Mul(g, Value(c), a)
  {
    hide IsAbelian, Pow23, Mul, Last, Value, Size, Terms, Descends;
    r := rIn;
    var multPoints := g.add(a, a);
    multPoints := g.neg(multPoints);
    multPoints := g.add(multPoints, a);
    multPoints := g.neg(multPoints);
    StartPointInverted(g, a);
    UnitPower();
    LastAll(c);
    var nowDbl, nowTpl := 0, 0;
    if store.wMin.isNull || store.wMin.length == 0 {
      return;
    }
    var first := true;
    var i := 0;
    while i < store.wMin.length
      invariant 0 <= i <= Size(c) && (first <==> i == 0)
      invariant nowDbl >= 0 && nowTpl >= 0 && multPoints == Mul(g, Pow23(nowDbl, nowTpl), a)
      invariant i > 0 ==> r == Mul(g, Value(Last(c, i)), a)
      invariant i > 0 ==> Last(c, i).Term? && Last(c, i).head.dbl == nowDbl && Last(c, i).head.tpl == nowTpl
      invariant i == 0 ==> nowDbl == 0 && nowTpl == 0
    {
      var x := store.nowDbc[i];
      LastStep(c, i);
      multPoints, nowDbl, nowTpl := StepUp(g, multPoints, nowDbl, nowTpl, x.dbl, x.tpl, a);
      ghost var p: int := Pow23(nowDbl, nowTpl);
      ghost var s := if x.minus then -p else p;
      MulOps(g, p, a);
      MulOps(g, -p, a);
      if x.minus {
        multPoints := g.neg(multPoints);
      }
      if first {
        r := multPoints;
        first := false;
      } else {
        MulAdd(g, Value(Last(c, i)), s, a);
        r := g.add(r, multPoints);
      }
      if x.minus {
        multPoints := g.neg(multPoints);
      }
      i := i + 1;
    }
  }

  /** Doublings, then triplings, of the running point up to the next term. */
  method StepUp<G(!new)>(g: Group<G>, p: G, dblIn: nat, tplIn: nat, dbl: nat, tpl: nat, ghost a: G)
    returns (r: G, nowDbl: nat, nowTpl: nat)
    requires IsAbelian(g) && p == Mul(g, Pow23(dblIn, tplIn), a) && dblIn <= dbl && tplIn <= tpl
    ensures nowDbl == dbl && nowTpl == tpl && r == Mul(g, Pow23(dbl, tpl), a)
  {
    hide IsAbelian, Pow23, Mul;
    r, nowDbl, nowTpl := p, dblIn, tplIn;
    while nowDbl < dbl || nowTpl < tpl
      invariant nowDbl <= dbl && nowTpl <= tpl && r == Mul(g, Pow23(nowDbl, nowTpl), a)
      decreases dbl - nowDbl + tpl - nowTpl
    {
      MulOps(g, Pow23(nowDbl, nowTpl), a);
      if nowDbl < dbl {
        r := g.Dbl(r);
        DoubleStep(nowDbl, nowTpl);
        nowDbl := nowDbl + 1;
      } else {
        r := g.Tpl(r);
        TripleStep(nowDbl, nowTpl + 1);
        nowTpl := nowTpl + 1;
      }
    }
  }

  lemma StartPointInverted<G(!new)>(g: Group<G>, a: G)
    requires IsAbelian(g)
    ensures g.neg(g.add(g.neg(g.add(a, a)), a)) == a == Mul(g, 1, a)
  {
    MulOps(g, 1, a);
    MulOps(g, 2, a);
    MulAdd(g, -2, 1, a);
    MulOps(g, -1, a);
  }

  /**
    `binary_POINT_mul`: doubles the point and adds it in for every set bit, from the lowest.
    The returned value, times ten, is the cost of the binary chain plus one doubling and one addition.
   */
  method BinaryPointMul<G(!new)>(g: Group<G>, rIn: G, a: G, scalar: nat) returns (r: G, ttv: int)
    requires IsAbelian(g)
    ensures r == g.add(rIn, Mul(g, scalar, a))
    ensures scalar == 0 ==> ttv == 0
    ensures forall bits: nat :: 0 < scalar < Pow23(bits, 0) ==>
              10 * ttv == Cost(BinaryChain(scalar, bits)) + DBL_COST + ADD_COST
  {
    hide IsAbelian, Pow23, Mul, BinaryChain, Cost, Halved;
    ttv := 0;
    var n := scalar;
    var multPoints := a;
    r := rIn;
    ghost var k, sum: nat := 0, 0;
    BinaryStart(g, rIn, a, scalar);
    while n != 0
      invariant Halved(scalar, k, n, sum, ttv)
      invariant multPoints == Mul(g, Pow23(k, 0), a) && r == g.add(rIn, Mul(g, sum, a))
      decreases n
    {
      ghost var p := Pow23(k, 0);
      HalvedStep(scalar, k, n, sum, ttv);
      if n % 2 != 0 {
        MulAdd(g, sum, p, a);
        Assoc(g, rIn, Mul(g, sum, a), Mul(g, p, a));
        r := g.add(r, multPoints);
        sum := sum + p;
        ttv := ttv + 15;
      }
      MulOps(g, p, a);
      multPoints := g.Dbl(multPoints);
      ttv := ttv + 7;
      n := n / 2;
      k := k + 1;
    }
    HalvedEnd(scalar, k, sum, ttv);
  }

  /** After k halvings: the bits taken out so far, the rest, and what they cost. */
  ghost predicate Halved(v: nat, k: nat, n: nat, sum: nat, ttv: int) {
    && n == v / Pow23(k, 0)
    && sum + n * Pow23(k, 0) == v
    && ttv == 15 * Size(BinaryChain(v, k)) + 7 * k
    && (k > 0 ==> v >= Pow23(k - 1, 0))
    && (n == 0 ==> v < Pow23(k, 0))
  }

  lemma BinaryStart<G(!new)>(g: Group<G>, rIn: G, a: G, n: nat)
    requires IsAbelian(g)
    ensures Halved(n, 0, n, 0, 0) && a == Mul(g, Pow23(0, 0), a) && rIn == g.add(rIn, Mul(g, 0, a))
  {
    hide IsAbelian;
    Inverse(g, rIn);
    MulOps(g, 1, a);
    assert Pow23(0, 0) == 1;
  }

  /** One bit of the double-and-add loop. */
  lemma HalvedStep(v: nat, k: nat, n: nat, sum: nat, ttv: int)
    requires Halved(v, k, n, sum, ttv) && n > 0
    ensures Pow23(k + 1, 0) == 2 * Pow23(k, 0)
    ensures n % 2 != 0 ==> Halved(v, k + 1, n / 2, sum + Pow23(k, 0), ttv + 22)
    ensures n % 2 == 0 ==> Halved(v, k + 1, n / 2, sum, ttv + 7)
  {
    var p := Pow23(k, 0);
    DoubleStep(k, 0);
    DivDiv(v, p, 2);
    BinaryStep(v, k, n);
  }

  lemma BinaryStep(v: nat, k: nat, n: nat)
    requires n == v / Pow23(k, 0) && n > 0
    ensures Size(BinaryChain(v, k + 1)) == Size(BinaryChain(v, k)) + n % 2
    ensures n * Pow23(k, 0) == (n % 2) * Pow23(k, 0) + (n / 2) * Pow23(k + 1, 0)
    ensures v >= Pow23(k, 0)
    ensures n / 2 == 0 ==> v < Pow23(k + 1, 0)
  {
    var p := Pow23(k, 0);
    DoubleStep(k, 0);
    Shift(n / 2, 2, p);
    Distribute3(2 * (n / 2), n % 2, p);
    var q := ModSplit(v, p);
    DivIs(v, p, q);
    MulMonotoneLeft(1, n, p);
    if n / 2 == 0 {
      assert n == 1;
    }
  }

  lemma HalvedEnd(v: nat, k: nat, sum: nat, ttv: int)
    requires Halved(v, k, 0, sum, ttv)
    ensures sum == v && (v == 0 ==> ttv == 0)
    ensures forall bits: nat :: 0 < v < Pow23(bits, 0) ==>
              10 * ttv == Cost(BinaryChain(v, bits)) + DBL_COST + ADD_COST
  {
    if k == 0 {
      assert Pow23(0, 0) == 1;
    }
    forall bits: nat | 0 < v < Pow23(bits, 0)
      ensures 10 * ttv == Cost(BinaryChain(v, bits)) + DBL_COST + ADD_COST
    {
      BinaryLength(v, k, bits);
    }
  }
}
