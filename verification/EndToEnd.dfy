/** From the scalar to the point, and the optimal chain against the other recodings. */
module EndToEnd {
  import opened Powers
  import opened Limbs
  import opened BigInts
  import opened Chains
  import opened CostOptimality
  import opened Bounds
  import opened BinaryChains
  import opened PowerTables
  import opened Builders
  import opened LostCarry
  import opened Points
  import opened Nafs
  import opened GreedyLimbs
  import opened Searches
  import Subtraction

  /** No double-base chain of n is cheaper than c. */
  ghost predicate IsOptimal(c: Chain, n: int) {
    IsChainOf(c, n) && forall d :: IsChainOf(d, n) ==> Cost(c) <= Cost(d)
  }

  /**
    `getOptimalDBC(n)` followed by `DBC_POINT_mul`: the exported chain's multiple of a. That is n * a,
    by a cheapest chain, when tripling 2n loses no carry. An empty chain cannot be evaluated.
   */
  method MultiplyOptimal<G(!new)>(g: Group<G>, builder: Builder, n: BigInt, log2B: nat, log3B: nat, a: G)
    returns (r: G, ghost c: Chain)
    requires IsAbelian(g) && builder.Valid() && builder.Scalar(n) && FitsIn(n.Val(), builder.ints)
    requires IsLog2(n.Val(), log2B) && IsLog3(n.Val(), log3B)
    requires builder.SixN(n.data[..]) >= 6
    modifies builder.w, builder.w_, builder`wMin, builder`written, builder.nowDbc, builder.bBound
    modifies builder.dbcStore, builder.dbcLen, builder.recordOuter.data, builder.tempOuter.data
    ensures builder.Valid() && builder.Stored(0, c) && c.Term? && r == Mul(g, Value(c), a)
    ensures Value(c) == n.Val() <==> builder.TriplingExact(n.data[..]) || builder.BinaryWins(n.Val(), builder.SixN(n.data[..]))
    ensures builder.TriplingExact(n.data[..]) ==> IsOptimal(c, n.Val()) && r == Mul(g, n.Val(), a)
  {
    hide IsAbelian, BigInt.Val, FitsIn, IsLog2, IsLog3, Builder.Valid, Builder.TriplingExact, Builder.Chosen, Builder.BinaryWins;
    var index;
    ghost var s := n.data[..];
    NumberIs(n);
    ShapeOfValid(builder);
    index, c := builder.GetOptimalDbc(n, log2B, log3B);
    ExportFacts(builder, s, c);
    ghost var dbls, tpls, adds;
    r, dbls, tpls, adds := DbcPointMul(g, builder, index, a, c);
  }

  /** The same, with the right-to-left evaluation of `now_DBC`, which leaves r alone when the chain is empty. */
  method MultiplyOptimalRightToLeft<G(!new)>(g: Group<G>, builder: Builder, n: BigInt, log2B: nat, log3B: nat, rIn: G, a: G)
    returns (r: G, ghost c: Chain)
    requires IsAbelian(g) && builder.Valid() && builder.Scalar(n) && FitsIn(n.Val(), builder.ints)
    requires IsLog2(n.Val(), log2B) && IsLog3(n.Val(), log3B)
    modifies builder.w, builder.w_, builder`wMin, builder`written, builder.nowDbc, builder.bBound
    modifies builder.dbcStore, builder.dbcLen, builder.recordOuter.data, builder.tempOuter.data
    ensures builder.Valid() && builder.Listed(c) && (c.Empty? <==> builder.SixN(n.data[..]) < 6)
    ensures r == if c.Empty? then rIn else Mul(g, Value(c), a)
    ensures Value(c) == n.Val() <==> builder.TriplingExact(n.data[..]) || builder.BinaryWins(n.Val(), builder.SixN(n.data[..]))
    ensures builder.TriplingExact(n.data[..]) ==> IsOptimal(c, n.Val()) && r == Mul(g, n.Val(), a)
  {
    hide IsAbelian, BigInt.Val, FitsIn, IsLog2, IsLog3, Builder.Valid, Builder.TriplingExact, Builder.Chosen, Builder.BinaryWins;
    var index;
    ghost var s := n.data[..];
    NumberIs(n);
    ShapeOfValid(builder);
    index, c := builder.GetOptimalDbc(n, log2B, log3B);
    ExportFacts(builder, s, c);
    r := DbcPointMulRightToLeft(g, builder, rIn, a, c);
  }

  /** What both evaluators need of the exported chain, and when it is one of n. */
  lemma ExportFacts(builder: Builder, s: seq<Limb>, c: Chain)
    requires builder.Shape() && |s| == builder.ints && FitsIn(LimbValue(s), builder.ints)
    requires builder.Chosen(c, LimbValue(s), builder.SixN(s))
    ensures Value(c) == LimbValue(s) <==> builder.TriplingExact(s) || builder.BinaryWins(LimbValue(s), builder.SixN(s))
    ensures Descends(c) && (c.Empty? <==> builder.SixN(s) < 6) && (c.Term? ==> PlusLead(c) == c)
    ensures c.Empty? ==> Value(c) != LimbValue(s)
  {
    hide FitsIn, Builder.TriplingExact, Builder.BinaryWins, LimbValue, BinaryChain, MulSmall, Cost;
    builder.RightValueExactly(c, s);
    EmptyExport(builder, s, c);
    PositiveScalar(LimbValue(s), builder.ints);
    ChainDescends(c);
    Pow23Positive(LimbValue(s), builder.ints);
    BinaryIsChain(LimbValue(s), MaxDbl(builder.ints));
    if c.Term? {
      PositiveKeepsLead(c);
    }
  }

  lemma NumberIs(n: BigInt)
    ensures n.Val() == LimbValue(n.data[..])
  {
  }

  lemma PositiveScalar(n: nat, ints: nat)
    requires FitsIn(n, ints)
    ensures n > 0
  {
  }

  lemma ShapeOfValid(builder: Builder)
    requires builder.Valid()
    ensures builder.Shape()
  {
  }

  /** `compute_TTV(index)`: 7 for a doubling, 12.6 for a tripling, 15 for an addition; a tenth of the cost of the stored chain. */
  method ComputeTtv(builder: Builder, index: nat, ghost c: Chain) returns (ttv: real)
    requires builder.Shape() && index < 2 && builder.Stored(index, c) && c.Term?
    ensures 10.0 * ttv == (70 * c.head.dbl + 126 * c.head.tpl + 150 * (Size(c) - 1)) as real == Cost(c) as real
  {
    CostInNumbers(c);
    assert Terms(c)[0] == c.head;
    ttv := ((builder.dbcLen[index] - 1) * 15) as real + (builder.dbcStore[index, 0].dbl * 7) as real
      + builder.dbcStore[index, 0].tpl as real * 12.6;
  }

  /** The optimal chain never costs more than the NAF multiplication, and always less than double-and-add. */
  lemma OptimalBeatsOthers(n: nat, c: Chain, bits: nat)
    requires n > 0 && IsOptimal(c, n) && n < Pow23(bits, 0)
    ensures Cost(c) <= DBL_COST * (|Naf(n)| - 1) + ADD_COST * (Weight(Naf(n)) - 1)
    ensures Cost(c) <= Cost(BinaryChain(n, bits))
  {
    var d := NafChain(n);
    BinaryIsChain(n, bits);
  }

  /** The three theoretical times of one scalar, compared as the benchmark prints them. */
  method CompareTimes<G(!new)>(g: Group<G>, builder: Builder, index: nat, ghost c: Chain, scalar: nat, r: G, a: G)
    returns (optimal: real, naf: int, binary: int)
    requires IsAbelian(g) && builder.Shape() && index < 2 && builder.Stored(index, c)
    requires scalar > 0 && IsOptimal(c, scalar)
    ensures optimal * 10.0 == Cost(c) as real
    ensures naf == 7 * (|Naf(scalar)| - 1) + 15 * (Weight(Naf(scalar)) - 1)
    ensures forall bits: nat :: scalar < Pow23(bits, 0) ==>
              10 * binary == Cost(BinaryChain(scalar, bits)) + 70 + 150
    ensures optimal <= naf as real && optimal < binary as real
  {
    hide IsAbelian, Mul, Naf;
    ghost var bits := BitsOf(scalar);
    OptimalBeatsOthers(scalar, c, bits);
    PositiveKeepsLead(c);
    optimal := ComputeTtv(builder, index, c);
    var p, q;
    p, naf := NafPointMul(g, a, scalar);
    q, binary := BinaryPointMul(g, r, a, scalar);
    assert Cost(c) <= 10 * naf && Cost(c) + DBL_COST + ADD_COST <= 10 * binary;
  }

  /** Some number of bits is enough. */
  ghost function BitsOf(n: nat): (bits: nat)
    ensures n < Pow23(bits, 0)
  {
    if n == 0 then 0 else BitsOf(n - 1) + 1
  }

  /** Both evaluation directions give the same point on every chain of a positive number. */
  method EvaluateBothWays<G(!new)>(g: Group<G>, builder: Builder, index: nat, rIn: G, a: G, ghost c: Chain)
    returns (leftToRight: G, rightToLeft: G)
    requires IsAbelian(g) && builder.Shape() && index < 2
    requires builder.Stored(index, c) && builder.Listed(c) && builder.wMin.length == Size(c) && !builder.wMin.isNull
    requires IsChain(c) && Value(c) > 0
    ensures leftToRight == rightToLeft == Mul(g, Value(c), a)
  {
    hide IsAbelian;
    PositiveKeepsLead(c);
    ChainDescends(c);
    ghost var dbls, tpls, adds;
    leftToRight, dbls, tpls, adds := DbcPointMul(g, builder, index, a, c);
    rightToLeft := DbcPointMulRightToLeft(g, builder, rIn, a, c);
  }

  /**
    `getSubOptimalDBC(n, k)` or `getEOSDBC(n)`, followed by `DBC_POINT_mul` on the returned slot.
    The multiple of the point is n, up to a multiple of 2^64 that only spurious borrows leave.
   */
  method MultiplyGreedy<G(!new)>(g: Group<G>, store: Builder, n: BigInt, starts: seq<(nat, nat)>, window: nat, limit: int, a: G)
    returns (r: G, ghost c: Chain)
    requires IsAbelian(g) && store.Shape() && store.powers.Exact() && n.data.Length == store.ints && FitsIn(n.Val(), store.ints)
    requires |starts| > 0 && window >= 2 && store.dbcStore[1, 0].dbl >= 0 && store.dbcStore[1, 0].tpl >= 0
    requires forall i :: 0 <= i < |starts| ==> IsStart(n.Val(), starts[i]) && InPowerTable(store.ints, starts[i].0, starts[i].1)
    requires AllStore(n.data[..], starts, window, store.dbcStore.Length1, Generated(limit, |starts|))
    modifies store.dbcStore, store.dbcLen
    ensures r == Mul(g, Value(c), a) && Value(c) == n.Val() - Drift(c, n.data[..])
    ensures Value(c) % Subtraction.TWO_LIMBS == n.Val() % Subtraction.TWO_LIMBS
    ensures exists i :: 0 <= i < |starts| && (i == 0 || i <= limit)
              && Stores(n.data[..], starts[i], window, store.dbcStore.Length1) == Some(c)
    ensures AllBorrowFree(n.Val(), starts, window, store.ints, Generated(limit, |starts|)) ==> r == Mul(g, n.Val(), a)
  {
    hide IsAbelian, FitsIn, Stores, IsStart, Mul, MinCost, TournamentCost, InPowerTable, StartBorrowFree, BigInt.Val, Tables.Exact;
    hide Builder.Stored;
    var index;
    ghost var s, v, room := n.data[..], n.Val(), store.dbcStore.Length1;
    NumberIs(n);
    index, c := Search(store, n, starts, window, limit);
    ghost var i :| 0 <= i < |starts| && (i == 0 || i <= limit) && Stores(s, starts[i], window, room) == Some(c);
    StoredFacts(s, starts[i], window, room);
    if AllBorrowFree(v, starts, window, store.ints, Generated(limit, |starts|)) {
      ExactChainStored(s, starts[i], window, room);
    }
    ghost var dbls, tpls, adds;
    r, dbls, tpls, adds := DbcPointMul(g, store, index, a, c);
  }

  /** None of the first `count` starts borrows spuriously on its way. */
  predicate AllBorrowFree(n: nat, starts: seq<(nat, nat)>, window: nat, ints: nat, count: nat)
    requires window >= 2 && forall i :: 0 <= i < |starts| ==> IsStart(n, starts[i])
  {
    forall i :: 0 <= i < count && i < |starts| ==> StartBorrowFree(n, starts[i], window, ints)
  }

  /** Then every run ends within its row, so the search may be called, and every chain is one of n. */
  lemma BorrowFreeStores(n: seq<Limb>, starts: seq<(nat, nat)>, window: nat, count: nat)
    requires FitsIn(LimbValue(n), |n|) && window >= 2 && forall i :: 0 <= i < |starts| ==> IsStart(LimbValue(n), starts[i])
    requires SafeScalar(LimbValue(n), |n|) || AllBorrowFree(LimbValue(n), starts, window, |n|, count)
    ensures AllBorrowFree(LimbValue(n), starts, window, |n|, count)
    ensures AllStore(n, starts, window, MaxDbl(|n|), count)
  {
    hide FitsIn, Stores, IsStart, SafeScalar, StartBorrowFree, LimbValue;
    forall i | 0 <= i < count && i < |starts|
      ensures StartBorrowFree(LimbValue(n), starts[i], window, |n|) && Stores(n, starts[i], window, MaxDbl(|n|)).Some?
    {
      if SafeScalar(LimbValue(n), |n|) {
        SafeIsBorrowFree(LimbValue(n), |n|, starts[i], window);
      }
      ExactChainStored(n, starts[i], window, MaxDbl(|n|));
    }
  }
}
