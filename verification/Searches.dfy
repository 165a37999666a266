/** The two-slot tournament of the greedy builders, over the shared `DBC_store`. */
module Searches {
  import opened Powers
  import opened Limbs
  import opened BigInts
  import opened Chains
  import opened Bounds
  import opened BinaryChains
  import opened Builders
  import opened Points
  import opened Greedy
  import opened GreedyLimbs
  import opened PowerTables
  import Subtraction

  const B1_FACTOR := 0.9091372900969896
  const B2_FACTOR := 1.0774960475223583

  /** B1 is 9 n / (7 sqrt(2)) and B2 is 16 sqrt(2) n / 21, to fifteen digits. */
  lemma BoundFactors()
    ensures var f, g := B1_FACTOR * B1_FACTOR - 81.0 / 98.0, B2_FACTOR * B2_FACTOR - 512.0 / 441.0;
      && -0.000000000000001 < f < 0.000000000000001 && -0.000000000000001 < g < 0.000000000000001
      && B1_FACTOR > 0.0 && B2_FACTOR > 0.0
  {
  }

  /** Where a greedy run may start: n < 2 * 2^a 3^b, and 2^a 3^b not far above n. */
  predicate IsStart(n: nat, start: (nat, nat)) {
    n < 2 * Pow23(start.0, start.1) && Pow23(start.0, start.1) <= 3 * n
  }

  /**
    The source's start for column b: `RBound` is the integer part of log2(16 sqrt(2) n / (21 * 3^b)),
    truncated towards zero, and that is at least 0.
   */
  predicate IsRBound(n: nat, a: nat, b: nat) {
    var bound2 := B2_FACTOR * n as real;
    && bound2 < Pow23(a + 1, b) as real
    && (if a > 0 then Pow23(a, b) as real <= bound2 else Pow23(0, b) as real < 2.0 * bound2)
  }

  /** `LBound` for column b, where it is positive: the integer part of log2(9 n / (7 sqrt(2) * 3^b)), plus one. */
  predicate IsLBound(n: nat, a: nat, b: nat) {
    var bound1 := B1_FACTOR * n as real;
    a > 0 && Pow23(a - 1, b) as real <= bound1 < Pow23(a, b) as real
  }

  lemma RBoundIsStart(n: nat, a: nat, b: nat)
    requires n > 0 && IsRBound(n, a, b)
    ensures IsStart(n, (a, b))
  {
    assert Pow23(a + 1, b) == 2 * Pow23(a, b);
  }

  /** A start leaves room in a row of `DBC_store` for the whole exact chain, and its term is in the power table. */
  lemma StartFits(n: nat, ints: nat, start: (nat, nat))
    requires FitsIn(n, ints) && IsStart(n, start)
    ensures start.0 + start.1 + 2 <= MaxDbl(ints)
    ensures Pow23(start.0, start.1) < Pow23(MaxDbl(ints), 0) == BasePow(ints)
  {
    var (a, b) := start;
    BasePowIsPower(ints);
    Pow23LowerBound(a, b);
    assert Pow23(a + b + 1, 0) == 2 * Pow23(a + b, 0);
    PowerOrder(a + b + 1, MaxDbl(ints));
  }

  /** The greedy chain from a start, with exact subtraction. */
  function ChainFrom(n: nat, start: (nat, nat), window: nat): Chain
    requires IsStart(n, start) && window >= 2
  {
    GreedyChain(false, n, start.0, start.1, window)
  }

  /** The chain that the loop stores from a start, in a row of `room` entries. */
  function Stores(n: seq<Limb>, start: (nat, nat), window: nat, room: nat): Option<Chain> {
    Loop(false, n, start.0, start.1, window, room)
  }

  /** No subtraction on the way from the start borrows spuriously. */
  predicate StartBorrowFree(n: nat, start: (nat, nat), window: nat, ints: nat)
    requires IsStart(n, start) && window >= 2
  {
    BorrowFree(n, start.0, start.1, window, ints)
  }

  /** The cost the tournament compares: one addition per term, the leading one included. */
  function TournamentCost(c: Chain): int {
    Cost(c) + (if c.Empty? then 0 else ADD_COST)
  }

  lemma TournamentCostInNumbers(c: Chain)
    requires c.Term?
    ensures TournamentCost(c) == 150 * Size(c) + 70 * c.head.dbl + 126 * c.head.tpl
  {
  }

  /** A stored chain: positive lead, exponents that do not rise, and n up to a multiple of 2^64. */
  lemma StoredFacts(n: seq<Limb>, start: (nat, nat), window: nat, room: nat)
    requires FitsIn(LimbValue(n), |n|) && IsStart(LimbValue(n), start)
    requires Stores(n, start, window, room).Some?
    ensures var c, v := Stores(n, start, window, room).value, LimbValue(n);
      && c.Term? && PlusLead(c) == c && Descends(c) && Size(c) <= room
      && c.head.dbl <= start.0 && c.head.tpl <= start.1
      && Value(c) == v - Drift(c, n)
      && Value(c) % Subtraction.TWO_LIMBS == v % Subtraction.TWO_LIMBS
      && (BorrowsRightAlong(c, n) ==> Value(c) == v)
  {
    hide Pow23, LimbValue, Loop, IsRun, Drift, BorrowsRightAlong, BasePow;
    var c := Stores(n, start, window, room).value;
    StartFits(LimbValue(n), |n|, start);
    FitsInPositive(LimbValue(n), |n|);
    LoopIsRun(false, n, start.0, start.1, window, room);
    RunIsSound(c, false, n, start.0, start.1);
    DriftIsWhole(c, n);
    RunHead(c, n, start.0, start.1);
    BelowDescends(c, start.0, start.1);
  }

  lemma RunHead(c: Chain, t: seq<Limb>, a: nat, b: nat)
    requires IsRun(c, false, t, a, b) && c.Term?
    ensures PlusLead(c) == c
  {
  }

  /** Without spurious borrows: the exact chain is stored. Right value, few terms, none used more than twice. */
  lemma ExactChainStored(n: seq<Limb>, start: (nat, nat), window: nat, room: nat)
    requires FitsIn(LimbValue(n), |n|) && IsStart(LimbValue(n), start) && window >= 2 && MaxDbl(|n|) <= room
    requires StartBorrowFree(LimbValue(n), start, window, |n|)
    ensures var c := ChainFrom(LimbValue(n), start, window);
      && Stores(n, start, window, room) == Some(c)
      && c.Term? && Value(c) == LimbValue(n)
      && Size(c) <= start.0 + start.1 + 2
      && forall i, j, k :: 0 <= i < j < k < Size(c) ==>
           !(Terms(c)[i].dbl == Terms(c)[j].dbl == Terms(c)[k].dbl && Terms(c)[i].tpl == Terms(c)[j].tpl == Terms(c)[k].tpl)
  {
    hide Pow23, GreedyChain, LimbValue, Loop, BorrowFree, BasePow;
    var v := LimbValue(n);
    StartFits(v, |n|, start);
    GreedyValue(false, v, start.0, start.1, window);
    GreedyLength(false, v, start.0, start.1, window);
    BorrowFreeLoop(false, n, start.0, start.1, window, room);
    var c := ChainFrom(v, start, window);
    forall i, j, k | 0 <= i < j < k < Size(c)
      ensures !(Terms(c)[i].dbl == Terms(c)[j].dbl == Terms(c)[k].dbl && Terms(c)[i].tpl == Terms(c)[j].tpl == Terms(c)[k].tpl)
    {
      NoThreePlaces(v, start, window, i, j, k);
    }
  }

  lemma NoThreePlaces(n: nat, start: (nat, nat), window: nat, i: nat, j: nat, k: nat)
    requires IsStart(n, start) && window >= 2
    requires i < j < k < Size(ChainFrom(n, start, window))
    ensures var s := Terms(ChainFrom(n, start, window));
      !(s[i].dbl == s[j].dbl == s[k].dbl && s[i].tpl == s[j].tpl == s[k].tpl)
  {
    hide Pow23, GreedyChain;
    var c := ChainFrom(n, start, window);
    GreedyUses(false, n, start.0, start.1, window, Terms(c)[i].dbl, Terms(c)[i].tpl);
    var s := Terms(c);
    if s[i].dbl == s[j].dbl == s[k].dbl && s[i].tpl == s[j].tpl == s[k].tpl {
      ThreePlaces(c, i, j, k);
    }
  }

  /** A condition on n and the limb count alone under which no start borrows spuriously. */
  predicate SafeScalar(n: nat, ints: nat) {
    ints == 2 || 3 * n < 0xFFFF_FFFF_0000_0000
  }

  lemma SafeIsBorrowFree(n: nat, ints: nat, start: (nat, nat), window: nat)
    requires SafeScalar(n, ints) && IsStart(n, start) && window >= 2
    ensures StartBorrowFree(n, start, window, ints)
  {
    if ints == 2 {
      TwoLimbsBorrowFree(n, start.0, start.1, window);
    } else {
      SmallBorrowFree(n, start.0, start.1, window, ints);
    }
  }

  lemma {:induction false} BelowDescends(c: Chain, a: nat, b: nat)
    requires StaysBelow(c, a, b)
    ensures Descends(c)
  {
    if c.Term? {
      BelowDescends(c.rest, c.head.dbl, c.head.tpl);
    }
  }

  /** The runs from the first `count` starts end within a row. */
  predicate AllStore(n: seq<Limb>, starts: seq<(nat, nat)>, window: nat, room: nat, count: nat) {
    forall i :: 0 <= i < count && i < |starts| ==> Stores(n, starts[i], window, room).Some?
  }

  /** The cheapest of the first `count` chains. */
  function MinCost(n: seq<Limb>, starts: seq<(nat, nat)>, window: nat, room: nat, count: nat): int
    requires 0 < count <= |starts| && AllStore(n, starts, window, room, count)
  {
    var last := TournamentCost(Stores(n, starts[count - 1], window, room).value);
    if count == 1 then last
    else
      var best := MinCost(n, starts, window, room, count - 1);
      if last < best then last else best
  }

  /** How many chains are generated before the candidate limit stops the loop. */
  function Generated(limit: int, starts: nat): (count: nat)
    ensures count <= starts && (starts > 0 ==> count > 0)
    ensures if limit < 0 then count <= 1 else count <= limit + 1 && (count < starts ==> count > limit)
  {
    if limit < 0 then (if starts == 0 then 0 else 1)
    else if limit + 1 < starts then limit + 1
    else starts
  }

  /** MinCost is the cost of one of the chains, and of none more. */
  lemma {:induction false} MinCostIsLeast(n: seq<Limb>, starts: seq<(nat, nat)>, window: nat, room: nat, count: nat)
    requires 0 < count <= |starts| && AllStore(n, starts, window, room, count)
    ensures forall i :: 0 <= i < count ==>
              MinCost(n, starts, window, room, count) <= TournamentCost(Stores(n, starts[i], window, room).value)
    ensures exists i :: 0 <= i < count &&
              MinCost(n, starts, window, room, count) == TournamentCost(Stores(n, starts[i], window, room).value)
  {
    hide Stores, TournamentCost;
    if count > 1 {
      MinCostIsLeast(n, starts, window, room, count - 1);
    }
  }

  /** Trying more candidates never makes the result dearer. */
  lemma {:induction false} MoreCandidatesHelp(n: seq<Limb>, starts: seq<(nat, nat)>, window: nat, room: nat, count: nat, more: nat)
    requires 0 < count <= more <= |starts| && AllStore(n, starts, window, room, more)
    ensures AllStore(n, starts, window, room, count)
    ensures MinCost(n, starts, window, room, more) <= MinCost(n, starts, window, room, count)
  {
    hide Stores, TournamentCost;
    if count < more {
      MoreCandidatesHelp(n, starts, window, room, count, more - 1);
    }
  }

  /** The result of `getSubOptimalDBC(n, k)` does not get dearer with k. */
  lemma LargerLimitHelps(n: seq<Limb>, starts: seq<(nat, nat)>, window: nat, room: nat, limit: int, limit': int)
    requires |starts| > 0 && limit <= limit'
    requires AllStore(n, starts, window, room, Generated(limit', |starts|))
    ensures AllStore(n, starts, window, room, Generated(limit, |starts|))
    ensures MinCost(n, starts, window, room, Generated(limit', |starts|))
         <= MinCost(n, starts, window, room, Generated(limit, |starts|))
  {
    MoreCandidatesHelp(n, starts, window, room, Generated(limit, |starts|), Generated(limit', |starts|));
  }

  /** The scan for the nearest term, column by column from b down. */
  method NearestTerm(t: nat, a: nat, bTemp: nat, window: nat) returns (alpha: nat, beta: nat)
    ensures (alpha, beta) == Select(t, a, bTemp, window)
  {
    hide Pow23;
    alpha, beta := a, bTemp;
    var j: int := bTemp;
    var end: nat := if bTemp >= window then bTemp - window else 0;
    while j >= end
      invariant end - 1 <= j <= bTemp
      invariant Scan(t, a, j, end, alpha, beta) == Select(t, a, bTemp, window)
    {
      var alphaJ;
      if Pow23(0, j) >= t {
        alphaJ := 0;
      } else {
        var kJ := FloorExponent(t, j, 0);
        if kJ >= a {
          alphaJ := a;
        } else if Dist(t, Pow23(kJ, j)) <= Dist(Pow23(kJ + 1, j), t) {
          alphaJ := kJ;
        } else {
          alphaJ := kJ + 1;
        }
      }
      if Dist(t, Pow23(alphaJ, j)) <= Dist(Pow23(alpha, beta), t) {
        alpha := alphaJ;
        beta := j;
      }
      j := j - 1;
    }
  }

  /** The start's term is a stored power. */
  ghost predicate InPowerTable(ints: nat, a: nat, b: nat) {
    a < MaxDbl(ints) && b < MaxTpl(ints) && Pow23(a, b) < Pow23(MaxDbl(ints), 0)
  }

  /** The stored power, limb for limb. */
  lemma StoredPower(powers: Tables, a: nat, b: nat, x: nat, y: nat)
    requires powers.Exact() && InPowerTable(powers.ints, a, b) && x <= a && y <= b
    ensures InPowerTable(powers.ints, x, y) && x < powers.pow23All.Length0 && y < powers.pow23All.Length1
    ensures powers.pow23All[x, y] == PowerLimbs(x, y, powers.ints)
  {
    hide LimbsOf;
    Pow23Monotone(x, y, a, b);
    LimbsOfUnique(powers.pow23All[x, y]);
  }

  /**
    One step: the term nearest to t, the sign that follows, and the next remainder. Whether t is at
    least the term decides the sign and which of the two is subtracted from the other.
   */
  method Step(powers: Tables, t: BigInt, sIn: int, a: nat, bTemp: nat, window: nat, ghost room: nat, ghost rest: Chain)
    returns (alpha: nat, beta: nat, s: int, r: BigInt)
    requires powers.Exact() && InPowerTable(powers.ints, a, bTemp) && t.data.Length == powers.ints
    requires t.Val() > 0 && (sIn == 1 || sIn == -1)
    requires Loop(sIn == -1, t.data[..], a, bTemp, window, room) == Some(rest)
    ensures rest.Term? && room > 0 && rest.head == Node(alpha, beta, sIn == -1)
    ensures (s == 1 || s == -1) && Loop(s == -1, r.data[..], alpha, beta, window, room - 1) == Some(rest.rest)
    ensures InPowerTable(powers.ints, alpha, beta) && fresh(r) && fresh(r.data) && r.data.Length == powers.ints
  {
    hide LimbValue, Subtraction.Minus, InPowerTable, Pow23, Select, PowerLimbs;
    var dblT := t.ToNumber();
    alpha, beta := NearestTerm(dblT, a, bTemp, window);
    SelectBelow(dblT, a, bTemp, window);
    StoredPower(powers, a, bTemp, alpha, beta);
    var p := powers.pow23All[alpha, beta];
    s := sIn;
    var above := t.GreaterEq(p);
    if !above {
      s := -s;
    }
    if above {
      r := t.Minus(p);
    } else {
      var q := new BigInt.From(p);
      r := q.Minus(t.data[..]);
    }
  }

  /** The row holds the first i terms of c. */
  ghost predicate StoredUpTo(store: Builder, slot: nat, c: Chain, i: nat)
    requires store.Shape() && slot < 2 && i <= Size(c) <= store.dbcStore.Length1
    reads store.dbcStore
  {
    forall x :: 0 <= x < i ==> store.dbcStore[slot, x] == ToEntry(Terms(c)[x])
  }

  /** One entry of a row. */
  method Put(store: Builder, slot: nat, ghost c: Chain, i: nat, entry: Entry)
    requires store.Shape() && slot < 2 && i < Size(c) <= store.dbcStore.Length1
    requires StoredUpTo(store, slot, c, i) && entry == ToEntry(Terms(c)[i])
    modifies store.dbcStore
    ensures StoredUpTo(store, slot, c, i + 1)
    ensures forall x, y :: 0 <= x < 2 && x != slot && 0 <= y < store.dbcStore.Length1 ==>
              store.dbcStore[x, y] == old(store.dbcStore[x, y])
  {
    store.dbcStore[slot, i] := entry;
  }

  lemma NothingStored(store: Builder, slot: nat, c: Chain)
    requires store.Shape() && slot < 2 && Size(c) <= store.dbcStore.Length1
    ensures StoredUpTo(store, slot, c, 0)
  {
  }

  lemma AllStored(store: Builder, slot: nat, c: Chain)
    requires store.Shape() && slot < 2 && Size(c) <= store.dbcStore.Length1
    requires StoredUpTo(store, slot, c, Size(c)) && store.dbcLen[slot] == Size(c)
    ensures store.Stored(slot, c)
  {
  }

  /** One greedy run, writing its terms into a slot of `DBC_store`: it has to end within the row. */
  method RunGreedy(store: Builder, slot: nat, n: BigInt, start: (nat, nat), window: nat)
    requires store.Shape() && store.powers.Exact() && slot < 2 && n.data.Length == store.ints
    requires InPowerTable(store.ints, start.0, start.1)
    requires Stores(n.data[..], start, window, store.dbcStore.Length1).Some?
    modifies store.dbcStore, store.dbcLen
    ensures store.Stored(slot, Stores(n.data[..], start, window, store.dbcStore.Length1).value)
    ensures store.dbcLen[1 - slot] == old(store.dbcLen[1 - slot])
    ensures forall x, i :: 0 <= x < 2 && x != slot && 0 <= i < store.dbcStore.Length1 ==>
              store.dbcStore[x, i] == old(store.dbcStore[x, i])
  {
    hide Pow23, Select, Dist, LimbValue, Loop, Remainder, PowerLimbs, Terms, Size, Tables.Exact, InPowerTable;
    hide FloorExponent, Scan, ColumnExponent, MaxDbl, StoredUpTo, Builder.Stored;
    ghost var room, other := store.dbcStore.Length1, 1 - slot;
    ghost var c := Stores(n.data[..], start, window, room).value;
    LoopIsRun(false, n.data[..], start.0, start.1, window, room);
    NothingStored(store, slot, c);
    var a, bTemp := start.0, start.1;
    var t := new BigInt.From(n.data[..]);
    var s, i := 1, 0;
    ghost var rest := c;
    var done := t.IsZero();
    while !done
      invariant fresh(t) && fresh(t.data) && t.data.Length == store.ints && (done <==> t.Val() == 0)
      invariant (s == 1 || s == -1) && InPowerTable(store.ints, a, bTemp) && store.powers.Exact()
      invariant 0 <= i <= Size(c) <= room && Size(rest) == Size(c) - i && Terms(c)[i..] == Terms(rest)
      invariant Loop(s == -1, t.data[..], a, bTemp, window, room - i) == Some(rest)
      invariant StoredUpTo(store, slot, c, i)
      invariant store.dbcLen[1 - slot] == old(store.dbcLen[1 - slot])
      invariant forall y :: 0 <= y < room ==> store.dbcStore[other, y] == old(store.dbcStore[other, y])
      decreases room - i
    {
      var sTmp := s;
      var alpha, beta, sNext, reduced := Step(store.powers, t, s, a, bTemp, window, room - i, rest);
      NextTerm(c, i, rest);
      s := sNext;
      Put(store, slot, c, i, Entry(sTmp, alpha, beta));
      i := i + 1;
      t := reduced;
      a := alpha;
      bTemp := beta;
      rest := rest.rest;
      done := t.IsZero();
    }
    RunEnds(s == -1, t.data[..], a, bTemp, window, room - i);
    store.dbcLen[slot] := i;
    AllStored(store, slot, c);
  }

  lemma RunEnds(minus: bool, t: seq<Limb>, a: nat, b: nat, window: nat, room: nat)
    requires LimbValue(t) == 0
    ensures Loop(minus, t, a, b, window, room) == Some(Empty) && Size(Empty) == 0
  {
  }

  /** The next term of the chain that is being stored. */
  lemma NextTerm(c: Chain, i: nat, rest: Chain)
    requires rest.Term? && i <= Size(c) && Size(rest) == Size(c) - i && Terms(c)[i..] == Terms(rest)
    ensures i < Size(c) && Terms(c)[i] == rest.head
    ensures Size(rest.rest) == Size(c) - (i + 1) && Terms(c)[i + 1..] == Terms(rest.rest)
  {
    assert Terms(rest)[1..] == Terms(rest.rest) && Terms(rest)[0] == rest.head;
    assert Terms(c)[i..][0] == Terms(c)[i];
    assert Terms(c)[i + 1..] == Terms(c)[i..][1..];
  }

  /** `DBC_len[i] * ADD_COST + DBC_store[i][0][1] * DBL_COST + DBC_store[i][0][2] * TPL_COST`. */
  method SlotCost(store: Builder, i: nat) returns (cost: int)
    requires store.Shape() && i < 2
    ensures forall c :: store.Stored(i, c) && c.Term? ==> cost == TournamentCost(c)
    ensures cost == store.dbcLen[i] * ADD_COST + store.dbcStore[i, 0].dbl * DBL_COST + store.dbcStore[i, 0].tpl * TPL_COST
  {
    cost := store.dbcLen[i] * ADD_COST + store.dbcStore[i, 0].dbl * DBL_COST + store.dbcStore[i, 0].tpl * TPL_COST;
    forall c | store.Stored(i, c) && c.Term?
      ensures cost == TournamentCost(c)
    {
      assert Terms(c)[0] == c.head;
    }
  }

  /** One match: the new chain goes into the losing slot, and the comparison picks the next loser. */
  method Match(store: Builder, dbcIndex: nat, n: BigInt, start: (nat, nat), window: nat, ghost best: Chain)
    returns (loser: nat, ghost winner: Chain)
    requires store.Shape() && store.powers.Exact() && n.data.Length == store.ints && dbcIndex < 2
    requires FitsIn(n.Val(), store.ints) && IsStart(n.Val(), start) && InPowerTable(store.ints, start.0, start.1)
    requires Stores(n.data[..], start, window, store.dbcStore.Length1).Some?
    requires if best.Empty? then
               dbcIndex == 0 && store.dbcLen[1] == 0x10_0000
               && store.dbcStore[1, 0].dbl >= 0 && store.dbcStore[1, 0].tpl >= 0
             else store.Stored(1 - dbcIndex, best)
    modifies store.dbcStore, store.dbcLen
    ensures loser < 2 && winner.Term? && store.Stored(1 - loser, winner)
    ensures var c := Stores(n.data[..], start, window, store.dbcStore.Length1).value;
      && (winner == c || (best.Term? && winner == best))
      && (best.Term? && TournamentCost(c) == TournamentCost(best) ==> loser == 0)
      && (if best.Empty? || TournamentCost(c) < TournamentCost(best) then TournamentCost(winner) == TournamentCost(c)
          else TournamentCost(winner) == TournamentCost(best))
  {
    hide Stores, IsStart, FitsIn, TournamentCost, InPowerTable, Tables.Exact;
    ghost var c := Stores(n.data[..], start, window, store.dbcStore.Length1).value;
    FirstMatch(n.data[..], start, window, store.dbcStore.Length1);
    RunGreedy(store, dbcIndex, n, start, window);
    var temp0 := SlotCost(store, 0);
    var temp1 := SlotCost(store, 1);
    loser := if temp0 < temp1 then 1 else 0;
    winner := if 1 - loser == dbcIndex then c else best;
  }

  lemma FitsInPositive(n: nat, ints: nat)
    requires FitsIn(n, ints)
    ensures n > 0 && 2 <= ints <= 21
  {
  }

  lemma FirstMatch(n: seq<Limb>, start: (nat, nat), window: nat, room: nat)
    requires FitsIn(LimbValue(n), |n|) && IsStart(LimbValue(n), start) && room == MaxDbl(|n|)
    requires Stores(n, start, window, room).Some?
    ensures var c := Stores(n, start, window, room).value; c.Term? && TournamentCost(c) < 0x10_0000 * ADD_COST
  {
    hide Stores, IsStart;
    StartFits(LimbValue(n), |n|, start);
    StoredFacts(n, start, window, room);
  }

  /**
    The search that `getSubOptimalDBC` and `getEOSDBC` share: the losing slot is overwritten by the
    next candidate, up to the first one beyond the limit. Afterwards the returned slot holds a
    cheapest of the chains from starts 0 to `limit`; the first start is tried in any case.
   */
  method Search(store: Builder, n: BigInt, starts: seq<(nat, nat)>, window: nat, limit: int)
    returns (minIndex: nat, ghost c: Chain)
    requires store.Shape() && store.powers.Exact() && n.data.Length == store.ints && FitsIn(n.Val(), store.ints)
    requires forall i :: 0 <= i < |starts| ==> IsStart(n.Val(), starts[i]) && InPowerTable(store.ints, starts[i].0, starts[i].1)
    requires AllStore(n.data[..], starts, window, store.dbcStore.Length1, Generated(limit, |starts|))
    requires store.dbcStore[1, 0].dbl >= 0 && store.dbcStore[1, 0].tpl >= 0
    modifies store.dbcStore, store.dbcLen
    ensures minIndex < 2
    ensures |starts| > 0 ==> c.Term? && store.Stored(minIndex, c)
    ensures |starts| > 0 ==>
              exists i :: 0 <= i < |starts| && (i == 0 || i <= limit)
                && Stores(n.data[..], starts[i], window, store.dbcStore.Length1) == Some(c)
    ensures forall i :: 0 <= i < |starts| && (i == 0 || i <= limit) ==>
              var r := Stores(n.data[..], starts[i], window, store.dbcStore.Length1);
              r.Some? && TournamentCost(c) <= TournamentCost(r.value)
    ensures |starts| > 0 ==>
              TournamentCost(c) == MinCost(n.data[..], starts, window, store.dbcStore.Length1, Generated(limit, |starts|))
  {
    hide Stores, IsStart, FitsIn, TournamentCost, InPowerTable, Tables.Exact, Builder.Stored, MinCost;
    ghost var room, s := store.dbcStore.Length1, n.data[..];
    var dbcIndex := 0;
    store.dbcLen[1] := 0x10_0000;
    c := Empty;
    var z := 0;
    while z < |starts|
      invariant 0 <= z <= |starts| && dbcIndex < 2 && (z > 0 ==> z <= limit) && store.powers.Exact()
      invariant z == 0 ==> c == Empty && dbcIndex == 0 && store.dbcLen[1] == 0x10_0000
      invariant z == 0 ==> store.dbcStore[1, 0].dbl >= 0 && store.dbcStore[1, 0].tpl >= 0
      invariant z > 0 ==> c.Term? && store.Stored(1 - dbcIndex, c)
      invariant z > 0 ==> AllStore(s, starts, window, room, z) && TournamentCost(c) == MinCost(s, starts, window, room, z)
      invariant z > 0 ==> exists i :: 0 <= i < z && Stores(s, starts[i], window, room) == Some(c)
    {
      assert z < Generated(limit, |starts|);
      dbcIndex, c := Match(store, dbcIndex, n, starts[z], window, c);
      MinCostStep(s, starts, window, room, z + 1);
      z := z + 1;
      if z > limit {
        break;
      }
    }
    minIndex := 1 - dbcIndex;
    if z > 0 {
      MinCostIsLeast(s, starts, window, room, z);
      assert z == Generated(limit, |starts|);
    }
  }

  lemma MinCostStep(n: seq<Limb>, starts: seq<(nat, nat)>, window: nat, room: nat, count: nat)
    requires 0 < count <= |starts| && AllStore(n, starts, window, room, count)
    ensures var last := TournamentCost(Stores(n, starts[count - 1], window, room).value);
      MinCost(n, starts, window, room, count) ==
      if count == 1 then last
      else if last < MinCost(n, starts, window, room, count - 1) then last
      else MinCost(n, starts, window, room, count - 1)
  {
  }

  /** `getSubOptimalDBC(n, k)`: seven columns for each term, at most k + 1 candidates. */
  method GetSubOptimalDbc(store: Builder, n: BigInt, starts: seq<(nat, nat)>, dbcCoef: int) returns (minIndex: nat, ghost c: Chain)
    requires store.Shape() && store.powers.Exact() && n.data.Length == store.ints && FitsIn(n.Val(), store.ints)
    requires |starts| > 0 && store.dbcStore[1, 0].dbl >= 0 && store.dbcStore[1, 0].tpl >= 0
    requires forall i :: 0 <= i < |starts| ==> IsStart(n.Val(), starts[i]) && InPowerTable(store.ints, starts[i].0, starts[i].1)
    requires AllStore(n.data[..], starts, 6, store.dbcStore.Length1, Generated(dbcCoef, |starts|))
    modifies store.dbcStore, store.dbcLen
    ensures minIndex < 2 && c.Term? && store.Stored(minIndex, c)
    ensures exists i :: 0 <= i < |starts| && (i == 0 || i <= dbcCoef)
              && Stores(n.data[..], starts[i], 6, store.dbcStore.Length1) == Some(c)
    ensures forall i :: 0 <= i < |starts| && (i == 0 || i <= dbcCoef) ==>
              var r := Stores(n.data[..], starts[i], 6, store.dbcStore.Length1);
              r.Some? && TournamentCost(c) <= TournamentCost(r.value)
  {
    hide Stores, IsStart, FitsIn, TournamentCost, InPowerTable, Tables.Exact, Builder.Stored, MinCost;
    minIndex, c := Search(store, n, starts, 6, dbcCoef);
  }

  /** `getEOSDBC(n)`: five columns for each term, and all candidates. */
  method GetEosDbc(store: Builder, n: BigInt, starts: seq<(nat, nat)>) returns (minIndex: nat, ghost c: Chain)
    requires store.Shape() && store.powers.Exact() && n.data.Length == store.ints && FitsIn(n.Val(), store.ints)
    requires |starts| > 0 && store.dbcStore[1, 0].dbl >= 0 && store.dbcStore[1, 0].tpl >= 0
    requires forall i :: 0 <= i < |starts| ==> IsStart(n.Val(), starts[i]) && InPowerTable(store.ints, starts[i].0, starts[i].1)
    requires AllStore(n.data[..], starts, 4, store.dbcStore.Length1, |starts|)
    modifies store.dbcStore, store.dbcLen
    ensures minIndex < 2 && c.Term? && store.Stored(minIndex, c)
    ensures exists i :: 0 <= i < |starts| && Stores(n.data[..], starts[i], 4, store.dbcStore.Length1) == Some(c)
    ensures forall i :: 0 <= i < |starts| ==>
              var r := Stores(n.data[..], starts[i], 4, store.dbcStore.Length1);
              r.Some? && TournamentCost(c) <= TournamentCost(r.value)
  {
    hide Stores, IsStart, FitsIn, TournamentCost, InPowerTable, Tables.Exact, Builder.Stored, MinCost;
    minIndex, c := Search(store, n, starts, 4, |starts|);
  }
}
