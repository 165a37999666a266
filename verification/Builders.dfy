/** The optimal-chain builder: the global tables and the scheduled dynamic program over them. */
module Builders {
  import opened Powers
  import opened Limbs
  import opened BigInts
  import opened Chains
  import opened Cells
  import opened Soundness
  import opened Optimality
  import opened CostOptimality
  import opened Bounds
  import opened Digits
  import opened BinaryChains
  import opened PowerTables

  /** A row of `DBC_store`. */
  datatype Entry = Entry(sign: int, dbl: int, tpl: int)

  function ToEntry(x: Node): Entry {
    Entry(if x.minus then -1 else 1, x.dbl, x.tpl)
  }

  /** What stored rows add up to. */
  function EntrySum(s: seq<Entry>): int
    requires forall i :: 0 <= i < |s| ==> s[i].dbl >= 0 && s[i].tpl >= 0
  {
    if |s| == 0 then 0 else s[0].sign * Pow23(s[0].dbl, s[0].tpl) + EntrySum(s[1..])
  }

  /** The rows of a chain add up to its value, each with sign 1 or -1. */
  lemma {:induction false} EntriesAddUp(c: Chain, s: seq<Entry>)
    requires |s| == Size(c) && forall i :: 0 <= i < |s| ==> s[i] == ToEntry(Terms(c)[i])
    ensures forall i :: 0 <= i < |s| ==> s[i].dbl >= 0 && s[i].tpl >= 0 && (s[i].sign == 1 || s[i].sign == -1)
    ensures EntrySum(s) == Value(c)
  {
    if c.Term? {
      assert Terms(c)[1..] == Terms(c.rest);
      EntriesAddUp(c.rest, s[1..]);
    }
  }

  lemma InitialShape(powers: Tables)
    requires powers.Initialised()
    ensures powers.Shape()
  {
  }

  /** What a run works on: the scalar, the digits it extracts, the two logarithms, the binary candidate. */
  datatype Run = Run(n: nat, m: nat, log2: nat, log3: nat, bin: Cell)

  /** The cells passed before position (jOuter, iOuter, jInner, iInner) of the four nested loops. */
  predicate Done(jo: nat, io: nat, jj: nat, ii: nat, b: nat, t: nat) {
    || t < 18 * jo
    || (t < 18 * jo + 18
        && (|| b < 32 * io
            || (b < 32 * io + 32 && (t < 18 * jo + jj || (t == 18 * jo + jj && b < 32 * io + ii)))))
  }

  class Builder {
    const ints: nat
    const w: array2<Cell>
    const w_: array2<Cell>
    var wMin: Cell
    const nowDbc: array<Node>
    const bBound: array<int>
    const dbcStore: array2<Entry>
    const dbcLen: array<int>
    const powers: Tables
    const recordOuter: BigInt
    const tempOuter: BigInt
    /** The cells written by the current run. */
    ghost var written: set<(nat, nat)>

    ghost predicate Shape() {
      && 2 <= ints <= 21
      && w != w_
      && w.Length0 == w_.Length0 == MaxDbl(ints) + 1 && w.Length1 == w_.Length1 == MaxTpl(ints) + 1
      && nowDbc.Length == bBound.Length == dbcStore.Length1 == MaxDbl(ints)
      && dbcStore.Length0 == dbcLen.Length == 2
      && powers.ints == ints && powers.Shape()
      && recordOuter.data.Length == tempOuter.data.Length == ints && recordOuter.data != tempOuter.data
    }

    /** The NULL borders and the base cell, as `init` leaves them. */
    ghost predicate Borders()
      requires Shape()
      reads w, w_
    {
      && (forall i :: 1 <= i < w.Length0 ==> w[i, 0] == NULL_CELL && w_[i, 0] == NULL_CELL)
      && (forall j :: 1 <= j < w.Length1 ==> w[0, j] == NULL_CELL && w_[0, j] == NULL_CELL)
      && w[1, 1] == BASE_CELL && w_[1, 1] == NULL_CELL
    }

    ghost predicate Valid()
      reads this`wMin, w, w_, bBound, powers.pow23Small, powers.pow23All
    {
      && Shape() && Borders() && powers.Exact() && !wMin.isNull
      && (forall t :: 0 <= t < bBound.Length ==> bBound[t] >= 0)
    }

    /** The scalar of a run is none of the builder's own work registers. */
    ghost predicate Scalar(n: BigInt)
      requires Shape()
    {
      n.data.Length == ints && n.data != recordOuter.data && n.data != tempOuter.data
    }

    predicate HasSlot(b: int, t: int) {
      -1 <= b < MaxDbl(ints) && -1 <= t < MaxTpl(ints)
    }

    /** Both tables hold the recurrence's cells at (b, t). */
    ghost predicate Filled(m: nat, b: int, t: int)
      requires Shape()
      reads w, w_
    {
      && HasSlot(b, t)
      && w[b + 1, t + 1] == Best(m, Plain, b, t)
      && w_[b + 1, t + 1] == Best(m, Complement, b, t)
    }

    lemma BordersFilled(m: nat, b: int, t: int)
      requires Shape() && Borders() && HasSlot(b, t)
      requires (b == -1 && t >= 0) || (t == -1 && b >= 0) || (b == 0 && t == 0)
      ensures Filled(m, b, t)
    {
    }

    /** `init()`: NULL borders, the base cell, and the power tables. */
    constructor (ints: nat)
      requires 2 <= ints <= 21
      ensures this.ints == ints && Shape() && Borders() && !wMin.isNull
      ensures powers.Initialised() && (powers.Exact() <==> LosslessPowers(ints))
      ensures ints == 2 ==> powers.Exact()
      ensures forall t :: 0 <= t < bBound.Length ==> bBound[t] == 0
      ensures forall i, j :: 0 <= i < 2 && 0 <= j < dbcStore.Length1 ==> dbcStore[i, j] == Entry(0, 0, 0)
      ensures fresh(w) && fresh(w_) && fresh(nowDbc) && fresh(bBound) && fresh(dbcStore) && fresh(dbcLen)
      ensures fresh(recordOuter.data) && fresh(tempOuter.data)
    {
      hide Tables.Exact, Tables.Initialised, LosslessPowers, Pow23, LimbValue, MaxDbl, MaxTpl, Best, Walk;
      this.ints := ints;
      var rows, columns := MaxDbl(ints), MaxTpl(ints);
      wMin := Cell(false, false, 0, Node(0, 0, false), 0, NoSlot);
      w := new Cell[rows + 1, columns + 1];
      w_ := new Cell[rows + 1, columns + 1];
      nowDbc := new Node[rows];
      bBound := new int[rows];
      dbcStore := new Entry[2, rows];
      dbcLen := new int[2];
      recordOuter := new BigInt(ints);
      tempOuter := new BigInt(ints);
      powers := new Tables(ints);
      written := {};
      new;
      InitialShape(powers);
      Init();
    }

    /** The globals start at zero; then `init()` sets the borders. */
    method Init()
      requires Shape()
      modifies w, w_, bBound, dbcStore
      ensures Borders()
      ensures forall t :: 0 <= t < bBound.Length ==> bBound[t] == 0
      ensures forall i, j :: 0 <= i < 2 && 0 <= j < dbcStore.Length1 ==> dbcStore[i, j] == Entry(0, 0, 0)
    {
      hide Tables.Shape;
      var i := 0;
      while i < bBound.Length
        invariant 0 <= i <= bBound.Length
        invariant forall t :: 0 <= t < i ==> bBound[t] == 0
        invariant forall x, j :: 0 <= x < 2 && 0 <= j < i ==> dbcStore[x, j] == Entry(0, 0, 0)
      {
        bBound[i] := 0;
        dbcStore[0, i] := Entry(0, 0, 0);
        dbcStore[1, i] := Entry(0, 0, 0);
        i := i + 1;
      }
      InitBorders();
    }

    /** The border cells are set to NULL with `setNULL`, and `w(0,0) = 0`. */
    method InitBorders()
      requires Shape()
      modifies w, w_
      ensures Borders()
    {
      w[1, 1] := BASE_CELL;
      w_[1, 1] := NULL_CELL;
      var i := 0;
      while i < MaxDbl(ints)
        invariant 0 <= i <= MaxDbl(ints)
        invariant forall x :: 1 <= x <= i ==> w[x, 0] == NULL_CELL && w_[x, 0] == NULL_CELL
        invariant w[1, 1] == BASE_CELL && w_[1, 1] == NULL_CELL
      {
        w[i + 1, 0] := NULL_CELL;
        w_[i + 1, 0] := NULL_CELL;
        i := i + 1;
      }
      var j := 0;
      while j < MaxTpl(ints)
        invariant 0 <= j <= MaxTpl(ints)
        invariant forall x :: 1 <= x < w.Length0 ==> w[x, 0] == NULL_CELL && w_[x, 0] == NULL_CELL
        invariant forall y :: 1 <= y <= j ==> w[0, y] == NULL_CELL && w_[0, y] == NULL_CELL
        invariant w[1, 1] == BASE_CELL && w_[1, 1] == NULL_CELL
      {
        w[0, j + 1] := NULL_CELL;
        w_[0, j + 1] := NULL_CELL;
        j := j + 1;
      }
    }

    /** The two assignments of one cell, by the four cases of the digit. */
    method FillCell(ghost m: nat, b: nat, t: nat, quot: nat)
      requires Shape() && Borders()
      requires b + t > 0 && HasSlot(b, t) && (b, t) !in written
      requires quot == Quot(m, b, t)
      requires Filled(m, b - 1, t) && Filled(m, b, t - 1)
      modifies w, w_, this`written
      ensures Filled(m, b, t) && written == old(written) + {(b, t)}
      ensures forall i, j :: 0 <= i < w.Length0 && 0 <= j < w.Length1 && (i != b + 1 || j != t + 1)
                ==> w[i, j] == old(w[i, j]) && w_[i, j] == old(w_[i, j])
      ensures forall b': nat, t': nat :: old((b', t') in written && Filled(m, b', t')) ==> Filled(m, b', t')
    {
      hide Best, Quot;
      BestUnfolds(m, b, t);
      if quot < 2 {
        w[b + 1, t + 1] := MinL(w[b, t + 1], w[b + 1, t], AddAt(w_[b + 1, t], Complement, b, t - 1, 1));
        w_[b + 1, t + 1] := AddAt(w_[b, t + 1], Complement, b - 1, t, -1);
      } else if quot == 2 {
        w[b + 1, t + 1] := MinL(w[b, t + 1], AddAt(w_[b, t + 1], Complement, b - 1, t, 1),
                                AddAt(w[b + 1, t], Plain, b, t - 1, 1));
        w_[b + 1, t + 1] := AddAt(w_[b, t + 1], Complement, b - 1, t, -1);
      } else if quot == 3 {
        w[b + 1, t + 1] := AddAt(w[b, t + 1], Plain, b - 1, t, 1);
        w_[b + 1, t + 1] := MinL(AddAt(w[b, t + 1], Plain, b - 1, t, -1), w_[b, t + 1],
                                 AddAt(w_[b + 1, t], Complement, b, t - 1, -1));
      } else {
        w[b + 1, t + 1] := AddAt(w[b, t + 1], Plain, b - 1, t, 1);
        w_[b + 1, t + 1] := MinL(w_[b, t + 1], AddAt(w[b + 1, t], Plain, b, t - 1, -1), w_[b + 1, t]);
      }
      written := written + {(b, t)};
      forall b': nat, t': nat | old((b', t') in written && Filled(m, b', t'))
        ensures Filled(m, b', t')
      {
        assert (b', t') != (b, t);
      }
    }

    /** wMin costs no more than either candidate of the column that ends at (b, t). */
    ghost predicate Covers(m: nat, b: nat, t: nat)
      reads this`wMin
    {
      wMin.GetV() <= PlainCandidate(m, b, t).GetV() && wMin.GetV() <= FullCandidate(m, b, t).GetV()
    }

    /** Trying the candidates of a finished column. */
    method Consider(n: BigInt, ghost m: nat, b: nat, t: nat)
      requires Shape() && powers.Exact() && n.data.Length == ints
      requires 0 <= b < MaxDbl(ints) && 0 <= t < MaxTpl(ints) && Pow23(b, t) < Pow23(MaxDbl(ints), 0)
      requires Filled(m, b, t)
      modifies this`wMin
      ensures n.Val() < Pow23(b, t) ==>
                wMin == MinV3(PlainCandidate(m, b, t), FullCandidate(m, b, t), old(wMin))
      ensures n.Val() >= Pow23(b, t) ==>
                wMin == MinV2(PlainCandidate(m, b, t).Add(Slot(Plain, b, t), b, t, 1), old(wMin))
    {
      hide Best;
      var above := n.GreaterEq(powers.pow23All[b, t]);
      if above {
        wMin := MinV2(AddAt(w[b + 1, t + 1], Plain, b, t, 1), wMin);
      } else {
        wMin := MinV3(w[b + 1, t + 1], AddAt(w_[b + 1, t + 1], Complement, b, t, 1), wMin);
      }
    }

    /** A run's setting: exact logarithms, exact bounds, digits of a number not above 6n. */
    ghost predicate Setting(r: Run)
      requires Shape()
      reads bBound
    {
      && FitsIn(r.n, ints) && r.m <= 6 * r.n
      && IsLog2(r.n, r.log2) && IsLog3(r.n, r.log3) && r.log2 < MaxDbl(ints) && r.log3 < MaxTpl(ints)
      && (forall t :: 0 <= t < bBound.Length ==> bBound[t] >= 0)
      && (forall t :: 0 <= t <= r.log3 ==> IsBound(r.n, bBound[t], t))
      && r.bin.isBasic && !r.bin.isNull && r.bin.basicValue < SENTINEL
    }

    /** x is the binary candidate, or a cheaper one met at some bound: a chain of floor(m/6) that the tables hold. */
    ghost predicate IsOutcome(r: Run, x: Cell) {
      || x == r.bin
      || (&& x.GetV() < r.bin.basicValue
          && CandidateCosts(r.n, r.m, x.GetV())
          && (|| (r.m < 6 && x == BASE_CELL)
              || (ChainCell(r.m, x, r.m / 6) && InRegion(r.n, x.addNode.dbl, x.addNode.tpl))))
    }

    ghost predicate Outcome(r: Run)
      reads this`wMin
    {
      IsOutcome(r, wMin)
    }

    /** The cells written so far are exactly those of the region that the loops have passed. */
    ghost predicate WrittenAt(r: Run, jo: nat, io: nat, jj: nat, ii: nat)
      reads this`written
    {
      forall b: nat, t: nat ::
        (b, t) in written <==> b + t > 0 && InRegion(r.n, b, t) && Done(jo, io, jj, ii, b, t)
    }

    /** Every written cell holds the recurrence's value. */
    ghost predicate AllFilled(m: nat)
      requires Shape()
      reads this`written, w, w_
    {
      forall b: nat, t: nat :: (b, t) in written ==> Filled(m, b, t)
    }

    /** wMin has met the candidates of every column already completed. */
    ghost predicate CoversAt(r: Run, jo: nat, io: nat, jj: nat, ii: nat)
      requires Shape() && Setting(r)
      reads this`wMin, bBound
    {
      forall t: nat :: t <= r.log3 && Done(jo, io, jj, ii, bBound[t], t) ==> Covers(r.m, bBound[t], t)
    }

    /**
      The invariant of the four nested loops. Each cell is written at most once, because
      `FillCell` refuses a cell that is in `written`.
     */
    ghost predicate Progress(r: Run, jo: nat, io: nat, jj: nat, ii: nat)
      requires Shape()
      reads this`wMin, this`written, w, w_, bBound
    {
      && Borders() && Setting(r)
      && WrittenAt(r, jo, io, jj, ii) && AllFilled(r.m)
      && CoversAt(r, jo, io, jj, ii) && Outcome(r)
    }

    /** The two cells a visit reads are written already, or borders, or the base. */
    lemma NeighboursFilled(r: Run, jo: nat, io: nat, jj: nat, ii: nat, b: nat, t: nat)
      requires Shape() && Progress(r, jo, io, jj, ii)
      requires jj < 18 && ii < 32 && t == 18 * jo + jj && b == 32 * io + ii
      requires b + t > 0 && InRegion(r.n, b, t) && HasSlot(b, t)
      ensures Filled(r.m, b - 1, t) && Filled(r.m, b, t - 1) && (b, t) !in written
    {
      hide Best, Filled, Borders, CoversAt, Outcome;
      if b == 0 || (b == 1 && t == 0) {
        BordersFilled(r.m, b - 1, t);
      } else {
        RegionDown(r.n, b, t, b - 1, t);
        assert (b - 1, t) in written;
      }
      if t == 0 || (t == 1 && b == 0) {
        BordersFilled(r.m, b, t - 1);
      } else {
        RegionDown(r.n, b, t, b, t - 1);
        assert (b, t - 1) in written;
      }
    }

    /** The guarded cell update of one visit. */
    method FillStep(ghost r: Run, ghost jo: nat, ghost io: nat, jj: nat, ii: nat, b: nat, t: nat, n0: Word)
      requires Shape() && powers.Exact() && Progress(r, jo, io, jj, ii)
      requires jj < 18 && ii < 32 && t == 18 * jo + jj && b == 32 * io + ii
      requires b <= r.log2 && t <= r.log3
      requires n0 == (r.m / Pow23(32 * io, 18 * jo)) % MODULUS_33_19
      modifies w, w_, this`written
      ensures Borders() && WrittenAt(r, jo, io, jj, ii + 1) && AllFilled(r.m)
    {
      hide Best, Quot, Pow23, CoversAt, Outcome, Filled, FitsIn, IsBound, IsLog2, IsLog3;
      BoundIsLast(r.n, bBound[t], b, t);
      if b + t > 0 && b <= bBound[t] {
        var quot := (n0 / powers.pow23Small[ii, jj]) % 6;
        FastDigit(r.m, 32 * io, 18 * jo, ii, jj);
        NeighboursFilled(r, jo, io, jj, ii, b, t);
        FillCell(r.m, b, t, quot);
      }
    }

    /** What choosing among the candidates does to the outcome. */
    lemma OutcomeOfMin(r: Run, b: nat, t: nat, was: Cell)
      requires Shape() && Setting(r) && IsBound(r.n, b, t)
      requires wMin == MinV3(PlainCandidate(r.m, b, t), FullCandidate(r.m, b, t), was)
      requires IsOutcome(r, was)
      ensures Outcome(r) && Covers(r.m, b, t)
    {
      hide Best, ChainCell, PlainCandidate, FullCandidate;
      BoundExceedsN(r.n, b, t);
      CandidateOutcomes(r.n, r.m, b, t);
      MinVCases(PlainCandidate(r.m, b, t), FullCandidate(r.m, b, t), was);
    }

    /** Trying candidates at the end of a column, and what has been met afterwards. */
    method ConsiderStep(n: BigInt, ghost r: Run, ghost jo: nat, ghost io: nat, ghost jj: nat, ghost ii: nat, b: nat, t: nat)
      requires Shape() && powers.Exact() && n.data.Length == ints && n.Val() == r.n
      requires Borders() && Setting(r) && AllFilled(r.m) && WrittenAt(r, jo, io, jj, ii + 1)
      requires CoversAt(r, jo, io, jj, ii) && Outcome(r)
      requires jj < 18 && ii < 32 && t == 18 * jo + jj && b == 32 * io + ii
      requires b <= r.log2 && t <= r.log3
      modifies this`wMin
      ensures CoversAt(r, jo, io, jj, ii + 1) && Outcome(r)
    {
      hide Best, Pow23, ChainCell;
      if b == bBound[t] {
        ghost var was := wMin;
        BoundExceedsN(r.n, b, t);
        if b == 0 && t == 0 {
          BordersFilled(r.m, b, t);
        } else {
          assert (b, t) in written;
        }
        Consider(n, r.m, b, t);
        OutcomeOfMin(r, b, t, was);
        MinVCases(PlainCandidate(r.m, b, t), FullCandidate(r.m, b, t), was);
      }
    }

    /** One pass through the innermost loop body. */
    method Visit(n: BigInt, ghost r: Run, ghost jo: nat, ghost io: nat, jj: nat, ii: nat, b: nat, t: nat, n0: Word)
      requires Shape() && powers.Exact() && n.data.Length == ints && n.Val() == r.n
      requires Progress(r, jo, io, jj, ii)
      requires jj < 18 && ii < 32 && t == 18 * jo + jj && b == 32 * io + ii
      requires b <= r.log2 && t <= r.log3
      requires n0 == (r.m / Pow23(32 * io, 18 * jo)) % MODULUS_33_19
      modifies w, w_, this`written, this`wMin
      ensures Progress(r, jo, io, jj, ii + 1)
    {
      hide Borders, WrittenAt, AllFilled, CoversAt, Outcome, Setting, Pow23;
      FillStep(r, jo, io, jj, ii, b, t, n0);
      ConsiderStep(n, r, jo, io, jj, ii, b, t);
    }

    /** The i_inner loop: one column of a block. */
    method Column(n: BigInt, ghost r: Run, jo: nat, io: nat, jj: nat, log2B: nat, n0: Word)
      requires Shape() && powers.Exact() && n.data.Length == ints && n.Val() == r.n
      requires Progress(r, jo, io, jj, 0) && log2B == r.log2
      requires jj < 18 && 18 * jo + jj <= r.log3
      requires n0 == (r.m / Pow23(32 * io, 18 * jo)) % MODULUS_33_19
      modifies w, w_, this`written, this`wMin
      ensures Progress(r, jo, io, jj + 1, 0)
    {
      hide Borders, AllFilled, Outcome, Pow23, Setting;
      var t := 18 * jo + jj;
      var ii := 0;
      while ii <= 31
        invariant ii <= 32
        invariant Progress(r, jo, io, jj, ii)
      {
        var b := io * 32 + ii;
        if b > log2B {
          break;
        }
        Visit(n, r, jo, io, jj, ii, b, t, n0);
        ii := ii + 1;
      }
      SkipRows(r, jo, io, jj, ii);
    }

    /** Beyond the last row there is nothing of the region left in the column. */
    lemma SkipRows(r: Run, jo: nat, io: nat, jj: nat, ii: nat)
      requires Shape() && Progress(r, jo, io, jj, ii) && jj < 18 && ii <= 32
      requires ii == 32 || 32 * io + ii > r.log2
      ensures Progress(r, jo, io, jj + 1, 0)
    {
      hide Borders, AllFilled, Outcome, Covers, Pow23;
      forall b: nat, t: nat | InRegion(r.n, b, t)
        ensures Done(jo, io, jj, ii, b, t) <==> Done(jo, io, jj + 1, 0, b, t)
      {
        RegionInLogs(r.n, r.log2, r.log3, b, t);
      }
      BoundsInRegion(r);
    }

    lemma BoundsInRegion(r: Run)
      requires Shape() && Setting(r)
      ensures forall t: nat :: t <= r.log3 ==> InRegion(r.n, bBound[t], t)
    {
    }

    /** The j_inner loop: one block of 32 rows by 18 columns. */
    method Block(n: BigInt, ghost r: Run, jo: nat, io: nat, log2B: nat, log3B: nat, n0: Word)
      requires Shape() && powers.Exact() && n.data.Length == ints && n.Val() == r.n
      requires Progress(r, jo, io, 0, 0) && log2B == r.log2 && log3B == r.log3
      requires n0 == (r.m / Pow23(32 * io, 18 * jo)) % MODULUS_33_19
      modifies w, w_, this`written, this`wMin
      ensures Progress(r, jo, io + 1, 0, 0)
    {
      hide Borders, AllFilled, Outcome, Pow23, Setting, WrittenAt, CoversAt;
      var jj := 0;
      while jj <= 17
        invariant jj <= 18
        invariant Progress(r, jo, io, jj, 0)
      {
        var t := jo * 18 + jj;
        if t > log3B {
          break;
        }
        Column(n, r, jo, io, jj, log2B, n0);
        jj := jj + 1;
      }
      SkipColumns(r, jo, io, jj);
    }

    lemma SkipColumns(r: Run, jo: nat, io: nat, jj: nat)
      requires Shape() && Progress(r, jo, io, jj, 0) && jj <= 18
      requires jj == 18 || 18 * jo + jj > r.log3
      ensures Progress(r, jo, io + 1, 0, 0)
    {
      hide Borders, AllFilled, Outcome, Covers, Pow23;
      forall b: nat, t: nat | InRegion(r.n, b, t)
        ensures Done(jo, io, jj, 0, b, t) <==> Done(jo, io + 1, 0, 0, b, t)
      {
        RegionInLogs(r.n, r.log2, r.log3, b, t);
      }
      BoundsInRegion(r);
    }

    /** The i_outer loop: all blocks of 18 columns, shifting the digits down 32 rows at a time. */
    method BlockColumn(n: BigInt, ghost r: Run, jo: nat, log2B: nat, log3B: nat)
      requires Shape() && powers.Exact() && Scalar(n) && n.Val() == r.n
      requires Progress(r, jo, 0, 0, 0) && log2B == r.log2 && log3B == r.log3
      requires jo * 18 < bBound.Length
      requires recordOuter.Val() == r.m / Pow23(0, 18 * jo)
      modifies w, w_, this`written, this`wMin, tempOuter.data
      ensures Progress(r, jo + 1, 0, 0, 0)
    {
      hide Borders, AllFilled, Outcome, Pow23, WrittenAt, CoversAt, Tables.Exact, BigInt.Val;
      tempOuter.Assign(recordOuter);
      SameVal(tempOuter, recordOuter);
      var io := 0;
      while io <= bBound[jo * 18] / 32 + 1
        invariant io <= bBound[jo * 18] / 32 + 2
        invariant Progress(r, jo, io, 0, 0) && powers.Exact() && n.Val() == r.n
        invariant tempOuter.Val() == r.m / Pow23(32 * io, 18 * jo)
        decreases bBound[jo * 18] / 32 + 2 - io
      {
        var n0 := tempOuter.Mod233319();
        Block(n, r, jo, io, log2B, log3B, n0);
        BlockStep(r.m, 32 * io, 18 * jo);
        tempOuter.RShift32(tempOuter);
        io := io + 1;
      }
      SkipBlocks(r, jo, io);
    }

    lemma SameVal(x: BigInt, y: BigInt)
      requires x.data[..] == y.data[..]
      ensures x.Val() == y.Val()
    {
    }

    lemma SkipBlocks(r: Run, jo: nat, io: nat)
      requires Shape() && Progress(r, jo, io, 0, 0)
      requires jo * 18 < bBound.Length && 32 * io > bBound[jo * 18]
      ensures Progress(r, jo + 1, 0, 0, 0)
    {
      hide Borders, AllFilled, Outcome, Covers, Pow23;
      forall b: nat, t: nat | InRegion(r.n, b, t)
        ensures Done(jo, io, 0, 0, b, t) <==> Done(jo + 1, 0, 0, 0, b, t)
      {
        RegionInLogs(r.n, r.log2, r.log3, b, t);
        if t >= 18 * jo {
          RegionDown(r.n, b, t, b, 18 * jo);
          BoundIsLast(r.n, bBound[18 * jo], b, 18 * jo);
        }
      }
      BoundsInRegion(r);
    }

    /** The j_outer loop: the whole schedule. */
    method Schedule(n: BigInt, ghost r: Run, log2B: nat, log3B: nat)
      requires Shape() && powers.Exact() && Scalar(n) && n.Val() == r.n
      requires Progress(r, 0, 0, 0, 0) && log2B == r.log2 && log3B == r.log3
      requires recordOuter.Val() == r.m
      modifies w, w_, this`written, this`wMin, tempOuter.data, recordOuter.data
      ensures Finished(r)
    {
      hide Borders, AllFilled, Outcome, WrittenAt, CoversAt, Tables.Exact, BigInt.Val, Pow23;
      ZeroPower();
      assert r.m / 1 == r.m;
      RegionFits(r.n, ints, 0, log3B);
      var jo := 0;
      while jo <= log3B / 18 + 1
        invariant jo <= log3B / 18 + 2
        invariant Progress(r, jo, 0, 0, 0) && powers.Exact() && n.Val() == r.n
        invariant recordOuter.Val() == r.m / Pow23(0, 18 * jo)
      {
        BlockColumn(n, r, jo, log2B, log3B);
        BlockStep(r.m, 0, 18 * jo);
        recordOuter.Div318();
        jo := jo + 1;
      }
      AllDone(r, jo);
    }

    /**
      After the schedule: precisely the cells of the region (but for the base cell) were written,
      each once, all hold the recurrence's value, and wMin has met every candidate.
     */
    ghost predicate Finished(r: Run)
      requires Shape()
      reads this`wMin, this`written, w, w_, bBound
    {
      && Borders() && Setting(r)
      && (forall b: nat, t: nat :: (b, t) in written <==> b + t > 0 && InRegion(r.n, b, t))
      && (forall b: nat, t: nat :: InRegion(r.n, b, t) ==> Filled(r.m, b, t))
      && (forall t: nat :: t <= r.log3 ==> Covers(r.m, bBound[t], t))
      && Outcome(r)
    }

    lemma AllDone(r: Run, jo: nat)
      requires Shape() && Progress(r, jo, 0, 0, 0) && 18 * jo > r.log3
      ensures Finished(r)
    {
      hide Borders, Outcome, Covers, Pow23, Filled;
      forall b: nat, t: nat | InRegion(r.n, b, t)
        ensures Done(jo, 0, 0, 0, b, t) && Filled(r.m, b, t)
      {
        RegionInLogs(r.n, r.log2, r.log3, b, t);
        if b + t > 0 {
          assert (b, t) in written;
        } else {
          BordersFilled(r.m, b, t);
        }
      }
      BoundsInRegion(r);
    }

    /** The descending scan for `bBound`: one index runs down all columns. */
    method ScanBounds(bigB: BigInt, ghost n: nat, log2B: nat, log3B: nat)
      requires Shape() && powers.Exact() && bigB.data.Length == ints && bigB.Val() == 2 * n
      requires FitsIn(n, ints) && IsLog2(n, log2B) && IsLog3(n, log3B)
      requires forall t :: 0 <= t < bBound.Length ==> bBound[t] >= 0
      modifies bBound
      ensures forall t :: 0 <= t < bBound.Length ==> bBound[t] >= 0
      ensures log2B < MaxDbl(ints) && log3B < MaxTpl(ints)
      ensures forall t :: 0 <= t <= log3B ==> IsBound(n, bBound[t], t)
    {
      hide Pow23, LimbValue, FitsIn;
      RegionFits(n, ints, log2B, 0);
      RegionFits(n, ints, 0, log3B);
      bBound[0] := log2B;
      var i := bBound[0];
      var t := 1;
      while t <= log3B
        invariant 1 <= t <= log3B + 1
        invariant -1 <= i <= bBound[t - 1] <= i + 1
        invariant forall x :: 0 <= x < bBound.Length ==> bBound[x] >= 0
        invariant forall x :: 0 <= x < t ==> IsBound(n, bBound[x], x)
      {
        ghost var last := bBound[t - 1];
        ghost var before := bBound[..];
        AboveBound(n, last, t);
        while i >= 0
          invariant bBound[..] == before
          invariant -1 <= i <= last
          invariant forall b: nat :: b > i ==> Pow23(b, t) > 2 * n
        {
          NextColumn(n, last, i, t, ints);
          var fits := bigB.GreaterEq(powers.pow23All[i, t]);
          if fits {
            bBound[t] := i;
            break;
          }
          i := i - 1;
        }
        ColumnReached(n, t, log3B);
        i := i - 1;
        t := t + 1;
      }
    }

    /** `now_DBC` lists the chain, smallest term first. */
    ghost predicate Listed(c: Chain)
      reads nowDbc
    {
      && Size(c) <= nowDbc.Length
      && forall i :: 0 <= i < Size(c) ==> nowDbc[i] == Terms(c)[Size(c) - 1 - i]
    }

    /** `DBC_store[index]` lists the chain, leading term first. */
    ghost predicate Stored(index: nat, c: Chain)
      requires Shape() && index < 2
      reads dbcStore, dbcLen
    {
      && dbcLen[index] == Size(c) <= dbcStore.Length1
      && forall i :: 0 <= i < Size(c) ==> dbcStore[index, i] == ToEntry(Terms(c)[i])
    }

    /** `w_min = n`: the binary expansion, bit by bit from the last limb up. */
    method AssignBinary(n: BigInt)
      requires Shape() && n.data.Length == ints && 0 < n.Val() < Pow23(MaxDbl(ints), 0)
      modifies this`wMin, nowDbc
      ensures var c := BinaryChain(n.Val(), MaxDbl(ints));
        && IsChainOf(c, n.Val()) && c.Term? && Listed(c)
        && wMin == old(wMin).(length := Size(c), basicValue := Cost(c), isBasic := true)
    {
      hide Pow23, Bit;
      ghost var v := n.Val();
      var flag, bit := 0, 0;
      var i := ints - 1;
      while i >= 0
        invariant -1 <= i < ints && bit == 32 * (ints - 1 - i) && wMin == old(wMin)
        invariant flag == Size(BinaryChain(v, bit)) <= bit && Listed(BinaryChain(v, bit))
      {
        flag, bit := ScanLimb(n, i, flag, bit);
        i := i - 1;
      }
      BinaryIsChain(v, bit);
      assert bit == MaxDbl(ints);
      assert nowDbc[flag - 1] == BinaryChain(v, bit).head;
      wMin := wMin.(length := flag, basicValue := nowDbc[flag - 1].dbl * DBL_COST + ADD_COST * (flag - 1), isBasic := true);
    }

    /** The 32 bits of one limb. */
    method ScanLimb(n: BigInt, i: nat, flagIn: nat, bitIn: nat) returns (flag: nat, bit: nat)
      requires Shape() && n.data.Length == ints && i < ints && bitIn == 32 * (ints - 1 - i)
      requires flagIn == Size(BinaryChain(n.Val(), bitIn)) <= bitIn && Listed(BinaryChain(n.Val(), bitIn))
      modifies nowDbc
      ensures bit == bitIn + 32 && flag == Size(BinaryChain(n.Val(), bit)) <= bit && Listed(BinaryChain(n.Val(), bit))
    {
      hide Pow23, Bit, BigInt.Val;
      ghost var v := n.Val();
      flag, bit := flagIn, bitIn;
      var j: nat := 1;
      ghost var k := 0;
      ZeroPower();
      TwoPower();
      while j <= 0x8000_0000
        invariant 0 <= k <= 32 && bit == bitIn + k && j == Pow23(k, 0)
        invariant flag == Size(BinaryChain(v, bit)) <= bit && Listed(BinaryChain(v, bit))
        decreases 32 - k
      {
        TopPower(k);
        BitOfLimb(n.data[..], ints - 1 - i, k);
        ValIs(n);
        if n.data[i] / j % 2 == 1 {
          nowDbc[flag] := Node(bit, 0, false);
          flag := flag + 1;
        }
        ListedNext(v, bit);
        bit := bit + 1;
        j := j * 2;
        DoubleStep(k, 0);
        k := k + 1;
      }
      TopPower(k);
    }

    lemma ValIs(n: BigInt)
      ensures n.Val() == LimbValue(n.data[..])
    {
    }

    /** One more bit looked at. */
    lemma ListedNext(v: nat, bit: nat)
      requires var c, d := BinaryChain(v, bit), Node(bit, 0, false);
        if Bit(v, bit) then
          && Size(c) < nowDbc.Length && nowDbc[Size(c)] == d
          && forall i :: 0 <= i < Size(c) ==> nowDbc[i] == Terms(c)[Size(c) - 1 - i]
        else Listed(c)
      ensures Listed(BinaryChain(v, bit + 1))
      ensures Size(BinaryChain(v, bit + 1)) == Size(BinaryChain(v, bit)) + (if Bit(v, bit) then 1 else 0)
    {
    }

    /** The chain that wMin stands for. */
    ghost function Result(r: Run): Chain
      reads this`wMin
    {
      if wMin == r.bin then BinaryChain(r.n, MaxDbl(ints))
      else if wMin.isBasic then Empty
      else ChainOf(r.m, wMin)
    }

    /** A cell on the way down: the rest of its chain hangs below a filled slot. */
    ghost predicate Live(r: Run, x: Cell) {
      && !x.isNull && x.length >= 0
      && (x.length > 0 ==>
            && x.parent.Slot? && InRegion(r.n, x.parent.b, x.parent.t)
            && !Best(r.m, x.parent.table, x.parent.b, x.parent.t).isNull
            && Best(r.m, x.parent.table, x.parent.b, x.parent.t).length == x.length - 1)
    }

    lemma ParentIsLive(r: Run, table: Table, b: nat, t: nat)
      requires InRegion(r.n, b, t) && !Best(r.m, table, b, t).isNull
      ensures Live(r, Best(r.m, table, b, t))
    {
      hide Best, Target;
      BestIsSound(r.m, table, b, t);
      var x := Best(r.m, table, b, t);
      if x.length > 0 {
        HeadInRegion(r, x, b, t, Target(r.m / 6, table, b, t));
      }
    }

    lemma HeadInRegion(r: Run, x: Cell, b: nat, t: nat, v: int)
      requires Realizes(r.m, x, b, t, v) && !x.isNull && x.length > 0 && InRegion(r.n, b, t)
      ensures InRegion(r.n, x.addNode.dbl, x.addNode.tpl)
    {
      hide Best;
      RegionDown(r.n, b, t, x.addNode.dbl, x.addNode.tpl);
    }

    /** `simDBC()`: following the parents from wMin lists its chain; no cell has changed meanwhile. */
    method SimDbc(ghost r: Run)
      requires Shape() && Finished(r) && !r.bin.isNull && r.bin.isBasic
      requires wMin == r.bin ==> Listed(BinaryChain(r.n, MaxDbl(ints))) && wMin.length == Size(BinaryChain(r.n, MaxDbl(ints)))
      requires 0 <= wMin.length <= nowDbc.Length
      modifies nowDbc
      ensures Listed(Result(r)) && wMin.length == Size(Result(r))
    {
      hide Best, Pow23, BinaryChain, Borders, Setting, Covers;
      if wMin.isBasic {
        return;
      }
      LiveOutcome(r);
      Follow(r, ChainOf(r.m, wMin));
    }

    method Follow(ghost r: Run, ghost c: Chain)
      requires Shape() && Finished(r) && Live(r, wMin)
      requires c == ChainOf(r.m, wMin) && Size(c) == wMin.length <= nowDbc.Length
      modifies nowDbc
      ensures Listed(c)
    {
      hide Best, Pow23, Finished, Filled, InRegion, Suffix, Walk, Live, Size, Terms;
      WholeSuffix(c);
      var present := wMin;
      ghost var rest := c;
      var i := wMin.length - 1;
      while i >= 0
        invariant -1 <= i < wMin.length
        invariant Live(r, present) && present.length == i + 1
        invariant rest == Walk(r.m, present, i + 1)
        invariant Suffix(c, rest, i + 1)
        invariant forall x :: i < x < Size(c) ==> nowDbc[x] == Terms(c)[Size(c) - 1 - x]
      {
        nowDbc[i] := present.addNode;
        var slot := present.parent;
        LiveStep(r, present, i, c, rest);
        SlotContent(r, slot.b, slot.t);
        present := if slot.table.Plain? then w[slot.b + 1, slot.t + 1] else w_[slot.b + 1, slot.t + 1];
        rest := rest.rest;
        i := i - 1;
      }
    }

    lemma SlotContent(r: Run, b: nat, t: nat)
      requires Shape() && Finished(r) && InRegion(r.n, b, t)
      ensures HasSlot(b, t)
      ensures w[b + 1, t + 1] == Best(r.m, Plain, b, t) && w_[b + 1, t + 1] == Best(r.m, Complement, b, t)
    {
      hide Best, Pow23, Borders, Setting, Covers, Outcome;
      assert Filled(r.m, b, t);
    }

    lemma WholeSuffix(c: Chain)
      ensures Suffix(c, c, Size(c))
    {
    }

    /** The last `size` terms of c are those of d. */
    ghost predicate Suffix(c: Chain, d: Chain, size: nat) {
      Size(d) == size <= Size(c) && Terms(c)[Size(c) - size..] == Terms(d)
    }

    lemma LiveParent(r: Run, x: Cell)
      requires Live(r, x) && x.length > 0
      ensures x.parent.Slot? && InRegion(r.n, x.parent.b, x.parent.t)
      ensures !Best(r.m, x.parent.table, x.parent.b, x.parent.t).isNull
      ensures Best(r.m, x.parent.table, x.parent.b, x.parent.t).length == x.length - 1
    {
    }

    lemma LiveStep(r: Run, x: Cell, i: nat, c: Chain, d: Chain)
      requires Live(r, x) && x.length == i + 1 && d == Walk(r.m, x, i + 1) && Suffix(c, d, i + 1)
      ensures x.parent.Slot? && InRegion(r.n, x.parent.b, x.parent.t)
      ensures var y := Best(r.m, x.parent.table, x.parent.b, x.parent.t);
        Live(r, y) && y.length == i && d.Term? && d.rest == Walk(r.m, y, i)
      ensures i < Size(c) && x.addNode == Terms(c)[Size(c) - 1 - i]
      ensures Suffix(c, d.rest, i)
    {
      hide Best, Live;
      LiveParent(r, x);
      ParentIsLive(r, x.parent.table, x.parent.b, x.parent.t);
      assert Terms(c)[Size(c) - 1 - i] == Terms(c)[Size(c) - 1 - i..][0] == Terms(d)[0];
      assert Terms(c)[Size(c) - i..] == Terms(c)[Size(c) - 1 - i..][1..];
    }

    lemma LiveOutcome(r: Run)
      requires Shape() && Outcome(r) && !wMin.isBasic && r.bin.isBasic
      ensures Live(r, wMin) && Size(ChainOf(r.m, wMin)) == wMin.length
    {
      hide Best;
      var c := ChainOf(r.m, wMin);
      assert ChainCell(r.m, wMin, r.m / 6);
      var p := wMin.parent;
      assert c == Term(wMin.addNode, Walk(r.m, Best(r.m, p.table, p.b, p.t), wMin.length - 1));
    }

    /** The export: `DBC_store[0]` gets the chain in the opposite order. */
    method Export(ghost c: Chain)
      requires Shape() && Listed(c) && wMin.length == Size(c)
      modifies dbcStore, dbcLen
      ensures Stored(0, c)
    {
      var i := 0;
      while i < wMin.length
        invariant 0 <= i <= wMin.length
        invariant forall x :: 0 <= x < i ==> dbcStore[0, wMin.length - x - 1] == ToEntry(nowDbc[x])
      {
        dbcStore[0, wMin.length - i - 1] := ToEntry(nowDbc[i]);
        i := i + 1;
      }
      forall x | 0 <= x < Size(c)
        ensures dbcStore[0, x] == ToEntry(Terms(c)[x])
      {
        var y := wMin.length - 1 - x;
        assert dbcStore[0, wMin.length - y - 1] == ToEntry(nowDbc[y]);
      }
      dbcLen[0] := wMin.length;
    }

    /** The value the digits are taken from: 3 * (2 * n) as the limb routines compute it. */
    ghost function SixN(s: seq<Limb>): nat {
      LimbValue(MulSmall(3, MulSmall(2, s)))
    }

    /** The tripling of 2n loses no carry: the condition under which the builder is right. */
    ghost predicate TriplingExact(s: seq<Limb>) {
      forall i :: 0 <= i < |s| ==> !CarryLost(3, MulSmall(2, s), i)
    }

    /** What the run leaves: the binary chain, or a cheaper candidate, a chain of floor(m/6); none met is cheaper. */
    ghost predicate Chosen(c: Chain, n: nat, m: nat) {
      && IsChain(c)
      && (|| c == BinaryChain(n, MaxDbl(ints))
          || (&& Value(c) == m / 6
              && Cost(c) < Cost(BinaryChain(n, MaxDbl(ints)))
              && CandidateCosts(n, m, Cost(c))))
      && (forall b: nat, t: nat :: IsBound(n, b, t) ==>
            Cost(c) <= PlainCandidate(m, b, t).GetV() && Cost(c) <= FullCandidate(m, b, t).GetV())
    }

    /** No candidate is cheaper than the binary chain. */
    ghost predicate BinaryWins(n: nat, m: nat) {
      forall b: nat, t: nat :: IsBound(n, b, t) ==>
        && Cost(BinaryChain(n, MaxDbl(ints))) <= PlainCandidate(m, b, t).GetV()
        && Cost(BinaryChain(n, MaxDbl(ints))) <= FullCandidate(m, b, t).GetV()
    }

    /**
      `getOptimalDBC(n)`. The stored chain is the cheapest of the candidates. If the tripling
      of 2n lost no carry, it is a chain of n, and no double-base chain of n is cheaper.
     */
    method GetOptimalDbc(n: BigInt, log2B: nat, log3B: nat) returns (index: nat, ghost c: Chain)
      requires Valid() && Scalar(n) && FitsIn(n.Val(), ints)
      requires IsLog2(n.Val(), log2B) && IsLog3(n.Val(), log3B)
      modifies w, w_, this`wMin, this`written, nowDbc, bBound, dbcStore, dbcLen, recordOuter.data, tempOuter.data
      ensures Valid() && index == 0 && Stored(0, c)
      ensures Listed(c) && wMin.length == Size(c) && !wMin.isNull
      ensures Chosen(c, n.Val(), SixN(n.data[..]))
      ensures TriplingExact(n.data[..]) ==>
                IsChainOf(c, n.Val()) && forall d :: IsChainOf(d, n.Val()) ==> Cost(c) <= Cost(d)
      ensures TriplingExact(n.data[..]) ==> c.Term?
      ensures TriplingExact(n.data[..]) ==>
                forall d :: IsChainOf(d, n.Val()) ==>
                  && d.Term?
                  && 70 * c.head.dbl + 126 * c.head.tpl + 150 * (Size(c) - 1)
                  <= 70 * d.head.dbl + 126 * d.head.tpl + 150 * (Size(d) - 1)
    {
      hide Progress, Finished, Chosen, Listed, Stored, TriplingExact, Borders, Setting, Outcome, BigInt.Val, FitsIn;
      hide Tables.Exact, IsLog2, IsLog3, IsChainOf;
      ghost var r := Prepare(n, log2B, log3B);
      SettingBound(r);
      Schedule(n, r, log2B, log3B);
      ResultFacts(r);
      SimDbc(r);
      c := Result(r);
      Export(c);
      index := 0;
      FinishedIsValid(r);
      ValIs(n);
      OptimalIfExact(r, c, n.data[..]);
      if TriplingExact(n.data[..]) {
        Pow23Positive(n.Val(), ints);
        OptimalInNumbers(c, n.Val());
      }
    }

    lemma OptimalInNumbers(c: Chain, n: int)
      requires n != 0 && IsChainOf(c, n) && forall d :: IsChainOf(d, n) ==> Cost(c) <= Cost(d)
      ensures c.Term?
      ensures forall d :: IsChainOf(d, n) ==>
                && d.Term?
                && 70 * c.head.dbl + 126 * c.head.tpl + 150 * (Size(c) - 1)
                <= 70 * d.head.dbl + 126 * d.head.tpl + 150 * (Size(d) - 1)
    {
      hide IsChain, Cost;
      CostInNumbers(c);
      forall d | IsChainOf(d, n)
        ensures d.Term? && Cost(d) == 70 * d.head.dbl + 126 * d.head.tpl + 150 * (Size(d) - 1)
      {
        CostInNumbers(d);
      }
    }

    /** Up to the block loops: the binary candidate, 2n, 6n, and the bounds. */
    method Prepare(n: BigInt, log2B: nat, log3B: nat) returns (ghost r: Run)
      requires Valid() && Scalar(n) && FitsIn(n.Val(), ints)
      requires IsLog2(n.Val(), log2B) && IsLog3(n.Val(), log3B)
      modifies this`wMin, this`written, nowDbc, bBound, recordOuter.data
      ensures r == Run(n.Val(), SixN(n.data[..]), log2B, log3B, wMin)
      ensures Progress(r, 0, 0, 0, 0) && recordOuter.Val() == r.m && IsBinary(r)
    {
      hide Pow23, MulSmall, LimbValue, Tables.Exact, BinaryChain, Borders, Progress;
      ghost var s, v := n.data[..], n.Val();
      SixNFacts(s, ints);
      Pow23Positive(v, ints);
      AssignBinary(n);
      var bigB := n.Mul2();
      var sixN := bigB.Mul3();
      ScanBounds(bigB, v, log2B, log3B);
      recordOuter.Assign(sixN);
      r := Run(v, SixN(s), log2B, log3B, wMin);
      written := {};
      BinaryCost(v, ints);
      NothingWritten(r);
    }

    /** Before the first visit. */
    lemma NothingWritten(r: Run)
      requires Shape() && Borders() && Setting(r) && written == {} && wMin == r.bin
      ensures Progress(r, 0, 0, 0, 0)
    {
    }

    /** wMin's binary candidate and the list it left in `now_DBC`. */
    ghost predicate IsBinary(r: Run)
      reads nowDbc
    {
      var c := BinaryChain(r.n, MaxDbl(ints));
      && r.bin.isBasic && !r.bin.isNull && r.bin.length == Size(c) && r.bin.basicValue == Cost(c)
      && IsChainOf(c, r.n) && c.Term? && Listed(c)
    }

    lemma SettingBound(r: Run)
      requires Shape() && Progress(r, 0, 0, 0, 0)
      ensures Setting(r)
    {
    }

    /** After the schedule, wMin's chain is the cheapest candidate, and fits `now_DBC`. */
    lemma ResultFacts(r: Run)
      requires Shape() && Finished(r) && IsBinary(r)
      ensures Chosen(Result(r), r.n, r.m) && wMin.length == Size(Result(r)) <= nowDbc.Length
      ensures r.bin.isBasic && !r.bin.isNull && !wMin.isNull
      ensures wMin == r.bin ==> Listed(BinaryChain(r.n, MaxDbl(ints))) && wMin.length == Size(BinaryChain(r.n, MaxDbl(ints)))
    {
      hide Best, BinaryChain, Chosen;
      if !wMin.isBasic {
        LiveOutcome(r);
        RegionFits(r.n, ints, wMin.addNode.dbl, wMin.addNode.tpl);
        HeadSize(r.m, wMin, r.m / 6);
      } else {
        BinaryCost(r.n, ints);
      }
      ResultIsChosen(r);
    }

    lemma ResultIsChosen(r: Run)
      requires Shape() && Finished(r) && IsBinary(r)
      ensures Chosen(Result(r), r.n, r.m)
    {
      hide Best, BinaryChain, Borders, Setting, Filled, PlainCandidate, FullCandidate, Listed, ChainOf, Value, Size, Pow23;
      CoversAll(r);
      var c := Result(r);
      EmptyFacts();
      assert Cost(c) == wMin.GetV();
      assert forall b: nat, t: nat :: IsBound(r.n, b, t) ==> Covers(r.m, b, t);
    }

    lemma EmptyFacts()
      ensures Value(Empty) == 0 && Cost(Empty) == 0 && IsChain(Empty)
    {
    }

    lemma HeadSize(m: nat, x: Cell, v: int)
      requires ChainCell(m, x, v)
      ensures Size(ChainOf(m, x)) <= x.addNode.dbl + x.addNode.tpl + 1
    {
      hide Best;
      var c := ChainOf(m, x);
      SizeBound(c.rest, c.head.dbl, c.head.tpl);
    }

    /** Every bound is the bound of a visited column. */
    lemma CoversAll(r: Run)
      requires Shape() && Finished(r)
      ensures forall b: nat, t: nat :: IsBound(r.n, b, t) ==> Covers(r.m, b, t)
    {
      hide Covers, Filled, Outcome, Borders;
      forall b: nat, t: nat | IsBound(r.n, b, t)
        ensures Covers(r.m, b, t)
      {
        RegionInLogs(r.n, r.log2, r.log3, b, t);
        BoundIsLast(r.n, bBound[t], b, t);
        BoundIsLast(r.n, b, bBound[t], t);
      }
    }

    lemma FinishedIsValid(r: Run)
      requires Shape() && Finished(r) && powers.Exact() && !wMin.isNull
      ensures Valid()
    {
    }

    /** Digits of 6n itself: the chosen chain is a cheapest chain of n. */
    lemma OptimalIfExact(r: Run, c: Chain, s: seq<Limb>)
      requires FitsIn(r.n, ints) && |s| == ints && LimbValue(s) == r.n && r.m == SixN(s)
      requires Chosen(c, r.n, r.m)
      ensures TriplingExact(s) ==> IsChainOf(c, r.n) && forall d :: IsChainOf(d, r.n) ==> Cost(c) <= Cost(d)
    {
      hide Best, Pow23, LimbValue, BinaryChain, MulSmall, CarryLost;
      SixNFacts(s, ints);
      if TriplingExact(s) {
        FitsInFits(r.n, ints);
        Pow23Positive(r.n, ints);
        BinaryIsChain(r.n, MaxDbl(ints));
        forall d | IsChainOf(d, r.n)
          ensures Cost(c) <= Cost(d)
        {
          var b, t := CandidateIsCheapest(r.n, d);
        }
      }
    }

    /**
      Exactly when the exported chain is one of n: when the tripling of 2n loses no carry, or when
      no candidate that the digits offer is cheaper than the binary chain.
     */
    lemma RightValueExactly(c: Chain, s: seq<Limb>)
      requires Shape() && |s| == ints && FitsIn(LimbValue(s), ints)
      requires Chosen(c, LimbValue(s), SixN(s))
      ensures Value(c) == LimbValue(s) <==> TriplingExact(s) || BinaryWins(LimbValue(s), SixN(s))
    {
      hide Best, Pow23, LimbValue, BinaryChain, MulSmall, CarryLost, PlainCandidate, FullCandidate, Value, Cost;
      var n := LimbValue(s);
      SixNFacts(s, ints);
      if !TriplingExact(s) { LossIsLarge(s, ints); }
      Pow23Positive(n, ints);
      BinaryIsChain(n, MaxDbl(ints));
      assert (6 * n) / 6 == n;
      if c == BinaryChain(n, MaxDbl(ints)) {
        assert BinaryWins(n, SixN(s));
      }
    }

    /** Below 2^64, and so with two limbs, nothing is lost. */
    lemma SmallIsExact(s: seq<Limb>)
      requires |s| == ints && FitsIn(LimbValue(s), ints)
      requires ints == 2 || 6 * LimbValue(s) < 0x1_0000_0000_0000_0000
      ensures TriplingExact(s)
    {
      hide LimbValue, CarryLost, MulSmall, Pow23;
      SixNFacts(s, ints);
      BasePowTwo();
      BasePowIsPower(2);
      SmallLosesNothing(MulSmall(2, s));
    }

    /** A lost carry takes the digits below those of n. */
    lemma LossIsLarge(s: seq<Limb>, ints: nat)
      requires |s| == ints && FitsIn(LimbValue(s), ints) && !TriplingExact(s)
      ensures SixN(s) + BASE <= 6 * LimbValue(s) && SixN(s) / 6 < LimbValue(s)
    {
      hide LimbValue, CarryLost, Pow23, MulSmall, LostValue;
      var twice := MulSmall(2, s);
      SixNFacts(s, ints);
      BasePowIsPower(ints);
      MulSmallExact(3, twice);
      LostValueLarge(3, twice, |s|);
    }

    lemma SixNFacts(s: seq<Limb>, ints: nat)
      requires |s| == ints && FitsIn(LimbValue(s), ints)
      ensures LimbValue(MulSmall(2, s)) == 2 * LimbValue(s)
      ensures SixN(s) <= 6 * LimbValue(s)
      ensures TriplingExact(s) <==> SixN(s) == 6 * LimbValue(s)
    {
      hide LimbValue, CarryLost, Pow23;
      BasePowIsPower(ints);
      MulSmallExact(2, s);
      forall x | 0 <= x < |s|
        ensures !CarryLost(2, s, x)
      {
        DoublingLosesNothing(s, x);
      }
      MulSmallExact(3, MulSmall(2, s));
    }
  }

  /** Some candidate at a bound costs v. */
  ghost predicate CandidateCosts(n: nat, m: nat, v: int) {
    exists b: nat, t: nat :: IsBound(n, b, t) && (PlainCandidate(m, b, t).GetV() == v || FullCandidate(m, b, t).GetV() == v)
  }

  lemma MinVCases(x: Cell, y: Cell, z: Cell)
    ensures var v := MinV3(x, y, z);
      && (v == z || ((v == x || v == y) && v.GetV() < z.GetV()))
      && v.GetV() <= x.GetV() && v.GetV() <= y.GetV() && v.GetV() <= z.GetV()
  {
  }

  /** The candidates of a column are NULL, or chains inside the region, or (for m < 6) the base cell. */
  lemma CandidateOutcomes(n: nat, m: nat, b: nat, t: nat)
    requires InRegion(n, b, t) && m / 6 < Pow23(b, t)
    ensures var x := PlainCandidate(m, b, t);
      || x == NULL_CELL || (m < 6 && x == BASE_CELL)
      || (ChainCell(m, x, m / 6) && InRegion(n, x.addNode.dbl, x.addNode.tpl))
    ensures var x := FullCandidate(m, b, t);
      || x == NULL_CELL
      || (ChainCell(m, x, m / 6) && InRegion(n, x.addNode.dbl, x.addNode.tpl))
  {
    hide Best, Target;
    var k := m / 6;
    TargetBelow(k, b, t);
    BestIsSound(m, Plain, b, t);
    BestIsSound(m, Complement, b, t);
    PlainOutcome(n, m, b, t);
    FullCell(m, b, t, k);
  }

  lemma TargetBelow(k: nat, b: nat, t: nat)
    requires k < Pow23(b, t)
    ensures Target(k, Plain, b, t) == k && Target(k, Complement, b, t) == k - Pow23(b, t)
  {
    ModUnique(k, Pow23(b, t), 0, k);
  }

  lemma PlainOutcome(n: nat, m: nat, b: nat, t: nat)
    requires InRegion(n, b, t) && Realizes(m, Best(m, Plain, b, t), b, t, m / 6)
    ensures var x := PlainCandidate(m, b, t);
      || x == NULL_CELL || (m < 6 && x == BASE_CELL)
      || (ChainCell(m, x, m / 6) && InRegion(n, x.addNode.dbl, x.addNode.tpl))
  {
    hide Best;
    var x := PlainCandidate(m, b, t);
    if !x.isNull {
      var c := ChainOf(m, x);
      if c.Term? {
        LeadingTerm(c);
        RegionDown(n, b, t, c.head.dbl, c.head.tpl);
        PlainCell(m, b, t, m / 6);
      }
    }
  }

  /** No row from the last column's bound up fits the next column. */
  lemma AboveBound(n: nat, last: nat, t: nat)
    requires t > 0 && IsBound(n, last, t - 1)
    ensures forall b: nat :: b >= last ==> Pow23(b, t) > 2 * n
  {
    DoubleStep(last, t - 1);
    hide Pow23;
    forall b: nat | b >= last
      ensures Pow23(b, t) > 2 * n
    {
      Pow23Monotone(last, t - 1, b, t - 1);
      TripleStep(b, t);
    }
  }

  /** The entries that the scan compares with are inside the table, and exact. */
  lemma NextColumn(n: nat, last: nat, i: nat, t: nat, ints: nat)
    requires FitsIn(n, ints) && t > 0 && IsBound(n, last, t - 1) && i <= last
    ensures Pow23(i, t) < Pow23(MaxDbl(ints), 0) && i < MaxDbl(ints)
  {
    TripleStep(i, t);
    Pow23Monotone(i, t - 1, last, t - 1);
    RegionFits(n, ints, last, t - 1);
  }

  lemma ColumnReached(n: nat, t: nat, log3: nat)
    requires IsLog3(n, log3) && t <= log3
    ensures Pow23(0, t) <= 2 * n
  {
    Pow23Monotone(0, t, 0, log3);
  }

  lemma BinaryIsChain(v: nat, bits: nat)
    requires 0 < v < Pow23(bits, 0)
    ensures IsChainOf(BinaryChain(v, bits), v) && BinaryChain(v, bits).Term?
    ensures Terms(BinaryChain(v, bits))[0] == BinaryChain(v, bits).head && BinaryChain(v, bits).head.tpl == 0
  {
    BinaryValue(v, bits);
    ModUnique(v, Pow23(bits, 0), 0, v);
  }

  lemma TopPower(k: nat)
    ensures Pow23(k, 0) <= 0x8000_0000 <==> k < 32
  {
    TwoPower();
    DoubleStep(31, 0);
    PowerOrder(31, k);
  }

  lemma Pow23Positive(n: nat, ints: nat)
    requires FitsIn(n, ints)
    ensures 0 < n < Pow23(MaxDbl(ints), 0)
  {
  }

  lemma BinaryCost(n: nat, ints: nat)
    requires FitsIn(n, ints)
    ensures Cost(BinaryChain(n, MaxDbl(ints))) < SENTINEL && Size(BinaryChain(n, MaxDbl(ints))) <= MaxDbl(ints)
  {
    BinaryValue(n, MaxDbl(ints));
    SizeBound(BinaryChain(n, MaxDbl(ints)), MaxDbl(ints), 0);
  }
}
