/** The tables of 2^i 3^j that `init()` prepares: one of machine words, one of big integers. */
module PowerTables {
  import opened Powers
  import opened Limbs
  import opened BigInts
  import opened Digits
  import opened Bounds
  import opened BinaryChains

  /** No 2^b 3^t loses a carry when it is tripled to a number that fits the limbs and has a column. */
  ghost predicate LosslessPowers(ints: nat) {
    forall b: nat, t: nat, i: nat ::
      b < MaxDbl(ints) && t + 1 < MaxTpl(ints) && i < ints && Pow23(b, t + 1) < Pow23(MaxDbl(ints), 0)
      ==> !CarryLost(3, LimbsOf(Pow23(b, t), ints), i)
  }

  class Tables {
    const ints: nat
    const pow2: array<Word>
    const pow3: array<Word>
    const pow23Small: array2<Word>
    const pow23All: array2<seq<Limb>>

    ghost predicate Shape() {
      && 2 <= ints <= 21
      && pow2.Length == 64 && pow3.Length == 40 && pow2 != pow3
      && pow23Small.Length0 == 33 && pow23Small.Length1 == 19
      && pow23All.Length0 == MaxDbl(ints) && pow23All.Length1 == MaxTpl(ints)
    }

    /** `pow23_1` holds every 2^i 3^j a block needs. */
    ghost predicate SmallExact()
      requires Shape()
      reads pow23Small
    {
      forall i, j :: 0 <= i < 33 && 0 <= j < 19 ==> pow23Small[i, j] == Pow23(i, j)
    }

    /** Every entry of `pow23_all` is a number of INTS limbs. */
    ghost predicate Sized()
      requires Shape()
      reads pow23All
    {
      forall b, t :: 0 <= b < pow23All.Length0 && 0 <= t < pow23All.Length1 ==> |pow23All[b, t]| == ints
    }

    /** `pow23_all` holds the powers, as far as the limbs reach. */
    ghost predicate AllExact()
      requires Shape()
      reads pow23All
    {
      forall b, t ::
        (0 <= b < pow23All.Length0 && 0 <= t < pow23All.Length1 && Pow23(b, t) < Pow23(MaxDbl(ints), 0))
        ==> LimbValue(pow23All[b, t]) == Pow23(b, t)
    }

    ghost predicate Exact()
      reads pow23Small, pow23All
    {
      Shape() && SmallExact() && Sized() && AllExact()
    }

    /** `rows` is what the first |rows| rows of `pow23_all` hold. */
    ghost predicate Holds(rows: seq<seq<seq<Limb>>>)
      requires Shape()
      reads pow23All
    {
      && |rows| <= pow23All.Length0
      && (forall b :: 0 <= b < |rows| ==> |rows[b]| == pow23All.Length1)
      && (forall b, t :: 0 <= b < |rows| && 0 <= t < pow23All.Length1 ==> pow23All[b, t] == rows[b][t])
    }

    /** The first column holds the powers of two, the rows their tripled limbs, and zeros where those no longer fit. */
    ghost predicate Tripled()
      requires Shape()
      reads pow23All
    {
      && (forall b :: 0 <= b < pow23All.Length0 ==> LimbValue(pow23All[b, 0]) == Pow23(b, 0))
      && (forall b, t :: 0 <= b < pow23All.Length0 && 0 < t < pow23All.Length1 && Pow23(b, t) < Pow23(MaxDbl(ints), 0)
            ==> pow23All[b, t] == MulSmall(3, pow23All[b, t - 1]))
      && (forall b, t :: 0 <= b < pow23All.Length0 && 0 < t < pow23All.Length1 && Pow23(b, t) > Pow23(MaxDbl(ints), 0)
            ==> LimbValue(pow23All[b, t]) == 0)
    }

    /** What `init()` leaves, whatever carries were lost. */
    ghost predicate Initialised()
      reads pow23Small, pow23All
    {
      Shape() && SmallExact() && Sized() && Tripled()
    }

    /**
      `init()`: the tables are exact if and only if no power of the limb count loses a carry when it
      is tripled, a statement about numbers alone. With two limbs none does.
     */
    constructor (ints: nat)
      requires 2 <= ints <= 21
      ensures this.ints == ints && Initialised()
      ensures Exact() <==> LosslessPowers(ints)
      ensures ints == 2 ==> Exact()
      ensures forall x :: 0 <= x < 64 ==> pow2[x] == Pow23(x, 0)
      ensures forall x :: 0 <= x < 40 ==> pow3[x] == Pow23(0, x)
      ensures fresh(pow2) && fresh(pow3) && fresh(pow23Small) && fresh(pow23All)
    {
      hide Pow23, LimbValue, MulSmall, LosslessPowers, RowTripled;
      this.ints := ints;
      pow2 := new Word[64](_ => 0);
      pow3 := new Word[40](_ => 0);
      pow23Small := new Word[33, 19]((i, j) => 0);
      var zero: seq<Limb> := seq(ints, _ => 0);
      pow23All := new seq<Limb>[32 * ints, 2019 * ints / 100]((i, j) => zero);
      new;
      ZeroLimbs(zero);
      FillSmall();
      ghost var rows := FillAll();
      RowsTripled(rows);
      ExactIfLossless();
    }

    /** `pow2`, `pow3` and `pow23_1`, all within 64 bits. */
    method FillSmall()
      requires Shape()
      modifies pow2, pow3, pow23Small
      ensures SmallExact()
      ensures forall x :: 0 <= x < 64 ==> pow2[x] == Pow23(x, 0)
      ensures forall x :: 0 <= x < 40 ==> pow3[x] == Pow23(0, x)
    {
      hide Pow23;
      ZeroPower();
      pow2[0] := 1;
      pow3[0] := 1;
      var i := 1;
      while i < 64
        modifies pow2
        invariant 1 <= i <= 64
        invariant forall x :: 0 <= x < i ==> pow2[x] == Pow23(x, 0)
      {
        WordPowers(i, 0);
        DoubleStep(i - 1, 0);
        pow2[i] := pow2[i - 1] as int * 2;
        i := i + 1;
      }
      i := 1;
      while i < 40
        modifies pow3
        invariant 1 <= i <= 40
        invariant forall x :: 0 <= x < i ==> pow3[x] == Pow23(0, x)
      {
        WordPowers(0, i);
        TripleStep(0, i);
        pow3[i] := pow3[i - 1] as int * 3;
        i := i + 1;
      }
      i := 0;
      while i < 33
        modifies pow23Small
        invariant 0 <= i <= 33
        invariant forall x, y :: 0 <= x < i && 0 <= y < 19 ==> pow23Small[x, y] == Pow23(x, y)
      {
        SmallRow(i);
        i := i + 1;
      }
    }

    method SmallRow(i: nat)
      requires Shape() && i < 33
      requires forall x :: 0 <= x < 64 ==> pow2[x] == Pow23(x, 0)
      requires forall x :: 0 <= x < 40 ==> pow3[x] == Pow23(0, x)
      modifies pow23Small
      ensures forall y :: 0 <= y < 19 ==> pow23Small[i, y] == Pow23(i, y)
      ensures forall x, y :: 0 <= x < 33 && 0 <= y < 19 && x != i ==> pow23Small[x, y] == old(pow23Small[x, y])
    {
      hide Pow23;
      var j := 0;
      while j < 19
        invariant 0 <= j <= 19
        invariant forall y :: 0 <= y < j ==> pow23Small[i, y] == Pow23(i, y)
        invariant forall x, y :: 0 <= x < 33 && 0 <= y < 19 && x != i ==> pow23Small[x, y] == old(pow23Small[x, y])
      {
        WordPowers(i, j);
        Pow23Product(i, 0, 0, j);
        pow23Small[i, j] := pow2[i] as int * pow3[j];
        j := j + 1;
      }
    }

    /**
      `pow23_all`: doublings down the first column, triplings along the rows, until 2^i 3^j
      exceeds the limbs.
     */
    method FillAll() returns (ghost rows: seq<seq<seq<Limb>>>)
      requires Shape() && Sized() && ZeroFrom(0) && LimbValue(pow23All[0, 0]) == 0
      modifies pow23All
      ensures Sized() && |rows| == pow23All.Length0 && Holds(rows)
      ensures forall b :: 0 <= b < |rows| ==> RowTripled(rows[b], b, MaxDbl(ints))
    {
      hide Pow23, LimbValue, RowTripled;
      ZeroLimbs(pow23All[0, 0]);
      UnitValue(pow23All[0, 0]);
      ZeroPower();
      pow23All[0, 0] := pow23All[0, 0][ints - 1 := 1];
      ghost var row := TripleRow(0);
      rows := [row];
      var i := 1;
      while i < MaxDbl(ints)
        invariant 1 <= i == |rows| <= MaxDbl(ints)
        invariant Sized() && ZeroFrom(i) && Holds(rows) && LimbValue(pow23All[i - 1, 0]) == Pow23(i - 1, 0)
        invariant forall b :: 0 <= b < i ==> RowTripled(rows[b], b, MaxDbl(ints))
      {
        row := DoubleRow(i);
        rows := rows + [row];
        i := i + 1;
      }
    }

    /** From row i on, nothing is stored outside the first column. */
    ghost predicate ZeroFrom(i: nat)
      requires Shape()
      reads pow23All
    {
      forall b, t :: i <= b < pow23All.Length0 && 0 < t < pow23All.Length1 ==> LimbValue(pow23All[b, t]) == 0
    }

    /** One further row: its first entry by doubling, the others by tripling. */
    method DoubleRow(i: nat) returns (ghost row: seq<seq<Limb>>)
      requires Shape() && Sized() && ZeroFrom(i) && 0 < i < MaxDbl(ints) && LimbValue(pow23All[i - 1, 0]) == Pow23(i - 1, 0)
      modifies pow23All
      ensures Sized() && LimbValue(pow23All[i, 0]) == Pow23(i, 0)
      ensures |row| == pow23All.Length1 && RowTripled(row, i, MaxDbl(ints))
      ensures forall t :: 0 <= t < |row| ==> pow23All[i, t] == row[t]
      ensures forall b, t :: 0 <= b < pow23All.Length0 && 0 <= t < pow23All.Length1 && b != i ==>
                pow23All[b, t] == old(pow23All[b, t])
    {
      hide Pow23, LimbValue, RowTripled;
      var x := new BigInt.From(pow23All[i - 1, 0]);
      var y := x.Mul2();
      DoubledPower(i, pow23All[i - 1, 0], ints);
      pow23All[i, 0] := y.data[..];
      row := TripleRow(i);
    }

    /** The triplings along one row. */
    method TripleRow(i: nat) returns (ghost row: seq<seq<Limb>>)
      requires Shape() && Sized() && ZeroFrom(i) && i < MaxDbl(ints) && LimbValue(pow23All[i, 0]) == Pow23(i, 0)
      modifies pow23All
      ensures Sized() && pow23All[i, 0] == old(pow23All[i, 0])
      ensures |row| == pow23All.Length1 && RowTripled(row, i, MaxDbl(ints))
      ensures forall t :: 0 <= t < |row| ==> pow23All[i, t] == row[t]
      ensures forall b, t :: 0 <= b < pow23All.Length0 && 0 <= t < pow23All.Length1 && b != i ==>
                pow23All[b, t] == old(pow23All[b, t])
    {
      hide Pow23, LimbValue, RowTripled;
      var j := 1;
      row := [pow23All[i, 0]];
      assert RowTripled(row, i, MaxDbl(ints)) by { RowStarts(row, i, MaxDbl(ints)); }
      while j < MaxTpl(ints)
        invariant 1 <= j == |row| <= MaxTpl(ints)
        invariant Sized() && RowTripled(row, i, MaxDbl(ints))
        invariant pow23All[i, 0] == old(pow23All[i, 0])
        invariant forall t :: 0 <= t < j ==> pow23All[i, t] == row[t]
        invariant forall t :: j <= t < pow23All.Length1 ==> LimbValue(pow23All[i, t]) == 0
        invariant forall b, t :: 0 <= b < pow23All.Length0 && 0 <= t < pow23All.Length1 && b != i ==>
                    pow23All[b, t] == old(pow23All[b, t])
      {
        if Pow23(i, j) > Pow23(MaxDbl(ints), 0) {
          break;
        }
        var x := new BigInt.From(pow23All[i, j - 1]);
        var y := x.Mul3();
        RowGrows(row, i, MaxDbl(ints));
        pow23All[i, j] := y.data[..];
        row := row + [y.data[..]];
        j := j + 1;
      }
      ghost var rest := seq(MaxTpl(ints) - j, k requires 0 <= k < MaxTpl(ints) - j && i < pow23All.Length0 && j + k < pow23All.Length1
        reads pow23All => pow23All[i, j + k]);
      BeyondCap(row, rest, i, MaxDbl(ints));
      row := row + rest;
    }

    lemma RowsTripled(rows: seq<seq<seq<Limb>>>)
      requires Shape() && |rows| == pow23All.Length0 && Holds(rows)
      requires forall b :: 0 <= b < |rows| ==> RowTripled(rows[b], b, MaxDbl(ints))
      ensures Tripled()
    {
      hide Pow23, LimbValue, MulSmall;
    }

    /** Row b up to column t loses nothing, so it is exact; with two limbs it never loses anything. */
    lemma {:induction false} EntryExact(b: nat, t: nat)
      requires Shape() && Sized() && Tripled() && b < pow23All.Length0 && t < pow23All.Length1
      requires Pow23(b, t) < Pow23(MaxDbl(ints), 0)
      requires ints == 2 || forall x, i :: 0 <= x < t && 0 <= i < ints ==> !CarryLost(3, LimbsOf(Pow23(b, x), ints), i)
      ensures LimbValue(pow23All[b, t]) == Pow23(b, t)
    {
      hide Pow23, LimbValue, CarryLost, MulSmall, LimbsOf, MaxDbl, MaxTpl;
      if t > 0 {
        Pow23Monotone(b, t - 1, b, t);
        EntryExact(b, t - 1);
        LimbsOfUnique(pow23All[b, t - 1]);
        TripledExactly(b, t, pow23All[b, t - 1], ints);
      }
    }

    /** Every stored power is exact if and only if tripling loses nothing on any of these numbers. */
    lemma ExactIfLossless()
      requires Shape() && Sized() && Tripled()
      ensures AllExact() <==> LosslessPowers(ints)
      ensures ints == 2 ==> AllExact()
    {
      hide Pow23, LimbValue, CarryLost, LimbsOf, MulSmall;
      if AllExact() {
        forall b: nat, t: nat, i: nat
          | b < MaxDbl(ints) && t + 1 < MaxTpl(ints) && i < ints && Pow23(b, t + 1) < Pow23(MaxDbl(ints), 0)
          ensures !CarryLost(3, LimbsOf(Pow23(b, t), ints), i)
        {
          Pow23Monotone(b, t, b, t + 1);
          LimbsOfUnique(pow23All[b, t]);
          TripledExactly(b, t + 1, pow23All[b, t], ints);
        }
      }
      if ints == 2 || LosslessPowers(ints) {
        forall b, t | 0 <= b < pow23All.Length0 && 0 <= t < pow23All.Length1 && Pow23(b, t) < Pow23(MaxDbl(ints), 0)
          ensures LimbValue(pow23All[b, t]) == Pow23(b, t)
        {
          forall x, i | 0 <= x < t && 0 <= i < ints && ints != 2
            ensures !CarryLost(3, LimbsOf(Pow23(b, x), ints), i)
          {
            Pow23Monotone(b, x + 1, b, t);
          }
          EntryExact(b, t);
        }
      }
    }
  }

  /**
    Each entry of a row is the tripled one before it, as long as 2^b 3^t fits the limbs, and zero
    afterwards; the first is exact.
   */
  predicate RowTripled(row: seq<seq<Limb>>, b: nat, bits: nat) {
    && |row| > 0 && LimbValue(row[0]) == Pow23(b, 0)
    && (forall t :: 0 < t < |row| && Pow23(b, t) < Pow23(bits, 0) ==> row[t] == MulSmall(3, row[t - 1]))
    && (forall t :: 0 < t < |row| && Pow23(b, t) > Pow23(bits, 0) ==> LimbValue(row[t]) == 0)
  }

  lemma RowStarts(row: seq<seq<Limb>>, b: nat, bits: nat)
    requires |row| == 1 && LimbValue(row[0]) == Pow23(b, 0)
    ensures RowTripled(row, b, bits)
  {
  }

  /** One more tripling. */
  lemma RowGrows(row: seq<seq<Limb>>, b: nat, bits: nat)
    requires RowTripled(row, b, bits) && Pow23(b, |row|) <= Pow23(bits, 0)
    ensures RowTripled(row + [MulSmall(3, row[|row| - 1])], b, bits)
  {
    hide Pow23, LimbValue, MulSmall;
    var more := row + [MulSmall(3, row[|row| - 1])];
    assert more[0] == row[0];
    forall t | 0 < t < |more| && Pow23(b, t) < Pow23(bits, 0)
      ensures more[t] == MulSmall(3, more[t - 1])
    {
      assert more[t - 1] == row[t - 1];
    }
  }

  /** Beyond the largest number that fits, the row is left at zero. */
  lemma BeyondCap(row: seq<seq<Limb>>, rest: seq<seq<Limb>>, b: nat, bits: nat)
    requires RowTripled(row, b, bits) && (rest == [] || Pow23(b, |row|) > Pow23(bits, 0))
    requires forall x :: 0 <= x < |rest| ==> LimbValue(rest[x]) == 0
    ensures RowTripled(row + rest, b, bits)
  {
    hide Pow23, LimbValue, MulSmall;
    forall t | 0 < t < |row + rest| && Pow23(b, t) < Pow23(bits, 0)
      ensures (row + rest)[t] == MulSmall(3, (row + rest)[t - 1])
    {
      if t >= |row| {
        Pow23Monotone(b, |row|, b, t);
        assert false;
      }
    }
  }

  /** An exact entry: the next one is exact if and only if its tripling loses nothing, as is the case with two limbs. */
  lemma TripledExactly(b: nat, t: nat, s: seq<Limb>, ints: nat)
    requires 0 < t && 0 < ints == |s| && LimbValue(s) == Pow23(b, t - 1) && Pow23(b, t) < Pow23(MaxDbl(ints), 0)
    ensures LimbValue(MulSmall(3, s)) == Pow23(b, t) <==> forall i :: 0 <= i < ints ==> !CarryLost(3, s, i)
    ensures ints == 2 ==> LimbValue(MulSmall(3, s)) == Pow23(b, t)
  {
    hide Pow23, LimbValue, CarryLost, MulSmall;
    TripleStep(b, t);
    BasePowIsPower(ints);
    if ints == 2 {
      BasePowTwo();
      SmallLosesNothing(s);
    }
    MulSmallExact(3, s);
  }

  /** The powers that fit one machine word. */
  lemma WordPowers(b: nat, t: nat)
    requires (b < 64 && t == 0) || (b == 0 && t < 40) || (b < 33 && t < 19)
    ensures Pow23(b, t) < 0x1_0000_0000_0000_0000
  {
    hide Pow23;
    TwoPower();
    ThreePower();
    Pow23Product(32, 0, 32, 0);
    if t == 0 {
      PowerOrder(b, 64);
    } else if b == 0 {
      Pow23Monotone(0, t, 0, 39);
      Threes();
    } else {
      Pow23Product(32, 0, 0, 18);
      Pow23Monotone(b, t, 32, 18);
    }
  }

  lemma UnitValue(s: seq<Limb>)
    requires |s| > 0 && forall i :: 0 <= i < |s| ==> s[i] == 0
    ensures LimbValue(s[|s| - 1 := 1]) == 1
  {
    var u := s[|s| - 1 := 1];
    assert u[..|s| - 1] == s[..|s| - 1];
    ZeroLimbs(s[..|s| - 1]);
  }

  lemma DoubledPower(i: nat, s: seq<Limb>, ints: nat)
    requires 0 < i < MaxDbl(ints) && |s| == ints && LimbValue(s) == Pow23(i - 1, 0)
    ensures LimbValue(MulSmall(2, s)) == Pow23(i, 0)
  {
    hide LimbValue;
    DoubleStep(i - 1, 0);
    PowerOrder(i, MaxDbl(ints));
    BasePowIsPower(ints);
    MulSmallExact(2, s);
    forall x | 0 <= x < |s|
      ensures !CarryLost(2, s, x)
    {
      DoublingLosesNothing(s, x);
    }
  }
}
