/**
  Where the greedy builders go wrong: for n = 2^65 - 1 on three limbs or more, the start of
  column 5 borrows spuriously in its first subtraction, and the loop writes past its row.
 */
module LostBorrow {
  import opened Powers
  import opened Limbs
  import opened BigInts
  import opened Digits
  import opened Greedy
  import opened GreedyLimbs
  import opened Searches
  import opened Subtraction

  const SCALAR: nat := 0x1_FFFF_FFFF_FFFF_FFFF
  /** 2^57 3^5. */
  const FIRST: nat := 0x1_E600_0000_0000_0000

  const SCALAR_LIMBS: seq<Limb> := [1, 0xFFFF_FFFF, 0xFFFF_FFFF]
  const FIRST_LIMBS: seq<Limb> := [1, 0xE600_0000, 0]

  lemma FirstIsPower()
    ensures Pow23(57, 5) == FIRST && Pow23(58, 5) == 2 * FIRST && 2 * Pow23(56, 5) == FIRST
  {
    SmallFactors();
    TwoPower();
    hide Pow23;
    Pow23Product(32, 0, 8, 0);
    Pow23Product(40, 0, 8, 0);
    Pow23Product(48, 0, 8, 0);
    Pow23Product(56, 0, 1, 0);
    Pow23Product(57, 0, 0, 5);
    DoubleStep(57, 5);
    DoubleStep(56, 5);
  }

  lemma SmallFactors()
    ensures Pow23(8, 0) == 256 && Pow23(1, 0) == 2 && Pow23(0, 5) == 243
  {
  }

  /** Both builders do try this start: the two bounds of column 5 are 57. */
  lemma IsTried()
    ensures IsLBound(SCALAR, 57, 5) && IsRBound(SCALAR, 57, 5) && IsStart(SCALAR, (57, 5))
  {
    FirstIsPower();
    hide Pow23;
    RBoundIsStart(SCALAR, 57, 5);
  }

  /** A term that is the largest of its window is nearest to anything above it. */
  lemma SelectLargest(t: nat, a: nat, b: nat, window: nat)
    requires Pow23(a, b) <= t
    ensures Select(t, a, b, window) == (a, b)
  {
    hide Pow23, Select;
    SelectIsNearest(t, a, b, window);
    var (x, y) := Select(t, a, b, window);
    assert Dist(t, Pow23(x, y)) <= Dist(t, Pow23(a, b));
    if x != a || y != b {
      Pow23StrictlyMonotone(x, y, a, b);
    }
  }

  lemma TheLimbs(zeros: nat)
    ensures LimbValue(Padded(zeros, SCALAR_LIMBS)) == SCALAR
    ensures PowerLimbs(57, 5, zeros + 3) == Padded(zeros, FIRST_LIMBS)
  {
    FirstIsPower();
    PaddedValue(zeros, SCALAR_LIMBS);
    PaddedValue(zeros, FIRST_LIMBS);
    Value3(SCALAR_LIMBS);
    Value3(FIRST_LIMBS);
    hide Pow23, LimbValue, LimbsOf;
    LimbsOfUnique(Padded(zeros, FIRST_LIMBS));
  }

  /** The spurious borrow runs through all leading zeros. */
  lemma {:induction false} BorrowRunsUp(zeros: nat, i: nat)
    requires i <= zeros
    ensures var s, p := Padded(zeros, SCALAR_LIMBS), Padded(zeros, FIRST_LIMBS);
      && SpuriousBorrow(s, p, zeros + 1)
      && Decremented(s, p, i) == (if i == zeros then 0 else 0xFFFF_FFFF)
    decreases zeros - i
  {
    var s, p := Padded(zeros, SCALAR_LIMBS), Padded(zeros, FIRST_LIMBS);
    assert Borrow(s, p, zeros + 1) == 0 && Decremented(s, p, zeros + 1) == 0xFFFF_FFFF;
    if i < zeros {
      BorrowRunsUp(zeros, i + 1);
    }
  }

  lemma FirstRemainder(zeros: nat)
    ensures var s, p := Padded(zeros, SCALAR_LIMBS), Padded(zeros, FIRST_LIMBS);
      Minus(s, p)[0] == 0xFFFF_FFFF
  {
    BorrowRunsUp(zeros, 0);
  }

  lemma TopLimb(t: seq<Limb>)
    requires |t| > 0
    ensures LimbValue(t) >= t[0] * BasePow(|t| - 1)
    decreases |t|
  {
    var n := |t| - 1;
    if n > 0 {
      TopLimb(t[..n]);
      assert BASE * (t[0] * BasePow(n - 1)) == t[0] * BasePow(n);
    } else {
      assert t[..0] == [] && BasePow(0) == 1;
    }
  }

  lemma SmallTop(t: seq<Limb>)
    requires |t| > 0 && LimbValue(t) < 2 * BasePow(|t| - 1)
    ensures t[0] <= 1
  {
    TopLimb(t);
    if t[0] > 1 {
      MulMonotoneLeft(2, t[0], BasePow(|t| - 1));
    }
  }

  lemma TopDecrement(t: seq<Limb>, p: seq<Limb>)
    requires |t| == |p| >= 2 && t[0] >= 2 && p[0] <= 1
    ensures Minus(t, p)[0] >= t[0] - 2
  {
    hide Borrow;
  }

  /** As long as the top limb has more to give than the row has room, the loop does not end. */
  lemma {:induction false} NeverEnds(minus: bool, t: seq<Limb>, a: nat, b: nat, window: nat, room: nat)
    requires |t| >= 2 && t[0] > 2 * room && Pow23(a, b) < 2 * BasePow(|t| - 1)
    ensures Loop(minus, t, a, b, window, room).None?
    decreases room
  {
    hide Pow23, LimbValue, Select, Decremented, Borrow, Minus, LimbsOf;
    TopLimb(t);
    MulMonotoneLeft(1, t[0], BasePow(|t| - 1));
    if room > 0 {
      MulMonotoneLeft(2, t[0], BasePow(|t| - 1));
      var (x, y) := Select(LimbValue(t), a, b, window);
      var p := PowerLimbs(x, y, |t|);
      SelectBelow(LimbValue(t), a, b, window);
      Pow23Monotone(x, y, a, b);
      PowerFits(x, y, x, y, |t|);
      SmallTop(p);
      TopDecrement(t, p);
      NeverEnds(if LimbValue(t) >= LimbValue(p) then minus else !minus, Remainder(t, p), x, y, window, room - 1);
    }
  }

  lemma {:induction false} BasePowGrows(k: nat)
    ensures 2 * BasePow(k + 2) > FIRST && BasePow(k + 3) > SCALAR
  {
    if k > 0 {
      BasePowGrows(k - 1);
    } else {
      assert BasePow(3) == BASE * BasePow(2) && BasePow(2) == BASE * BasePow(1) && BasePow(1) == BASE * BasePow(0);
    }
  }

  /**
    The run from (57, 5) does not end within any row shorter than 2^31 entries, for any window
    and any limb count from 3 up.
   */
  lemma Overrun(zeros: nat, window: nat, room: nat)
    requires room < 0x7FFF_FFFF
    ensures var s := Padded(zeros, SCALAR_LIMBS);
      |s| == zeros + 3 && LimbValue(s) == SCALAR && Stores(s, (57, 5), window, room).None?
  {
    hide Pow23, LimbValue, BasePow, LimbsOf, Minus, Padded, Select, PowerLimbs;
    var s, p := Padded(zeros, SCALAR_LIMBS), Padded(zeros, FIRST_LIMBS);
    Sizes(zeros);
    TheLimbs(zeros);
    FirstIsPower();
    BasePowGrows(zeros);
    SelectLargest(SCALAR, 57, 5, window);
    FirstRemainder(zeros);
    PowerFits(57, 5, 57, 5, zeros + 3);
    if room > 0 {
      NeverEnds(false, Minus(s, p), 57, 5, window, room - 1);
    }
  }

  lemma Sizes(zeros: nat)
    ensures |Padded(zeros, SCALAR_LIMBS)| == |Padded(zeros, FIRST_LIMBS)| == zeros + 3
  {
  }

  /** So the condition of the greedy builders fails there, as it must. */
  lemma NotBorrowFree(zeros: nat, window: nat)
    requires window >= 2
    ensures IsStart(SCALAR, (57, 5)) && !StartBorrowFree(SCALAR, (57, 5), window, zeros + 3)
  {
    hide Pow23, BorrowFree, LimbValue, BasePow, Loop, GreedyChain;
    var s := Padded(zeros, SCALAR_LIMBS);
    IsTried();
    FirstIsPower();
    BasePowGrows(zeros);
    Overrun(zeros, window, 64);
    GreedyLength(false, SCALAR, 57, 5, window);
    if StartBorrowFree(SCALAR, (57, 5), window, zeros + 3) {
      BorrowFreeLoop(false, s, 57, 5, window, 64);
    }
  }
}
