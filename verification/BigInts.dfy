/** The fixed-size big integer of the builders, with its in-place limb routines. */
module BigInts {
  import opened Powers
  import opened Limbs
  import opened Residues
  import Subtraction

  /** A 64-bit intermediate: every value computed in one is proved to fit. */
  type Word = x: nat | x < 0x1_0000_0000_0000_0000

  const MODULUS_33_19: nat := 2324522934 * 0x1_0000_0000

  class BigInt {
    const data: array<Limb>

    ghost function Val(): nat
      reads data
    {
      LimbValue(data[..])
    }

    /** `myBigInt()`: all limbs zero. */
    constructor (ints: nat)
      ensures fresh(data) && data.Length == ints
      ensures forall i :: 0 <= i < ints ==> data[i] == 0
    {
      data := new Limb[ints](_ => 0);
    }

    /** A copy of a stored value. */
    constructor From(limbs: seq<Limb>)
      ensures fresh(data) && data[..] == limbs
    {
      data := new Limb[|limbs|](i requires 0 <= i < |limbs| => limbs[i]);
    }

    /** Assignment of one big integer to another copies the limbs. */
    method Assign(src: BigInt)
      requires src.data.Length == data.Length
      modifies data
      ensures data[..] == old(src.data[..])
    {
      var i := 0;
      while i < data.Length
        invariant 0 <= i <= data.Length
        invariant data[..i] == old(src.data[..i])
        invariant forall j :: i <= j < data.Length ==> src.data[j] == old(src.data[j])
      {
        data[i] := src.data[i];
        i := i + 1;
      }
      assert data[..] == data[..i] && old(src.data[..]) == old(src.data[..i]);
    }

    /** `rshift_32(a)`: drop the last limb; `a` may be the receiver. */
    method RShift32(a: BigInt)
      requires 0 < data.Length == a.data.Length
      modifies a.data
      ensures a.data[..] == [0] + old(data[..data.Length - 1])
      ensures a.Val() == old(Val()) / BASE
    {
      var i := data.Length - 1;
      while i > 0
        invariant 0 <= i < data.Length
        invariant forall j :: 0 <= j <= i ==> data[j] == old(data[j])
        invariant forall j :: i < j < data.Length ==> a.data[j] == old(data[j - 1])
      {
        a.data[i] := data[i - 1];
        i := i - 1;
      }
      a.data[0] := 0;
      assert a.data[..] == [0] + old(data[..data.Length - 1]);
      ShiftValue(old(data[..]));
    }

    /** `div_3_18()`: short division in place, most significant limb first. */
    method Div318()
      requires 0 < data.Length
      modifies data
      ensures Val() == old(Val()) / POW_3_18
    {
      var temp1: Word;
      var temp2: Word := data[0] % POW_3_18;
      data[0] := data[0] / POW_3_18;
      ghost var was := old(data[..]);
      DivFirst(data[..], was);
      var i := 1;
      while i < data.Length
        invariant 1 <= i <= data.Length
        invariant forall j :: i <= j < data.Length ==> data[j] == was[j]
        invariant temp2 < POW_3_18
        invariant LimbValue(data[..i]) * POW_3_18 + temp2 == LimbValue(was[..i])
      {
        temp1 := temp2 * 0x1_0000_0000 + data[i];
        temp2 := temp1 % POW_3_18;
        ghost var before := data[..];
        data[i] := temp1 / POW_3_18;
        assert data[..i] == before[..i];
        PrefixValue(data[..], i);
        assert data[..][..i] == data[..i] && data[..][..i + 1] == data[..i + 1];
        PrefixValue(was, i);
        i := i + 1;
      }
      assert data[..i] == data[..] && was[..i] == was;
      ModUnique(LimbValue(was), POW_3_18, Val(), temp2);
    }

    /** `mul_2()`. */
    method Mul2() returns (ret: BigInt)
      requires 0 < data.Length
      ensures fresh(ret) && fresh(ret.data)
      ensures ret.data[..] == MulSmall(2, data[..])
    {
      ret := new BigInt(data.Length);
      var i := data.Length - 1;
      ret.data[i] := data[i] as int * 2 % 0x1_0000_0000;
      while i > 0
        invariant 0 <= i < data.Length == ret.data.Length
        invariant forall j :: i <= j < data.Length ==> ret.data[j] == MulLimb(2, data[..], j)
      {
        ret.data[i - 1] := (data[i] / 0x8000_0000 + data[i - 1] as int * 2) % 0x1_0000_0000;
        DoubledLimb(data[..], i - 1);
        i := i - 1;
      }
    }

    /** `mul_3()`: triples every limb first, then adds each high word to the next low word. */
    method Mul3() returns (ret: BigInt)
      requires 0 < data.Length
      ensures fresh(ret) && fresh(ret.data)
      ensures ret.data[..] == MulSmall(3, data[..])
    {
      ret := new BigInt(data.Length);
      var temp := new Word[data.Length](_ => 0);
      var i := data.Length - 1;
      while i >= 0
        invariant -1 <= i < data.Length == temp.Length
        invariant forall j :: i < j < data.Length ==> temp[j] == 3 * data[j] as int
      {
        temp[i] := data[i] as int * 3;
        i := i - 1;
      }
      ret.data[data.Length - 1] := temp[data.Length - 1] % 0x1_0000_0000;
      i := data.Length - 2;
      while i >= 0
        invariant -1 <= i <= data.Length - 2
        invariant data.Length == ret.data.Length
        invariant forall j :: 0 <= j < data.Length ==> temp[j] == 3 * data[j] as int
        invariant forall j :: i < j < data.Length ==> ret.data[j] == MulLimb(3, data[..], j)
      {
        var sum: Word := temp[i + 1] / 0x1_0000_0000 + temp[i] % 0x1_0000_0000;
        ret.data[i] := sum % 0x1_0000_0000;
        i := i - 1;
      }
    }

    /** `mod_2_33_3_19()`: the value modulo 2^33 3^19. */
    method Mod233319() returns (ret: Word)
      requires 2 <= data.Length <= 21
      ensures ret == Val() % MODULUS_33_19
    {
      hide LimbValue, BasePow, ResidueSoFar;
      var a := new BigInt(data.Length);
      RShift32(a);
      var n := data.Length;
      var sum: Word := 0;
      ghost var s := a.data[..];
      ZeroStart(s, n);
      var i := 1;
      while i < n
        invariant 1 <= i <= n
        invariant a.data[..] == s
        invariant sum <= (i - 1) * 2324522934
        invariant ResidueSoFar(s, i, sum)
      {
        ProductFits(a.data[i], n - 1 - i);
        var product: Word := a.data[i] * MUL_NUM[n - 1 - i];
        assert product == s[i] * MUL_NUM[|s| - 1 - i];
        ResidueStep(s, i, sum, product);
        var residue: Word := product % MODULUS;
        sum := sum + residue;
        i := i + 1;
      }
      WholeResidue(s, sum);
      sum := sum % MODULUS;
      ret := sum * 0x1_0000_0000 + data[n - 1];
      ResidueResult(Val(), sum, data[n - 1], data[..]);
    }

    /** `iszero()`. */
    method IsZero() returns (r: bool)
      ensures r <==> Val() == 0
    {
      var temp := false;
      var i := 0;
      while i < data.Length
        invariant 0 <= i <= data.Length
        invariant temp <==> exists j :: 0 <= j < i && data[j] != 0
      {
        temp := temp || data[i] != 0;
        i := i + 1;
      }
      ZeroLimbs(data[..]);
      r := !temp;
    }

    /** `to_double()`, without rounding. */
    method ToNumber() returns (ret: nat)
      ensures ret == Val()
    {
      ret := 0;
      var i := 0;
      while i < data.Length
        invariant 0 <= i <= data.Length && ret == LimbValue(data[..i])
      {
        PrefixValue(data[..], i);
        assert data[..][..i] == data[..i] && data[..][..i + 1] == data[..i + 1];
        ret := ret * 4294967296;
        ret := ret + data[i];
        i := i + 1;
      }
      assert data[..i] == data[..];
    }

    /** `a >= b`, decided at the first limb that differs. */
    method GreaterEq(b: seq<Limb>) returns (r: bool)
      requires data.Length == |b|
      ensures r <==> Val() >= LimbValue(b)
    {
      var i := 0;
      while i < data.Length
        invariant 0 <= i <= data.Length
        invariant data[..i] == b[..i]
      {
        if data[i] < b[i] {
          FirstDifference(data[..], b, i);
          return false;
        }
        if data[i] > b[i] {
          FirstDifference(data[..], b, i);
          return true;
        }
        i := i + 1;
      }
      assert data[..] == data[..i] && b == b[..i];
      return true;
    }

    /** `a - b`: borrows are propagated into the neighbours first, then all limbs are subtracted. */
    method Minus(b: seq<Limb>) returns (ret: BigInt)
      requires 2 <= data.Length == |b|
      ensures fresh(ret) && fresh(ret.data)
      ensures ret.data[..] == Subtraction.Minus(data[..], b)
    {
      hide Subtraction.Decremented, Subtraction.Minus;
      ghost var s := data[..];
      var n := data.Length;
      ret := new BigInt(n);
      ret.Assign(this);
      LastBorrow(s, b);
      if ret.data[n - 1] < b[n - 1] {
        ret.data[n - 2] := Decrement(ret.data[n - 2]);
      }
      var i := n - 2;
      while i > 0
        invariant 0 <= i <= n - 2 && ret.data.Length == n
        invariant forall j :: 0 <= j < i ==> ret.data[j] == s[j]
        invariant forall j :: i <= j < n ==> ret.data[j] == Subtraction.Decremented(s, b, j)
      {
        NextBorrow(s, b, i);
        if ret.data[i] < b[i] || ret.data[i] == 4294967295 {
          ret.data[i - 1] := Decrement(ret.data[i - 1]);
        }
        i := i - 1;
      }
      i := n - 1;
      while i >= 0
        invariant -1 <= i < n == ret.data.Length
        invariant forall j :: 0 <= j <= i ==> ret.data[j] == Subtraction.Decremented(s, b, j)
        invariant forall j :: i < j < n ==> ret.data[j] == Subtraction.Minus(s, b)[j]
      {
        Difference(s, b, i);
        ret.data[i] := Subtraction.Wrap(ret.data[i] as int - b[i]);
        i := i - 1;
      }
    }
  }

  lemma LastBorrow(s: seq<Limb>, b: seq<Limb>)
    requires |s| == |b| >= 2
    ensures var n := |s|;
      && Subtraction.Decremented(s, b, n - 1) == s[n - 1]
      && Subtraction.Decremented(s, b, n - 2) == (if s[n - 1] < b[n - 1] then Decrement(s[n - 2]) else s[n - 2])
  {
  }

  lemma NextBorrow(s: seq<Limb>, b: seq<Limb>, i: nat)
    requires |s| == |b| && 1 <= i <= |s| - 2
    ensures var d := Subtraction.Decremented(s, b, i);
      Subtraction.Decremented(s, b, i - 1) ==
      (if d < b[i] || d == 0xFFFF_FFFF then Decrement(s[i - 1]) else s[i - 1])
  {
  }

  lemma Difference(s: seq<Limb>, b: seq<Limb>, i: nat)
    requires |s| == |b| && i < |s|
    ensures Subtraction.Minus(s, b)[i] == Subtraction.Wrap(Subtraction.Decremented(s, b, i) as int - b[i])
  {
  }

  /** `x--` on an unsigned 32-bit word. */
  function Decrement(x: Limb): Limb {
    if x == 0 then 0xFFFF_FFFF else x - 1
  }

  lemma DoubledLimb(s: seq<Limb>, i: nat)
    requires i + 1 < |s|
    ensures (s[i + 1] / 0x8000_0000 + s[i] as int * 2) % 0x1_0000_0000 == MulLimb(2, s, i)
  {
    assert s[i + 1] / 0x8000_0000 == 2 * (s[i + 1] as int) / BASE;
  }

  /** Dropping the last limb divides by 2^32. */
  lemma ShiftValue(s: seq<Limb>)
    requires |s| > 0
    ensures LimbValue([0] + s[..|s| - 1]) == LimbValue(s) / BASE
  {
    LeadingZero(s[..|s| - 1]);
    ModUnique(LimbValue(s), BASE, LimbValue(s[..|s| - 1]), s[|s| - 1]);
  }

  lemma {:induction false} LeadingZero(s: seq<Limb>)
    ensures LimbValue([0] + s) == LimbValue(s)
  {
    var z: seq<Limb> := [0];
    if |s| > 0 {
      LeadingZero(s[..|s| - 1]);
      assert (z + s)[..|s|] == z + s[..|s| - 1];
    } else {
      assert z[..0] == [];
      assert z + s == z;
    }
  }

  lemma {:induction false} ZeroLimbs(s: seq<Limb>)
    ensures LimbValue(s) == 0 <==> forall j :: 0 <= j < |s| ==> s[j] == 0
  {
    if |s| > 0 {
      ZeroLimbs(s[..|s| - 1]);
    }
  }

  lemma BasePowTwo()
    ensures BasePow(2) == BASE * BASE
  {
    assert BasePow(2) == BASE * BasePow(1) && BasePow(1) == BASE * BasePow(0);
  }

  /** A product below 2^64 loses no carry: its top limb fits, and nothing comes up to the last one. */
  lemma SmallLosesNothing(s: seq<Limb>)
    requires 3 * LimbValue(s) < BASE * BASE
    ensures forall i :: 0 <= i < |s| ==> !CarryLost(3, s, i)
  {
    var n := |s|;
    if n >= 2 {
      PrefixValue(s, n - 1);
      PrefixValue(s, n - 2);
      assert s[..n] == s;
      ZeroLimbs(s[..n - 2]);
      assert forall i :: 0 <= i < n - 2 ==> s[i] == s[..n - 2][i] == 0;
    }
  }

  /** Leading zero limbs. */
  function Padded(zeros: nat, s: seq<Limb>): seq<Limb> {
    seq(zeros, _ => 0) + s
  }

  lemma {:induction false} PaddedValue(zeros: nat, s: seq<Limb>)
    ensures LimbValue(Padded(zeros, s)) == LimbValue(s)
  {
    if zeros == 0 {
      assert Padded(zeros, s) == s;
    } else {
      PaddedValue(zeros - 1, s);
      LeadingZero(Padded(zeros - 1, s));
      var z: seq<Limb> := [0];
      assert Padded(zeros, s) == z + Padded(zeros - 1, s);
    }
  }

  lemma DivFirst(s: seq<Limb>, was: seq<Limb>)
    requires 0 < |s| == |was| && s[0] == was[0] / POW_3_18
    ensures LimbValue(s[..1]) * POW_3_18 + was[0] % POW_3_18 == LimbValue(was[..1])
  {
    PrefixValue(s, 0);
    PrefixValue(was, 0);
    assert s[..0] == [] && was[..0] == [];
  }

  /** The first i limbs, in their places, are congruent to the sum. */
  ghost predicate ResidueSoFar(s: seq<Limb>, i: nat, sum: nat)
    requires i <= |s|
  {
    sum % MODULUS == (LimbValue(s[..i]) * BasePow(|s| - i)) % MODULUS
  }

  lemma ProductFits(x: Limb, k: nat)
    requires k < 20
    ensures x * MUL_NUM[k] < 0x1_0000_0000_0000_0000
  {
    TableIsResidue(k);
    MulMonotoneLeft(x, 0xFFFF_FFFF, MUL_NUM[k]);
  }

  lemma ZeroStart(s: seq<Limb>, n: nat)
    requires |s| == n > 0 && s[0] == 0
    ensures ResidueSoFar(s, 1, 0)
  {
    PrefixValue(s, 0);
    assert s[..0] == [];
  }

  lemma NonZeroMod(x: nat)
    ensures x % MODULUS < 2324522934
    ensures x % MODULUS % MODULUS == x % MODULUS
  {
  }

  lemma WholeResidue(s: seq<Limb>, sum: nat)
    requires ResidueSoFar(s, |s|, sum)
    ensures sum % MODULUS == LimbValue(s) % MODULUS
  {
    assert s[..|s|] == s && BasePow(0) == 1;
  }

  /** One term of the residue sum. */
  lemma ResidueStep(s: seq<Limb>, i: nat, sum: nat, product: nat)
    requires 1 <= i < |s| <= 21
    requires product == s[i] * MUL_NUM[|s| - 1 - i]
    requires ResidueSoFar(s, i, sum)
    ensures product % MODULUS < 2324522934
    ensures ResidueSoFar(s, i + 1, sum + product % MODULUS)
  {
    hide LimbValue, BasePow;
    var k := |s| - 1 - i;
    BasePowStep(k);
    var v, p := LimbValue(s[..i]), BasePow(k);
    PrefixValue(s, i);
    TableIsResidue(k);
    ModMul(p, s[i], MODULUS);
    ModMulCommute(p, s[i], MUL_NUM[k]);
    Spread(v, p, s[i]);
    ModAdd(v * BasePow(k + 1), s[i] * p, MODULUS);
    ModAdd(sum, product % MODULUS, MODULUS);
    NonZeroMod(product);
  }

  lemma BasePowStep(k: nat)
    ensures BasePow(k + 1) == BASE * BasePow(k)
  {
  }

  lemma ModMulCommute(p: nat, d: nat, r: nat)
    requires (p * d) % MODULUS == ((p % MODULUS) * d) % MODULUS && r == p % MODULUS
    ensures (d * r) % MODULUS == (d * p) % MODULUS
  {
    assert d * r == r * d && d * p == p * d;
  }

  lemma Spread(v: nat, p: nat, d: nat)
    ensures (v * BASE + d) * p == v * (BASE * p) + d * p
  {
  }

  /** Putting the low limb back under the residue of the rest. */
  lemma ResidueResult(v: nat, r: nat, low: Limb, s: seq<Limb>)
    requires |s| > 0 && v == LimbValue(s) && low == s[|s| - 1]
    requires r == (v / BASE) % MODULUS
    ensures v % MODULUS_33_19 == r * BASE + low as int
  {
    ModUnique(v, BASE, LimbValue(s[..|s| - 1]), low);
    var q := ModSplit(v / BASE, MODULUS);
    ModUnique(v, MODULUS_33_19, q, r * BASE + low);
  }

  /** The first differing limb decides the comparison. */
  lemma {:induction false} FirstDifference(s: seq<Limb>, d: seq<Limb>, i: nat)
    requires |s| == |d| && i < |s| && s[..i] == d[..i] && s[i] != d[i]
    ensures s[i] > d[i] <==> LimbValue(s) > LimbValue(d)
    ensures LimbValue(s) != LimbValue(d)
  {
    var n := |s| - 1;
    if i == n {
    } else {
      assert s[..n][..i] == s[..i] && d[..n][..i] == d[..i];
      FirstDifference(s[..n], d[..n], i);
    }
  }
}
