/**
  Big integers as limb sequences, most significant limb first, and what the carry-skipping
  limb routines really compute.
 */
module Limbs {
  import opened Powers

  const BASE: nat := 0x1_0000_0000

  type Limb = x: nat | x < 0x1_0000_0000

  function LimbValue(s: seq<Limb>): nat {
    if |s| == 0 then 0 else LimbValue(s[..|s| - 1]) * BASE + s[|s| - 1]
  }

  /** 2^(32 k). */
  function BasePow(k: nat): (p: nat)
    ensures p > 0
  {
    if k == 0 then 1 else BASE * BasePow(k - 1)
  }

  lemma PrefixValue(s: seq<Limb>, i: nat)
    requires i < |s|
    ensures LimbValue(s[..i + 1]) == LimbValue(s[..i]) * BASE + s[i]
  {
    assert s[..i + 1][..i] == s[..i];
  }

  lemma {:induction false} ValueBound(s: seq<Limb>)
    ensures LimbValue(s) < BasePow(|s|)
  {
    if |s| > 0 {
      ValueBound(s[..|s| - 1]);
    }
  }

  /** The n limbs of v, or of its remainder modulo 2^(32 n). */
  function LimbsOf(v: nat, n: nat): (s: seq<Limb>)
    ensures |s| == n
  {
    if n == 0 then [] else LimbsOf(v / BASE, n - 1) + [v % BASE]
  }

  lemma {:induction false} LimbsOfValue(v: nat, n: nat)
    requires v < BasePow(n)
    ensures LimbValue(LimbsOf(v, n)) == v
  {
    if n > 0 {
      LimbsOfValue(v / BASE, n - 1);
      assert LimbsOf(v, n)[..n - 1] == LimbsOf(v / BASE, n - 1);
    }
  }

  /** Limbs are determined by their value. */
  lemma {:induction false} LimbsOfUnique(s: seq<Limb>)
    ensures LimbsOf(LimbValue(s), |s|) == s
  {
    var n := |s|;
    if n > 0 {
      LimbsOfUnique(s[..n - 1]);
      ModUnique(LimbValue(s), BASE, LimbValue(s[..n - 1]), s[n - 1]);
      assert s == s[..n - 1] + [s[n - 1]];
    }
  }

  /** The high word of k * s[i], which the next limb up should receive; nothing comes from below the last limb. */
  function Carry(k: nat, s: seq<Limb>, i: nat): nat {
    if i < |s| then k * s[i] / BASE else 0
  }

  /** One limb of `mul_2` or `mul_3`: the low word plus the carry from below, cut to 32 bits. */
  function MulLimb(k: nat, s: seq<Limb>, i: nat): Limb
    requires i < |s|
  {
    (k * s[i] % BASE + Carry(k, s, i + 1)) % BASE
  }

  function MulSmall(k: nat, s: seq<Limb>): (r: seq<Limb>)
    ensures |r| == |s|
  {
    seq(|s|, i requires 0 <= i < |s| => MulLimb(k, s, i))
  }

  /** Adding the carry overflows the limb, and nobody records it. */
  predicate CarryLost(k: nat, s: seq<Limb>, i: nat)
    requires i < |s|
  {
    k * s[i] % BASE + Carry(k, s, i + 1) >= BASE
  }

  /** What the lost carries are worth: 2^(32 (n-j)) for each such limb j of the first n. */
  function LostValue(k: nat, s: seq<Limb>, n: nat): nat
    requires n <= |s|
  {
    if n == 0 then 0
    else LostValue(k, s, n - 1) * BASE + (if CarryLost(k, s, n - 1) then BASE else 0)
  }

  lemma MulStep(k: nat, v: nat, d: nat)
    requires k <= 3
    ensures k * (v * BASE + d) == (k * v) * BASE + k * d
    ensures k * (BASE * v) == (k * v) * BASE
    ensures k * d == (k * d / BASE) * BASE + k * d % BASE
  {
    if k == 0 {
    } else if k == 1 {
    } else if k == 2 {
    } else {
    }
  }

  lemma MulLimbValue(k: nat, s: seq<Limb>, i: nat)
    requires k <= 3 && i < |s|
    ensures MulLimb(k, s, i) + (if CarryLost(k, s, i) then BASE else 0)
         == k * s[i] - Carry(k, s, i) * BASE + Carry(k, s, i + 1)
  {
    MulStep(k, 0, s[i]);
    var low, c := k * s[i] % BASE, Carry(k, s, i + 1);
    if i + 1 < |s| { MulStep(k, 0, s[i + 1]); MulBound(k, s[i + 1]); }
    assert c <= 2 && low < BASE;
    assert MulLimb(k, s, i) == if low + c >= BASE then low + c - BASE else low + c;
  }

  lemma MulBound(k: nat, d: nat)
    requires k <= 3 && d < BASE
    ensures k * d / BASE <= 2
  {
    MulMonotoneLeft(k, 3, d);
  }

  lemma CarryBound(k: nat, s: seq<Limb>)
    requires k <= 3 && |s| > 0
    ensures Carry(k, s, 0) <= 2
  {
    MulBound(k, s[0]);
  }

  lemma {:induction false} MulPrefix(k: nat, s: seq<Limb>, i: nat)
    requires k <= 3 && 0 < |s| && i <= |s|
    ensures LimbValue(MulSmall(k, s)[..i]) + LostValue(k, s, i) + Carry(k, s, 0) * BasePow(i)
         == k * LimbValue(s[..i]) + Carry(k, s, i)
  {
    if i > 0 {
      hide MulLimb, Carry, CarryLost;
      MulPrefix(k, s, i - 1);
      MulLimbValue(k, s, i - 1);
      CarryBound(k, s);
      var r := MulSmall(k, s);
      PrefixValue(r, i - 1);
      PrefixValue(s, i - 1);
      MulStep(k, LimbValue(s[..i - 1]), s[i - 1]);
      MulStep(Carry(k, s, 0), BasePow(i - 1), 0);
    }
  }

  /** Doubling or tripling, exactly: the product, less the lost carries, less what leaves at the top. */
  lemma MulSmallValue(k: nat, s: seq<Limb>)
    requires k <= 3 && 0 < |s|
    ensures LimbValue(MulSmall(k, s)) + LostValue(k, s, |s|) + Carry(k, s, 0) * BasePow(|s|) == k * LimbValue(s)
  {
    MulPrefix(k, s, |s|);
    assert MulSmall(k, s)[..|s|] == MulSmall(k, s) && s[..|s|] == s;
  }

  lemma {:induction false} LostValueZero(k: nat, s: seq<Limb>, n: nat)
    requires n <= |s|
    ensures LostValue(k, s, n) == 0 <==> forall i :: 0 <= i < n ==> !CarryLost(k, s, i)
  {
    if n > 0 {
      LostValueZero(k, s, n - 1);
    }
  }

  /** One lost carry costs a whole limb at least. */
  lemma {:induction false} LostValueLarge(k: nat, s: seq<Limb>, n: nat)
    requires n <= |s|
    ensures LostValue(k, s, n) == 0 || LostValue(k, s, n) >= BASE
  {
    if n > 0 {
      LostValueLarge(k, s, n - 1);
    }
  }

  /** When the product fits, the routine is right exactly when no limb loses a carry. */
  lemma MulSmallExact(k: nat, s: seq<Limb>)
    requires k <= 3 && 0 < |s| && k * LimbValue(s) < BasePow(|s|)
    ensures LimbValue(MulSmall(k, s)) == k * LimbValue(s) - LostValue(k, s, |s|)
    ensures LimbValue(MulSmall(k, s)) == k * LimbValue(s) <==> forall i :: 0 <= i < |s| ==> !CarryLost(k, s, i)
  {
    MulSmallValue(k, s);
    LostValueZero(k, s, |s|);
    if Carry(k, s, 0) >= 1 {
      MulMonotoneLeft(1, Carry(k, s, 0), BasePow(|s|));
    }
  }

  lemma MulMonotoneLeft(x: nat, y: nat, z: nat)
    requires x <= y
    ensures x * z <= y * z
  {
  }

  /** Doubling never loses a carry: the low word is even, so adding one bit cannot overflow. */
  lemma DoublingLosesNothing(s: seq<Limb>, i: nat)
    requires i < |s|
    ensures !CarryLost(2, s, i)
  {
    assert Carry(2, s, i + 1) <= 1;
    assert 2 * s[i] % BASE == 2 * (s[i] % 0x8000_0000);
  }

  /** Tripling does lose carries: 3 * 0x55555555_FFFFFFFF comes out 2^64 short. */
  lemma TriplingCounterexample()
    ensures var s: seq<Limb> := [0, 0x5555_5555, 0xFFFF_FFFF];
      CarryLost(3, s, 1) && LimbValue(MulSmall(3, s)) == 3 * LimbValue(s) - BasePow(2)
  {
    var s: seq<Limb> := [0, 0x5555_5555, 0xFFFF_FFFF];
    assert BasePow(3) == BASE * BasePow(2) && BasePow(2) == BASE * BasePow(1) && BasePow(1) == BASE * BasePow(0);
    Value3(s);
    MulSmallExact(3, s);
    assert CarryLost(3, s, 1) && !CarryLost(3, s, 0) && !CarryLost(3, s, 2);
    assert LostValue(3, s, 1) == 0;
    assert LostValue(3, s, 2) == BASE;
    assert LostValue(3, s, 3) == BASE * BASE;
  }

  lemma Value3(s: seq<Limb>)
    requires |s| == 3
    ensures LimbValue(s) == (s[0] * BASE + s[1]) * BASE + s[2]
  {
    PrefixValue(s, 0);
    PrefixValue(s, 1);
    PrefixValue(s, 2);
    assert s[..0] == [] && s[..3] == s;
  }
}
