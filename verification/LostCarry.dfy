/**
  Where the builder goes wrong: for n = 0x2AAAAAAA_FFFFFFFF the tripling of 2n loses a carry,
  the digits are those of a much smaller number, and the exported chain is not one of n.
 */
module LostCarry {
  import opened Powers
  import opened Limbs
  import opened BigInts
  import opened Chains
  import opened Cells
  import opened Soundness
  import opened Optimality
  import opened CostOptimality
  import opened Bounds
  import opened Digits
  import opened BinaryChains
  import opened Builders

  const SCALAR: nat := 0x2AAA_AAAA_FFFF_FFFF
  /** 6 * SCALAR - 2^64. */
  const DAMAGED: nat := 0x1_FFFF_FFFA

  lemma DoubledAndTripled(zeros: nat)
    ensures MulSmall(2, Padded(zeros, [0x2AAA_AAAA, 0xFFFF_FFFF])) == Padded(zeros, [0x5555_5555, 0xFFFF_FFFE])
    ensures MulSmall(3, Padded(zeros, [0x5555_5555, 0xFFFF_FFFE])) == Padded(zeros, [1, 0xFFFF_FFFA])
    ensures CarryLost(3, Padded(zeros, [0x5555_5555, 0xFFFF_FFFE]), zeros)
  {
    Doubled(zeros);
    Tripled(zeros);
  }

  lemma Doubled(zeros: nat)
    ensures MulSmall(2, Padded(zeros, [0x2AAA_AAAA, 0xFFFF_FFFF])) == Padded(zeros, [0x5555_5555, 0xFFFF_FFFE])
  {
    var s, d := Padded(zeros, [0x2AAA_AAAA, 0xFFFF_FFFF]), Padded(zeros, [0x5555_5555, 0xFFFF_FFFE]);
    forall i | 0 <= i < |s|
      ensures MulLimb(2, s, i) == d[i]
    {
    }
  }

  lemma Tripled(zeros: nat)
    ensures MulSmall(3, Padded(zeros, [0x5555_5555, 0xFFFF_FFFE])) == Padded(zeros, [1, 0xFFFF_FFFA])
    ensures CarryLost(3, Padded(zeros, [0x5555_5555, 0xFFFF_FFFE]), zeros)
  {
    var s, d := Padded(zeros, [0x5555_5555, 0xFFFF_FFFE]), Padded(zeros, [1, 0xFFFF_FFFA]);
    forall i | 0 <= i < |s|
      ensures MulLimb(3, s, i) == d[i]
    {
    }
  }

  /** In the column of pure doublings, `w` has at most as many terms as the binary expansion, whatever digits m has. */
  lemma {:induction false} ColumnWithin(m: nat, b: nat)
    requires b < SENTINEL
    ensures Within(Best(m, Plain, b, 0), Size(BinaryChain(m / 6, b)))
  {
    if b > 0 {
      ColumnWithin(m, b - 1);
      hide Best, Within;
      TargetHalf(m, b, 0);
      SplitBit(m / 6, Pow23(b - 1, 0));
      BinarySize(m / 6, b);
      ColumnStep(m, b, Size(BinaryChain(m / 6, b)));
    }
  }

  lemma BinarySize(v: nat, bits: nat)
    ensures Size(BinaryChain(v, bits)) <= bits
  {
    BinaryValue(v, bits);
    SizeBound(BinaryChain(v, bits), bits, 0);
  }

  lemma ColumnStep(m: nat, b: nat, size: nat)
    requires b > 0 && size < SENTINEL
    requires Within(Best(m, Plain, b - 1, 0), if Quot(m, b, 0) < 3 then size else size - 1)
    ensures Within(Best(m, Plain, b, 0), size)
  {
    hide Best;
    BestUnfolds(m, b, 0);
    NextWithin(Quot(m, b, 0), b, 0, Best(m, Plain, b - 1, 0), Best(m, Complement, b - 1, 0),
               Best(m, Plain, b, -1), Best(m, Complement, b, -1), size);
  }

  /** Above the digits of floor(m/6), and one more, the column only copies. */
  lemma {:induction false} ColumnCopies(m: nat, low: nat, b: nat)
    requires m / 6 < Pow23(low, 0) && low + 1 <= b < SENTINEL
    ensures Best(m, Plain, b, 0) == Best(m, Plain, low + 1, 0)
  {
    if b > low + 1 {
      ColumnCopies(m, low, b - 1);
      BinarySize(m / 6, b - 1);
      ColumnWithin(m, b - 1);
      Pow23Monotone(low + 2, 0, b, 0);
      DoubleStep(low + 1, 0);
      DoubleStep(low, 0);
      SmallDigit(m, Pow23(b, 0));
      QuotIs(m, b, 0);
    }
  }

  lemma SmallDigit(m: nat, d: nat)
    requires 0 < d && m < 2 * d
    ensures (m / d) % 6 < 2
  {
    if m < d {
      ModUnique(m, d, 0, m);
    } else {
      ModUnique(m, d, 1, m - d);
    }
  }

  /** What a chain of v costs that has no more terms than v has binary ones, led by at most 2^low. */
  function ColumnBound(v: nat, low: nat): int {
    if v == 0 then 0 else DBL_COST * low + ADD_COST * (Size(BinaryChain(v, low)) - 1)
  }

  /** So the column's candidate costs hardly more than the binary chain of floor(m/6). */
  lemma ColumnCost(m: nat, low: nat, b: nat)
    requires m / 6 < Pow23(low, 0) && low <= b < SENTINEL - 1
    ensures PlainCandidate(m, b, 0).GetV() <= ColumnBound(m / 6, low)
  {
    hide Best, BinaryChain, Target, Within, Realizes;
    var k := m / 6;
    var top := if b == low then low else low + 1;
    if b > low {
      ColumnCopies(m, low, b);
    }
    DoubleStep(low, 0);
    BinaryStable(k, low, top);
    ColumnWithin(m, top);
    BestIsSound(m, Plain, top, 0);
    TargetBelow(k, top, 0);
    RealizedCost(m, Best(m, Plain, top, 0), top, k, low);
  }

  lemma RealizedCost(m: nat, x: Cell, b: nat, v: nat, low: nat)
    requires Realizes(m, x, b, 0, v) && Within(x, Size(BinaryChain(v, low))) && b <= low + 1
    ensures x.GetV() <= ColumnBound(v, low)
  {
    hide Best;
    if v == 0 {
      BinaryValue(v, low);
      LeadingZeroChain(BinaryChain(0, low), low);
    }
  }

  lemma LeadingZeroChain(c: Chain, low: nat)
    requires c == BinaryChain(0, low)
    ensures c.Empty?
  {
    BinaryStable(0, 0, low);
  }

  /** A lost carry, and floor(m/6) cheap in binary: what the builder exports is not a chain of n. */
  lemma WrongValue(builder: Builder, s: seq<Limb>, c: Chain, low: nat, b: nat)
    requires |s| == builder.ints && FitsIn(LimbValue(s), builder.ints)
    requires builder.Chosen(c, LimbValue(s), builder.SixN(s)) && !builder.TriplingExact(s)
    requires builder.SixN(s) / 6 < Pow23(low, 0) && low <= b && IsBound(LimbValue(s), b, 0)
    requires ColumnBound(builder.SixN(s) / 6, low) < Cost(BinaryChain(LimbValue(s), MaxDbl(builder.ints)))
    ensures Value(c) == builder.SixN(s) / 6 < LimbValue(s)
  {
    hide Best, Pow23, BinaryChain, Value, Cost, LimbValue, ColumnBound, CarryLost, MulSmall;
    var n := LimbValue(s);
    FitsInFits(n, builder.ints);
    BoundExceedsN(n, b, 0);
    BoundSums(n, b, 0);
    ColumnCost(builder.SixN(s), low, b);
    builder.LossIsLarge(s, builder.ints);
  }

  /** In particular when m has few binary digits. */
  lemma FewDigitsLose(builder: Builder, s: seq<Limb>, c: Chain, low: nat, b: nat)
    requires |s| == builder.ints && FitsIn(LimbValue(s), builder.ints)
    requires builder.Chosen(c, LimbValue(s), builder.SixN(s)) && !builder.TriplingExact(s)
    requires builder.SixN(s) < Pow23(low, 0) && low <= b && IsBound(LimbValue(s), b, 0)
    requires 220 * low < Cost(BinaryChain(LimbValue(s), MaxDbl(builder.ints)))
    ensures Value(c) == builder.SixN(s) / 6 < LimbValue(s)
  {
    hide Pow23, BinaryChain, Cost, LimbValue, CarryLost, MulSmall;
    BinarySize(builder.SixN(s) / 6, low);
    WrongValue(builder, s, c, low, b);
  }

  /** In particular when floor(m/6) has fewer binary ones than n: a test on two numbers, before any table is filled. */
  lemma LighterLoses(builder: Builder, s: seq<Limb>, c: Chain)
    requires |s| == builder.ints && FitsIn(LimbValue(s), builder.ints)
    requires builder.Chosen(c, LimbValue(s), builder.SixN(s)) && !builder.TriplingExact(s)
    requires var bits := MaxDbl(builder.ints);
      Size(BinaryChain(builder.SixN(s) / 6, bits)) < Size(BinaryChain(LimbValue(s), bits))
    ensures Value(c) == builder.SixN(s) / 6 < LimbValue(s)
  {
    assert Pow23(1, 0) == 2;
    hide Pow23, BinaryChain, Cost, LimbValue, CarryLost, MulSmall, Value;
    var n, k, bits := LimbValue(s), builder.SixN(s) / 6, MaxDbl(builder.ints);
    builder.LossIsLarge(s, builder.ints);
    Pow23Positive(n, builder.ints);
    var b := ColumnEnd(n, bits);
    BinaryLength(n, b, bits);
    BinaryStable(k, b, bits);
    WrongValue(builder, s, c, b, b);
  }

  /** `bBound[0]`: the number of binary digits of n. */
  lemma {:induction false} ColumnEnd(n: nat, bits: nat) returns (b: nat)
    requires 0 < n < Pow23(bits, 0)
    ensures 0 < b <= bits && IsBound(n, b, 0) && Pow23(b - 1, 0) <= n < Pow23(b, 0)
  {
    assert Pow23(0, 0) == 1;
    if n >= Pow23(bits - 1, 0) {
      b := bits;
      DoubleStep(bits, 0);
      DoubleStep(bits - 1, 0);
    } else {
      b := ColumnEnd(n, bits - 1);
    }
  }

  /** The builder exports the empty chain if and only if m is below 6, and then a carry was lost. */
  lemma EmptyExport(builder: Builder, s: seq<Limb>, c: Chain)
    requires |s| == builder.ints && FitsIn(LimbValue(s), builder.ints)
    requires builder.Chosen(c, LimbValue(s), builder.SixN(s))
    ensures c.Empty? <==> builder.SixN(s) < 6
    ensures c.Empty? ==> !builder.TriplingExact(s)
  {
    hide Pow23, Cost, LimbValue, CarryLost, MulSmall;
    var n, bits := LimbValue(s), MaxDbl(builder.ints);
    builder.SixNFacts(s, builder.ints);
    Pow23Positive(n, builder.ints);
    BinaryIsChain(n, bits);
    if builder.SixN(s) < 6 {
      LeadingZeroChain(BinaryChain(0, bits), bits);
      LighterLoses(builder, s, c);
      if c.Term? {
        LeadingTerm(c);
      }
    }
  }

  lemma {:induction false} BinarySizeGrows(v: nat, bits: nat, more: nat)
    requires bits <= more
    ensures Size(BinaryChain(v, bits)) <= Size(BinaryChain(v, more))
  {
    hide Bit;
    if bits < more {
      BinarySizeGrows(v, bits, more - 1);
    }
  }

  /** All 32 low bits set. */
  lemma {:induction false} AllOnes(v: nat, bits: nat)
    requires bits <= 32 && v % BASE == BASE - 1
    ensures Size(BinaryChain(v, bits)) == bits
  {
    if bits > 0 {
      AllOnes(v, bits - 1);
      var k := bits - 1;
      LowWordBit(v, k);
      OnesBit(k);
    }
  }

  lemma OnesBit(k: nat)
    requires k < 32
    ensures ((BASE - 1) / Pow23(k, 0)) % 2 == 1
  {
    hide Pow23;
    var p, q := Pow23(k, 0), Pow23(31 - k, 0);
    Pow23Product(k, 0, 31 - k, 0);
    HalfBase();
    MulAtLeast(q, 1);
    OddMultiple(p, q);
    ModUnique(BASE - 1, p, 2 * q - 1, p - 1);
    SameDigitParity(q);
  }

  lemma OddMultiple(p: int, q: int)
    ensures p * (2 * q - 1) + (p - 1) == 2 * (p * q) - 1
  {
  }

  lemma SameDigitParity(q: int)
    ensures (2 * q - 1) % 2 == 1
  {
    ModUnique(2 * q - 1, 2, q - 1, 1);
  }

  /**
    On this input the builder's contract forces the wrong result: whatever it exports is a
    chain of 1431655764, which has at most 31 binary ones where n has at least 32.
   */
  lemma WrongChain(builder: Builder, s: seq<Limb>, c: Chain)
    requires 3 <= builder.ints <= 21 && s == Padded(builder.ints - 2, [0x2AAA_AAAA, 0xFFFF_FFFF])
    requires builder.Chosen(c, LimbValue(s), builder.SixN(s))
    ensures FitsIn(LimbValue(s), builder.ints) && LimbValue(s) == SCALAR
    ensures builder.SixN(s) == 6 * SCALAR - 0x1_0000_0000_0000_0000 && !builder.TriplingExact(s)
    ensures Value(c) == 1431655764 != SCALAR
  {
    hide Best, Pow23, BinaryChain, Value, Cost;
    var bits := MaxDbl(builder.ints);
    ScalarLimbs(builder, s);
    ScalarFits(builder.ints);
    ScalarIsHeavy(bits);
    LighterLoses(builder, s, c);
  }

  lemma ScalarLimbs(builder: Builder, s: seq<Limb>)
    requires builder.ints >= 3 && s == Padded(builder.ints - 2, [0x2AAA_AAAA, 0xFFFF_FFFF])
    ensures |s| == builder.ints && LimbValue(s) == SCALAR && builder.SixN(s) == DAMAGED && !builder.TriplingExact(s)
  {
    var zeros := builder.ints - 2;
    PaddedValue(zeros, [0x2AAA_AAAA, 0xFFFF_FFFF]);
    PaddedValue(zeros, [1, 0xFFFF_FFFA]);
    Value2([0x2AAA_AAAA, 0xFFFF_FFFF]);
    Value2([1, 0xFFFF_FFFA]);
    hide LimbValue, MulSmall, CarryLost;
    DoubledAndTripled(zeros);
    assert CarryLost(3, MulSmall(2, s), zeros);
  }

  lemma Value2(s: seq<Limb>)
    requires |s| == 2
    ensures LimbValue(s) == s[0] * BASE + s[1]
  {
    PrefixValue(s, 0);
    PrefixValue(s, 1);
    assert s[..0] == [] && s[..2] == s;
  }

  lemma ScalarIsHeavy(bits: nat)
    requires bits >= 64
    ensures Size(BinaryChain(DAMAGED / 6, bits)) < Size(BinaryChain(SCALAR, bits))
  {
    TwoPower();
    DoubleStep(31, 0);
    hide BinaryChain, Pow23;
    BinaryStable(DAMAGED / 6, 31, bits);
    BinarySize(DAMAGED / 6, 31);
    AllOnes(SCALAR, 32);
    BinarySizeGrows(SCALAR, 32, bits);
  }

  /** And for n = 0x2AAAAAAA_AAAAAAAB the damaged value is 2, so the exported chain has no terms. */
  lemma EmptyChainExported(builder: Builder, s: seq<Limb>, c: Chain)
    requires 3 <= builder.ints <= 21 && s == Padded(builder.ints - 2, [0x2AAA_AAAA, 0xAAAA_AAAB])
    requires builder.Chosen(c, LimbValue(s), builder.SixN(s))
    ensures FitsIn(LimbValue(s), builder.ints) && LimbValue(s) == 0x2AAA_AAAA_AAAA_AAAB
    ensures builder.SixN(s) == 2 && c == Empty
  {
    hide BinaryChain, Value, Cost;
    var zeros := builder.ints - 2;
    PaddedValue(zeros, [0x2AAA_AAAA, 0xAAAA_AAAB]);
    PaddedValue(zeros, [0, 2]);
    Value2([0x2AAA_AAAA, 0xAAAA_AAAB]);
    Value2([0, 2]);
    ScalarFits(builder.ints);
    hide LimbValue, Pow23;
    VanishingProduct(zeros);
    EmptyExport(builder, s, c);
  }

  lemma VanishingProduct(zeros: nat)
    ensures MulSmall(2, Padded(zeros, [0x2AAA_AAAA, 0xAAAA_AAAB])) == Padded(zeros, [0x5555_5555, 0x5555_5556])
    ensures MulSmall(3, Padded(zeros, [0x5555_5555, 0x5555_5556])) == Padded(zeros, [0, 2])
  {
    var s, d, p := Padded(zeros, [0x2AAA_AAAA, 0xAAAA_AAAB]), Padded(zeros, [0x5555_5555, 0x5555_5556]), Padded(zeros, [0, 2]);
    forall i | 0 <= i < |s|
      ensures MulLimb(2, s, i) == d[i] && MulLimb(3, d, i) == p[i]
    {
    }
  }

  lemma ScalarFits(ints: nat)
    requires 3 <= ints <= 21
    ensures FitsIn(SCALAR, ints)
  {
    TwoPower();
    hide Pow23;
    Pow23Product(32, 0, 32, 0);
    Pow23Product(64, 0, 32, 0);
    Pow23Monotone(96, 0, MaxDbl(ints), 0);
  }
}
