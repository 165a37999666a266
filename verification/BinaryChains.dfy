/** The binary expansion as a double-base chain: the builder's first candidate. */
module BinaryChains {
  import opened Powers
  import opened Limbs
  import opened Residues
  import opened Chains
  import opened Digits

  /** Bit k of v. */
  predicate Bit(v: nat, k: nat) {
    (v / Pow23(k, 0)) % 2 == 1
  }

  /** The low `bits` bits of v, as a chain of powers of two. */
  function BinaryChain(v: nat, bits: nat): Chain {
    if bits == 0 then Empty
    else if Bit(v, bits - 1) then Term(Node(bits - 1, 0, false), BinaryChain(v, bits - 1))
    else BinaryChain(v, bits - 1)
  }

  lemma {:induction false} BinaryValue(v: nat, bits: nat)
    ensures Below(BinaryChain(v, bits), bits, 0)
    ensures Value(BinaryChain(v, bits)) == v % Pow23(bits, 0)
  {
    if bits > 0 {
      BinaryValue(v, bits - 1);
      var h := Pow23(bits - 1, 0);
      BelowWeaken(BinaryChain(v, bits - 1), bits - 1, 0, bits, 0);
      SplitBit(v, h);
    }
  }

  /** The next bit decides between the remainder below it and that plus 2^k. */
  lemma SplitBit(v: nat, h: nat)
    requires h > 0
    ensures v % (2 * h) == v % h + (if (v / h) % 2 == 1 then h else 0)
  {
    var q := ModSplit(v, h);
    DivIs(v, h, q);
    var q' := ModSplit(q, 2);
    Nest(h, 2, q', q % 2);
    assert (2 * h) * q' == (h * 2) * q';
    if q % 2 == 1 {
      ModUnique(v, 2 * h, q', v % h + h);
    } else {
      ModUnique(v, 2 * h, q', v % h);
    }
  }

  /** Above its digits, v has no further terms. */
  lemma {:induction false} BinaryStable(v: nat, low: nat, bits: nat)
    requires v < Pow23(low, 0) && low <= bits
    ensures BinaryChain(v, bits) == BinaryChain(v, low)
  {
    if low < bits {
      BinaryStable(v, low, bits - 1);
      Pow23Monotone(low, 0, bits - 1, 0);
      ModUnique(v, Pow23(bits - 1, 0), 0, v);
    }
  }

  /** Above the top bit the binary chain does not change, and its leading exponent is the top bit. */
  lemma BinaryLength(v: nat, k: nat, bits: nat)
    requires k > 0 && Pow23(k - 1, 0) <= v < Pow23(k, 0) && v < Pow23(bits, 0)
    ensures k <= bits && BinaryChain(v, bits) == BinaryChain(v, k)
    ensures Cost(BinaryChain(v, k)) == DBL_COST * (k - 1) + ADD_COST * (Size(BinaryChain(v, k)) - 1)
  {
    TopBit(v, k);
    PowerOrder(k - 1, bits);
    BinaryStable(v, k, bits);
  }

  lemma TopBit(v: nat, k: nat)
    requires k > 0 && Pow23(k - 1, 0) <= v < Pow23(k, 0)
    ensures Bit(v, k - 1)
  {
    assert Pow23(k, 0) == 2 * Pow23(k - 1, 0);
    ModUnique(v, Pow23(k - 1, 0), 1, v - Pow23(k - 1, 0));
  }

  lemma {:induction false} BasePowIsPower(k: nat)
    ensures BasePow(k) == Pow23(32 * k, 0)
  {
    if k > 0 {
      BasePowIsPower(k - 1);
      TwoPower();
      Pow23Product(32 * (k - 1), 0, 32, 0);
      assert 32 * (k - 1) + 32 == 32 * k;
      Pow23Product(32, 0, 32 * (k - 1), 0);
    } else {
      assert Pow23(0, 0) == 1;
    }
  }

  /** Limb i from the end is digit i to the base 2^32. */
  lemma {:induction false} LimbIsDigit(s: seq<Limb>, k: nat)
    requires k < |s|
    ensures (LimbValue(s) / BasePow(k)) % BASE == s[|s| - 1 - k]
  {
    var t := s[..|s| - 1];
    if k == 0 {
      assert BasePow(0) == 1;
      ModUnique(LimbValue(s), BASE, LimbValue(t), s[|s| - 1]);
    } else {
      LimbIsDigit(t, k - 1);
      ModUnique(LimbValue(s), BASE, LimbValue(t), s[|s| - 1]);
      DivDiv(LimbValue(s), BASE, BasePow(k - 1));
    }
  }

  /** Testing bit k of a limb tests the matching bit of the number. */
  lemma BitOfLimb(s: seq<Limb>, limb: nat, k: nat)
    requires limb < |s| && k < 32
    ensures Bit(LimbValue(s), 32 * limb + k) <==> (s[|s| - 1 - limb] / Pow23(k, 0)) % 2 == 1
  {
    hide Pow23, Bit, BasePow, LimbValue;
    var v, p, h := LimbValue(s), BasePow(limb), Pow23(k, 0);
    LimbIsDigit(s, limb);
    BasePowIsPower(limb);
    Pow23Product(32 * limb, 0, k, 0);
    DivDiv(v, p, h);
    BitIs(v, 32 * limb + k);
    LowWordBit(v / p, k);
  }

  lemma BitIs(v: nat, k: nat)
    ensures Bit(v, k) <==> (v / Pow23(k, 0)) % 2 == 1
  {
  }

  /** Bits below 32 survive the reduction modulo 2^32. */
  lemma LowWordBit(x: nat, k: nat)
    requires k < 32
    ensures (x / Pow23(k, 0)) % 2 == ((x % BASE) / Pow23(k, 0)) % 2
  {
    hide Pow23;
    var q := ModSplit(x, BASE);
    var h, h' := Pow23(k, 0), Pow23(31 - k, 0);
    Pow23Product(k, 0, 31 - k, 0);
    HalfBase();
    EvenShift(x, q, x % BASE, h, h');
  }

  lemma HalfBase()
    ensures 2 * Pow23(31, 0) == BASE
  {
    TwoPower();
  }

  lemma EvenShift(x: nat, q: nat, r: nat, h: nat, h': nat)
    requires h > 0 && x == 2 * (h * h') * q + r
    ensures (x / h) % 2 == (r / h) % 2
  {
    var e := ModSplit(r, h);
    DivIs(r, h, e);
    Nest(h, h', q, 0);
    assert h * h' * q == h * (h' * q);
    Nest(h, 2, h' * q, e);
    assert x == h * (2 * (h' * q) + e) + r % h by {
      assert h * (2 * (h' * q) + e) == (h * 2) * (h' * q) + h * e;
      assert (h * 2) * (h' * q) == 2 * (h * (h' * q));
    }
    ModUnique(x, h, 2 * (h' * q) + e, r % h);
    assert (2 * (h' * q) + e) % 2 == e % 2;
  }
}
