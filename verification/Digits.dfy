/** The blocked digit extraction computes the plain base-6 digit at every cell. */
module Digits {
  import opened Powers
  import opened Limbs
  import opened Residues
  import opened BigInts
  import opened Cells

  lemma DivDiv(m: nat, a: nat, b: nat)
    requires a > 0 && b > 0
    ensures a * b > 0 && (m / a) / b == m / (a * b)
  {
    MulAtLeast(a, b);
    var q := ModSplit(m, a);
    var q' := ModSplit(m / a, b);
    var r, r' := m % a, (m / a) % b;
    DivIs(m, a, q);
    DivIs(m / a, b, q');
    assert m == a * (b * q' + r') + r;
    Nest(a, b, q', r');
    RemainderFits(a, b, r, r');
    ModUnique(m, a * b, q', a * r' + r);
  }

  lemma DivIs(x: nat, d: nat, q: int)
    requires d > 0 && x == d * q + x % d
    ensures x / d == q
  {
    ModUnique(x, d, q, x % d);
  }

  lemma Nest(a: int, b: int, q: int, r: int)
    ensures a * (b * q + r) == (a * b) * q + a * r
  {
  }

  lemma RemainderFits(a: nat, b: nat, r: nat, r': nat)
    requires r < a && r' < b
    ensures a * r' + r < a * b
  {
    MulMonotoneLeft(r' + 1, b, a);
    assert a * (r' + 1) == a * r' + a;
  }

  /** Reducing modulo a multiple of 6p first does not change the digit at p. */
  lemma DigitOfResidue(v: nat, p: nat, k: nat)
    requires p > 0 && k > 0
    ensures p * (6 * k) > 0 && ((v % (p * (6 * k))) / p) % 6 == (v / p) % 6
  {
    MulAtLeast(p, 6 * k);
    var big := p * (6 * k);
    var q := ModSplit(v, big);
    var w := v % big;
    var e := ModSplit(w, p);
    Nest(p, 6 * k, q, e);
    DivIs(w, p, e);
    assert v == p * ((6 * k) * q + e) + w % p;
    ModUnique(v, p, (6 * k) * q + e, w % p);
    Regroup(6, k, q);
    assert (6 * k) * q == 6 * (k * q);
    SameDigit(k * q, e);
  }

  lemma SameDigit(x: int, e: int)
    requires e >= 0 && 6 * x + e >= 0
    ensures (6 * x + e) % 6 == e % 6
  {
  }

  lemma TwoPower()
    ensures Pow23(32, 0) == BASE && Pow23(33, 0) == 2 * BASE
  {
    assert Pow23(8, 0) == 256;
    Pow23Product(8, 0, 8, 0);
    assert Pow23(16, 0) == 65536;
    Pow23Product(16, 0, 16, 0);
  }

  lemma ThreePower()
    ensures Pow23(0, 18) == POW_3_18 && Pow23(0, 19) == 3 * POW_3_18
  {
    TripleStep(0, 19);
    assert Pow23(0, 6) == 729;
    Pow23Product(0, 6, 0, 6);
    assert Pow23(0, 12) == 531441;
    Pow23Product(0, 12, 0, 6);
  }

  lemma ModulusIsPower()
    ensures Pow23(33, 19) == MODULUS_33_19
  {
    TwoPower();
    ThreePower();
    Pow23Product(33, 0, 0, 19);
  }

  /** `record_outer` after j blocks of triplings, `temp_outer` after i further blocks of doublings. */
  lemma BlockStep(m: nat, b: nat, t: nat)
    ensures (m / Pow23(b, t)) / POW_3_18 == m / Pow23(b, t + 18)
    ensures (m / Pow23(b, t)) / BASE == m / Pow23(b + 32, t)
  {
    TwoPower();
    ThreePower();
    Pow23Product(b, t, 0, 18);
    Pow23Product(b, t, 32, 0);
    DivDiv(m, Pow23(b, t), POW_3_18);
    DivDiv(m, Pow23(b, t), BASE);
  }

  /**
    The digit read off inside a block is the digit of m itself: m shifted to the block's corner
    (b, t), cut down modulo 2^33 3^19, then divided by 2^i 3^j.
   */
  lemma FastDigit(m: nat, b: nat, t: nat, i: nat, j: nat)
    requires i <= 31 && j <= 17
    ensures (((m / Pow23(b, t)) % MODULUS_33_19) / Pow23(i, j)) % 6 == Quot(m, b + i, t + j)
  {
    hide Quot, Pow23;
    var v, p := m / Pow23(b, t), Pow23(i, j);
    var k := Pow23(32 - i, 18 - j);
    ModulusIsPower();
    Pow23Product(i, j, 33 - i, 19 - j);
    TripleStep(33 - i, 19 - j);
    DoubleStep(32 - i, 18 - j);
    assert Pow23(33 - i, 19 - j) == 6 * k;
    DigitOfBlock(v, p, k, MODULUS_33_19);
    Pow23Product(b, t, i, j);
    DivDiv(m, Pow23(b, t), p);
    QuotIs(m, b + i, t + j);
  }

  lemma DigitOfBlock(v: nat, p: nat, k: nat, big: nat)
    requires p > 0 && k > 0 && big == p * (6 * k) && big > 0
    ensures ((v % big) / p) % 6 == (v / p) % 6
  {
    DigitOfResidue(v, p, k);
  }

  lemma QuotIs(m: nat, b: nat, t: nat)
    ensures Quot(m, b, t) == (m / Pow23(b, t)) % 6
  {
  }
}
