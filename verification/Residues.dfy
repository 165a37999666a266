/** The residue modulo 2^33 3^19 and the short division, as facts about limb sequences. */
module Residues {
  import opened Powers
  import opened Limbs

  const POW_3_18: nat := 387420489
  /** 2 * 3^19. */
  const MODULUS: nat := 2324522934

  /** 2^(32 k) mod 2 * 3^19, as tabulated. */
  const MUL_NUM: seq<nat> := [
    1, 1970444362, 1644176284, 848770120, 475253032,
    468402244, 1309631158, 1742236222, 569278114, 2119856536,
    199572574, 112215616, 2150738470, 1699047148, 1138432246,
    344572318, 1173799390, 1485158506, 1162871614, 1183015876]

  lemma ModSplit(x: nat, m: nat) returns (q: nat)
    requires m > 0
    ensures x == m * q + x % m
  {
    q := x / m;
  }

  lemma ModAddMultiple(x: nat, q: int, m: nat)
    requires m > 0 && x + m * q >= 0
    ensures (x + m * q) % m == x % m
  {
    var q' := ModSplit(x, m);
    Factor(m, q', q);
    ModUnique(x + m * q, m, q' + q, x % m);
  }

  lemma Factor(m: int, x: int, y: int)
    ensures m * (x + y) == m * x + m * y
  {
  }

  lemma ModMul(x: nat, y: nat, m: nat)
    requires m > 0
    ensures (x * y) % m == ((x % m) * y) % m
  {
    var q := ModSplit(x, m);
    assert x * y == (x % m) * y + m * (q * y);
    ModAddMultiple((x % m) * y, q * y, m);
  }

  lemma ModAdd(x: nat, y: nat, m: nat)
    requires m > 0
    ensures (x + y) % m == (x % m + y % m) % m
  {
    var q := ModSplit(x, m);
    var q' := ModSplit(y, m);
    Factor(m, q, q');
    ModAddMultiple(x % m + y % m, q + q', m);
  }

  /** The quotients of the steps from one table entry to the next. */
  const STEP: seq<nat> := [
    1, 3640744502, 3037906516, 1568252932, 878114042,
    865455999, 2419775219, 3219089597, 1051842012, 3916809923,
    368745632, 207338199, 3973869758, 3139290143, 2103454947,
    636658307, 2168802001, 2744093043, 2148611002]

  lemma TableStep(k: nat)
    requires 0 < k < 20
    ensures MUL_NUM[k] == (MUL_NUM[k - 1] * BASE) % MODULUS
  {
    assert MUL_NUM[k - 1] * BASE == MODULUS * STEP[k - 1] + MUL_NUM[k] && MUL_NUM[k] < MODULUS by {
      if k < 5 {
        assert k == 1 || k == 2 || k == 3 || k == 4;
      } else if k < 10 {
        assert k == 5 || k == 6 || k == 7 || k == 8 || k == 9;
      } else if k < 15 {
        assert k == 10 || k == 11 || k == 12 || k == 13 || k == 14;
      } else {
        assert k == 15 || k == 16 || k == 17 || k == 18 || k == 19;
      }
    }
    ModUnique(MUL_NUM[k - 1] * BASE, MODULUS, STEP[k - 1], MUL_NUM[k]);
  }

  /** Every table entry is the residue it stands for. */
  lemma {:induction false} TableIsResidue(k: nat)
    requires k < 20
    ensures MUL_NUM[k] == BasePow(k) % MODULUS
  {
    if k > 0 {
      TableIsResidue(k - 1);
      TableStep(k);
      ModMul(BasePow(k - 1), BASE, MODULUS);
    }
  }
}
