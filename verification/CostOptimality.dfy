/**
  Global cost optimality: the cheapest of the candidates at the last column entries not above
  2n is as cheap as any double-base chain of n at all.
 */
module CostOptimality {
  import opened Powers
  import opened Chains
  import opened Cells
  import opened Soundness
  import opened Optimality

  /** The residue table serves at most 21 limbs of 32 bits. */
  const MAX_BITS := 672

  /** The scalars the builder accepts: positive, and 6n within the limbs. */
  predicate Fits(n: nat) {
    0 < n && 6 * n < Pow23(MAX_BITS, 0)
  }

  ghost predicate IsChainOf(c: Chain, n: int) {
    IsChain(c) && Value(c) == n
  }

  /** b is `bBound[t]`: the last b with 2^b 3^t <= 2n. */
  predicate IsBound(n: nat, b: nat, t: nat) {
    Pow23(b, t) <= 2 * n < Pow23(b + 1, t)
  }

  /** n itself, as a chain below the bound. */
  function PlainCandidate(m: nat, b: nat, t: nat): Cell {
    Best(m, Plain, b, t)
  }

  /** 2^b 3^t with a chain of what is missing to n. */
  function FullCandidate(m: nat, b: nat, t: nat): Cell {
    Best(m, Complement, b, t).Add(Slot(Complement, b, t), b, t, 1)
  }

  /** A cell that is a chain of v with the right cost. */
  ghost predicate ChainCell(m: nat, x: Cell, v: int) {
    && !x.isNull && !x.isBasic && x.length > 0
    && IsChainOf(ChainOf(m, x), v)
    && Size(ChainOf(m, x)) == x.length
    && x.GetV() == Cost(ChainOf(m, x))
    && x.parent.Slot? && x.parent.b == x.addNode.dbl && x.parent.t == x.addNode.tpl
    && !Best(m, x.parent.table, x.parent.b, x.parent.t).isNull
    && Best(m, x.parent.table, x.parent.b, x.parent.t).length == x.length - 1
  }

  lemma BoundSums(n: nat, b: nat, t: nat)
    requires Fits(n) && Pow23(b, t) <= 2 * n
    ensures b + t + 1 < MAX_BITS
  {
    Pow23LowerBound(b, t);
    assert Pow23(b + t + 1, 0) == 2 * Pow23(b + t, 0);
    PowerOrder(b + t + 1, MAX_BITS);
  }

  /** A bound lies in (n, 2n], so n is its own remainder there. */
  lemma BoundIsAboveN(n: nat, b: nat, t: nat)
    requires IsBound(n, b, t)
    ensures n < Pow23(b, t)
    ensures Target(n, Plain, b, t) == n && Target(n, Complement, b, t) == n - Pow23(b, t)
  {
    assert Pow23(b + 1, t) == 2 * Pow23(b, t);
    ModUnique(n, Pow23(b, t), 0, n);
  }

  /** A candidate that is not NULL is a chain of floor(m/6), whatever digits m has. */
  lemma CandidatesAreChains(m: nat, b: nat, t: nat)
    requires 0 < m / 6 < Pow23(b, t)
    ensures var x := PlainCandidate(m, b, t); x.isNull || ChainCell(m, x, m / 6)
    ensures var x := FullCandidate(m, b, t); x.isNull || ChainCell(m, x, m / 6)
  {
    var k := m / 6;
    ModUnique(k, Pow23(b, t), 0, k);
    BestIsSound(m, Plain, b, t);
    BestIsSound(m, Complement, b, t);
    PlainCell(m, b, t, k);
    FullCell(m, b, t, k);
  }

  lemma PlainCell(m: nat, b: nat, t: nat, v: int)
    requires v > 0 && Realizes(m, Best(m, Plain, b, t), b, t, v)
    ensures var x := PlainCandidate(m, b, t); x.isNull || ChainCell(m, x, v)
  {
    hide Best;
  }

  lemma FullCell(m: nat, b: nat, t: nat, v: int)
    requires Realizes(m, Best(m, Complement, b, t), b, t, v - Pow23(b, t))
    ensures var x := FullCandidate(m, b, t); x.isNull || ChainCell(m, x, v)
  {
    hide Best;
    var x := Best(m, Complement, b, t);
    if !x.isNull {
      var y := FullCandidate(m, b, t);
      assert ChainOf(m, y) == Term(y.addNode, ChainOf(m, x));
    }
  }

  /**
    A best chain never needs a leading term above 2n: L - L/2 = L/2, and
    L - L/3 = 2L/3 trades a tripling for a doubling.
   */
  lemma {:induction false} LowerLead(c: Chain, n: nat) returns (r: Chain)
    requires n > 0 && IsChainOf(c, n)
    ensures IsChainOf(r, n) && Cost(r) <= Cost(c)
    ensures r.Term? && Pow23(r.head.dbl, r.head.tpl) <= 2 * n
    decreases Size(c)
  {
    r := c;
    var b, t := c.head.dbl, c.head.tpl;
    LeadingTerm(c);
    if Pow23(b, t) > 2 * n {
      var x, tail := c.rest.head, c.rest.rest;
      assert Size(c) == 2 + Size(tail);
      LeadingTerm(c.rest);
      DivisorCases(x.dbl, x.tpl, b, t);
      if x.dbl < b {
        r := LowerLead(Term(Node(b - 1, t, false), tail), n);
      } else {
        BelowWeaken(tail, b, t - 1, b + 1, t - 1);
        r := LowerLead(Term(Node(b + 1, t - 1, false), tail), n);
      }
    }
  }

  /** A chain whose leading term is above n: the complement of its column does as well. */
  lemma FullIsAsCheap(n: nat, c: Chain)
    requires Fits(n) && IsChainOf(c, n) && c.Term?
    requires n < Pow23(c.head.dbl, c.head.tpl) <= 2 * n
    ensures IsBound(n, c.head.dbl, c.head.tpl)
    ensures FullCandidate(6 * n, c.head.dbl, c.head.tpl).GetV() <= Cost(c)
  {
    var b, t := c.head.dbl, c.head.tpl;
    assert Pow23(b + 1, t) == 2 * Pow23(b, t);
    LeadingTerm(c);
    BoundIsAboveN(n, b, t);
    BoundSums(n, b, t);
    BestIsShortest(n, Complement, b, t, c.rest);
  }

  /** A chain whose leading term is at most n: the plain chain one doubling further up does as well. */
  lemma PlainIsAsCheap(n: nat, c: Chain)
    requires Fits(n) && IsChainOf(c, n) && c.Term?
    requires Pow23(c.head.dbl, c.head.tpl) <= n
    ensures IsBound(n, c.head.dbl + 1, c.head.tpl)
    ensures PlainCandidate(6 * n, c.head.dbl + 1, c.head.tpl).GetV() <= Cost(c)
  {
    hide Best, Target;
    var b, t := c.head.dbl + 1, c.head.tpl;
    assert Pow23(b, t) == 2 * Pow23(b - 1, t) && Pow23(b + 1, t) == 2 * Pow23(b, t);
    LeadingTerm(c);
    BoundIsAboveN(n, b, t);
    BoundSums(n, b, t);
    BestIsShortest(n, Plain, b, t, c);
    assert (6 * n) / 6 == n;
    BestIsSound(6 * n, Plain, b, t);
    var x := Best(6 * n, Plain, b, t);
    var p := ChainOf(6 * n, x);
    LargeLead(p, b, t);
    PlainCell(6 * n, b, t, n);
  }

  /** A chain below 2^b 3^t worth at least half of it leads with the half or with the third. */
  lemma LargeLead(p: Chain, b: nat, t: nat)
    requires Below(p, b, t) && 2 * Value(p) >= Pow23(b, t)
    ensures p.Term?
    ensures (p.head.dbl == b - 1 && p.head.tpl == t) || (p.head.dbl == b && p.head.tpl == t - 1)
  {
    LeadingTerm(p);
    DivisorCases(p.head.dbl, p.head.tpl, b, t);
  }

  /** Some candidate costs no more than any given chain of n. */
  lemma CandidateIsCheapest(n: nat, c: Chain) returns (b: nat, t: nat)
    requires Fits(n) && IsChainOf(c, n)
    ensures IsBound(n, b, t)
    ensures PlainCandidate(6 * n, b, t).GetV() <= Cost(c) || FullCandidate(6 * n, b, t).GetV() <= Cost(c)
  {
    var r := LowerLead(c, n);
    b, t := r.head.dbl, r.head.tpl;
    if Pow23(b, t) <= n {
      PlainIsAsCheap(n, r);
      b := b + 1;
    } else {
      FullIsAsCheap(n, r);
    }
  }
}
