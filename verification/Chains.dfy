/**
  Double-base chains as values. A chain is held the way the source's cells hold it: the
  leading term on top, then the chain reached through `parent`.
 */
module Chains {
  import opened Powers

  const DBL_COST := 70
  const TPL_COST := 126
  const ADD_COST := 150

  datatype Node = Node(dbl: nat, tpl: nat, minus: bool)

  datatype Chain = Empty | Term(head: Node, rest: Chain)

  function Size(c: Chain): nat {
    if c.Empty? then 0 else 1 + Size(c.rest)
  }

  function Signed(x: Node): int {
    var p: int := Pow23(x.dbl, x.tpl);
    if x.minus then -p else p
  }

  function Value(c: Chain): int {
    if c.Empty? then 0 else Signed(c.head) + Value(c.rest)
  }

  predicate StrictlyDivides(b: nat, t: nat, b': nat, t': nat) {
    b <= b' && t <= t' && (b != b' || t != t')
  }

  /** The exponents tell proper divisors exactly. */
  lemma StrictlyDividesExactly(b: nat, t: nat, b': nat, t': nat)
    ensures StrictlyDivides(b, t, b', t') <==> Pow23(b', t') % Pow23(b, t) == 0 && Pow23(b, t) < Pow23(b', t')
  {
    DividesExactly(b, t, b', t');
    if StrictlyDivides(b, t, b', t') {
      Pow23StrictlyMonotone(b, t, b', t');
    }
  }

  /** Every term strictly divides the next larger one, and all strictly divide 2^b * 3^t. */
  predicate Below(c: Chain, b: nat, t: nat) {
    c.Empty? || (StrictlyDivides(c.head.dbl, c.head.tpl, b, t) && Below(c.rest, c.head.dbl, c.head.tpl))
  }

  /** A double-base chain: terms in strict divisibility order, no bound on the leading one. */
  predicate IsChain(c: Chain) {
    c.Empty? || Below(c.rest, c.head.dbl, c.head.tpl)
  }

  /** What `getV` charges: the doublings and triplings of the leading term, one addition per further term. */
  function Cost(c: Chain): int {
    if c.Empty? then 0
    else DBL_COST * c.head.dbl + TPL_COST * c.head.tpl + ADD_COST * (Size(c) - 1)
  }

  /** The three weights, in numbers: tenths of the 7, 12.6 and 15 that the evaluations are charged. */
  lemma CostInNumbers(c: Chain)
    ensures Cost(c) == if c.Empty? then 0 else 70 * c.head.dbl + 126 * c.head.tpl + 150 * (Size(c) - 1)
  {
  }

  function Opposite(c: Chain): Chain {
    if c.Empty? then Empty
    else Term(Node(c.head.dbl, c.head.tpl, !c.head.minus), Opposite(c.rest))
  }

  lemma {:induction false} OppositeFacts(c: Chain, b: nat, t: nat)
    requires Below(c, b, t)
    ensures Below(Opposite(c), b, t)
    ensures Value(Opposite(c)) == -Value(c)
    ensures Size(Opposite(c)) == Size(c)
    ensures Opposite(Opposite(c)) == c
  {
    if c.Term? {
      OppositeFacts(c.rest, c.head.dbl, c.head.tpl);
    }
  }

  lemma BelowWeaken(c: Chain, b: nat, t: nat, b': nat, t': nat)
    requires Below(c, b, t) && b <= b' && t <= t'
    ensures Below(c, b', t')
  {
  }

  /** A chain of proper divisors of d stays strictly between -d and d. */
  lemma {:induction false} ValueBound(c: Chain, b: nat, t: nat)
    requires Below(c, b, t)
    ensures 0 - Pow23(b, t) < Value(c) < Pow23(b, t)
  {
    if c.Term? {
      ValueBound(c.rest, c.head.dbl, c.head.tpl);
      Pow23StrictlyMonotone(c.head.dbl, c.head.tpl, b, t);
    }
  }

  /** The leading term decides the sign, and the value is less than twice that term. */
  lemma LeadingTerm(c: Chain)
    requires c.Term? && IsChain(c)
    ensures var lead := Pow23(c.head.dbl, c.head.tpl);
      if c.head.minus then -2 * lead < Value(c) < 0 else 0 < Value(c) < 2 * lead
  {
    ValueBound(c.rest, c.head.dbl, c.head.tpl);
  }

  /** Exponents only go down, so a chain below 2^b * 3^t has at most b + t terms. */
  lemma {:induction false} SizeBound(c: Chain, b: nat, t: nat)
    requires Below(c, b, t)
    ensures Size(c) <= b + t
  {
    if c.Term? {
      SizeBound(c.rest, c.head.dbl, c.head.tpl);
    }
  }

  /** The terms of a chain, leading term first: the order of `DBC_store`. */
  function Terms(c: Chain): (s: seq<Node>)
    ensures |s| == Size(c)
  {
    if c.Empty? then [] else [c.head] + Terms(c.rest)
  }
}
