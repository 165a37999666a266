/**
  Length optimality. The recurrence looks at fewer alternatives than exist; the exchange
  lemmas below show that none of the omitted ones can win.
 */
module Optimality {
  import opened Powers
  import opened Chains
  import opened Cells
  import opened Soundness

  /**
    A chain worth at least half of 2^b 3^t can start with exactly that half and still save a
    term: its thirds 1/3 + 1/9 + ... must end in a half of the last one, and collapse.
   */
  lemma {:induction false} TakeHalf(c: Chain, b: nat, t: nat) returns (r: Chain)
    requires Below(c, b, t) && 2 * Value(c) >= Pow23(b, t)
    ensures b > 0 && Below(r, b - 1, t)
    ensures Value(r) == Value(c) - Pow23(b - 1, t)
    ensures Size(r) < Size(c)
  {
    LeadingTerm(c);
    DivisorCases(c.head.dbl, c.head.tpl, b, t);
    if c.head.dbl < b {
      r := c.rest;
    } else {
      r := TakeHalf(c.rest, b, t - 1);
      TripleStep(b - 1, t);
      BelowWeaken(r, b - 1, t - 1, b - 1, t);
    }
  }

  /**
    A chain worth at most a third of 2^b 3^t need not start with the half: what follows is
    minus a quarter, a sixth or an eighth, and 1/2 - 1/4 = 1/4, 1/2 - 1/6 = 1/3,
    1/2 - 1/8 = 1/4 + 1/8.
   */
  lemma AvoidHalf(c: Chain, b: nat, t: nat) returns (r: Chain)
    requires Below(c, b, t) && 0 <= 3 * Value(c) <= Pow23(b, t)
    requires c.Term? && b > 0 && c.head.dbl == b - 1 && c.head.tpl == t
    ensures Value(r) == Value(c) && Size(r) <= Size(c)
    ensures
      || Below(r, b - 1, t)
      || (t > 0 && r.Term? && r.head == Node(b, t - 1, false) && Below(r.rest, b, t - 1))
  {
    LeadingTerm(c);
    LeadingTerm(c.rest);
    var x := c.rest.head;
    var tail := c.rest.rest;
    FineDivisorCases(x.dbl, x.tpl, b - 1, t);
    if x.tpl < t {
      TripleStep(b, t);
      BelowWeaken(tail, b - 1, t - 1, b, t - 1);
      r := Term(Node(b, t - 1, false), tail);
    } else if x.dbl == b - 2 {
      r := Term(Node(b - 2, t, false), tail);
    } else {
      assert Pow23(b - 2, t) == 2 * Pow23(b - 3, t);
      r := Term(Node(b - 2, t, false), Term(Node(b - 3, t, false), tail));
    }
  }

  /** x is a chain of at most `size` terms. */
  ghost predicate Within(x: Cell, size: int) {
    !x.isNull && x.length <= size
  }

  /** One of the alternatives that the digit admits for `w(b,t)` gives at most `size` terms. */
  ghost predicate PlainWithin(q: nat, half: Cell, half_: Cell, third: Cell, third_: Cell, size: int) {
    if q < 2 then Within(half, size) || Within(third, size) || Within(third_, size - 1)
    else if q == 2 then Within(half, size) || Within(half_, size - 1) || Within(third, size - 1)
    else Within(half, size - 1)
  }

  /** The same for `w_(b,t)`. */
  ghost predicate ComplementWithin(q: nat, half: Cell, half_: Cell, third: Cell, third_: Cell, size: int) {
    if q < 3 then Within(half_, size - 1)
    else if q == 3 then Within(half, size - 1) || Within(half_, size) || Within(third_, size - 1)
    else Within(half_, size) || Within(third, size - 1) || Within(third_, size)
  }

  lemma NextWithin(q: nat, b: nat, t: nat, half: Cell, half_: Cell, third: Cell, third_: Cell, size: int)
    requires size < SENTINEL
    ensures PlainWithin(q, half, half_, third, third_, size) ==>
              Within(NextPlain(q, b, t, half, half_, third, third_), size)
    ensures ComplementWithin(q, half, half_, third, third_, size) ==>
              Within(NextComplement(q, b, t, half, half_, third, third_), size)
  {
  }

  /** A non-empty chain below 2^b 3^t is below the half, below the third, or starts with one of the two. */
  lemma LeadCases(c: Chain, b: nat, t: nat)
    requires Below(c, b, t) && (b > 0 || t > 0)
    ensures
      || (b > 0 && Below(c, b - 1, t))
      || (t > 0 && Below(c, b, t - 1))
      || (c.Term? && b > 0 && c.head.dbl == b - 1 && c.head.tpl == t)
      || (c.Term? && t > 0 && c.head.dbl == b && c.head.tpl == t - 1)
  {
  }

  /**
    No chain of the slot's value is shorter than the cell; in particular the cell is not NULL.
    The four alternatives the recurrence omits are the calls of `TakeHalf` and `AvoidHalf`.
   */
  lemma {:induction false} BestIsShortest(n: nat, table: Table, b: nat, t: nat, c: Chain)
    requires b + t < SENTINEL
    requires Below(c, b, t) && Value(c) == Target(n, table, b, t)
    ensures Within(Best(6 * n, table, b, t), Size(c))
    decreases b + t, 1
  {
    hide Target, Best, Value, Below, Within, PlainWithin, ComplementWithin, NextPlain, NextComplement;
    SizeBound(c, b, t);
    var m := 6 * n;
    var q := Quot(m, b, t);
    var half, half_ := Best(m, Plain, b - 1, t), Best(m, Complement, b - 1, t);
    var third, third_ := Best(m, Plain, b, t - 1), Best(m, Complement, b, t - 1);
    if b == 0 && t == 0 {
      BaseIsShortest(n, table, c);
    } else if table.Plain? {
      PlainIsShortest(n, b, t, c);
      NextWithin(q, b, t, half, half_, third, third_, Size(c));
      BestUnfolds(m, b, t);
    } else {
      ComplementIsShortest(n, b, t, c);
      NextWithin(q, b, t, half, half_, third, third_, Size(c));
      BestUnfolds(m, b, t);
    }
  }

  lemma BestUnfolds(m: nat, b: nat, t: nat)
    requires b > 0 || t > 0
    ensures var q := Quot(m, b, t);
      var half, half_ := Best(m, Plain, b - 1, t), Best(m, Complement, b - 1, t);
      var third, third_ := Best(m, Plain, b, t - 1), Best(m, Complement, b, t - 1);
      && Best(m, Plain, b, t) == NextPlain(q, b, t, half, half_, third, third_)
      && Best(m, Complement, b, t) == NextComplement(q, b, t, half, half_, third, third_)
  {
  }

  lemma BaseIsShortest(n: nat, table: Table, c: Chain)
    requires Below(c, 0, 0) && Value(c) == Target(n, table, 0, 0)
    ensures Within(Best(6 * n, table, 0, 0), Size(c))
  {
    assert c.Empty?;
  }

  lemma WithinWeaken(x: Cell, size: int, size': int)
    requires Within(x, size) && size <= size'
    ensures Within(x, size')
  {
  }

  /** The digit of 6n, as a comparison of the remainder with thirds and the half. */
  lemma DigitOfSix(n: nat, b: nat, t: nat)
    ensures var q, x, d := Quot(6 * n, b, t), Target(n, Plain, b, t), Pow23(b, t);
      && 0 <= x < d && Target(n, Complement, b, t) == x - d
      && (q < 2 <==> 3 * x < d) && (q < 3 <==> 2 * x < d) && (q < 4 <==> 3 * x < 2 * d)
  {
    assert (6 * n) / 6 == n && (6 * n) % 6 == 0;
    DigitOfRemainder(6 * n, Pow23(b, t));
  }

  /** A chain of a non-negative value starts with a plus; taking that term off. */
  lemma PositiveLead(c: Chain, b: nat, t: nat, b': nat, t': nat)
    requires Below(c, b, t) && c.Term? && c.head.dbl == b' && c.head.tpl == t' && Value(c) >= 0
    ensures !c.head.minus && Below(c.rest, b', t') && Value(c.rest) == Value(c) - Pow23(b', t')
    ensures Size(c.rest) == Size(c) - 1
  {
    LeadingTerm(c);
  }

  /** `c` with the start +half avoided where the recurrence does not offer it. */
  lemma Prepare(c: Chain, b: nat, t: nat) returns (r: Chain)
    requires Below(c, b, t) && Value(c) >= 0 && (b > 0 || t > 0)
    ensures Below(r, b, t) && Value(r) == Value(c) && Size(r) <= Size(c)
    ensures
      || (b > 0 && Below(r, b - 1, t))
      || (t > 0 && Below(r, b, t - 1))
      || (r.Term? && t > 0 && r.head == Node(b, t - 1, false))
      || (r.Term? && b > 0 && r.head == Node(b - 1, t, false) && 3 * Value(r) > Pow23(b, t))
  {
    LeadCases(c, b, t);
    if c.Term? { LeadingTerm(c); }
    if c.Term? && b > 0 && c.head.dbl == b - 1 && c.head.tpl == t && 3 * Value(c) <= Pow23(b, t) {
      r := AvoidHalf(c, b, t);
      if Below(r, b - 1, t) { BelowWeaken(r, b - 1, t, b, t); }
    } else {
      r := c;
    }
  }

  lemma {:induction false} PlainIsShortest(n: nat, b: nat, t: nat, c: Chain)
    requires 0 < b + t < SENTINEL
    requires Below(c, b, t) && Value(c) == Target(n, Plain, b, t)
    ensures PlainWithin(Quot(6 * n, b, t), Best(6 * n, Plain, b - 1, t), Best(6 * n, Complement, b - 1, t),
                        Best(6 * n, Plain, b, t - 1), Best(6 * n, Complement, b, t - 1), Size(c))
    decreases b + t, 0
  {
    hide Target, Best, Within, Quot, Below, Pow23, Value, Size;
    var m := 6 * n;
    assert m / 6 == n;
    DigitOfSix(n, b, t);
    if b > 0 { TargetHalf(m, b, t); }
    if t > 0 { TargetThird(m, b, t); }
    var size := Size(c);
    if 2 * Value(c) >= Pow23(b, t) {
      var r := TakeHalf(c, b, t);
      BestIsShortest(n, Plain, b - 1, t, r);
      WithinWeaken(Best(m, Plain, b - 1, t), Size(r), size - 1);
    } else {
      var d := Prepare(c, b, t);
      if b > 0 && Below(d, b - 1, t) {
        BestIsShortest(n, Plain, b - 1, t, d);
        WithinWeaken(Best(m, Plain, b - 1, t), Size(d), size);
      } else if t > 0 && Below(d, b, t - 1) {
        ValueBound(d, b, t - 1);
        BestIsShortest(n, Plain, b, t - 1, d);
        WithinWeaken(Best(m, Plain, b, t - 1), Size(d), size);
      } else {
        PositiveLead(d, b, t, d.head.dbl, d.head.tpl);
        var table := if d.head.dbl == b && 3 * Value(d) >= Pow23(b, t) then Plain else Complement;
        BestIsShortest(n, table, d.head.dbl, d.head.tpl, d.rest);
        WithinWeaken(Best(m, table, d.head.dbl, d.head.tpl), Size(d.rest), size - 1);
      }
    }
  }

  lemma {:induction false} ComplementIsShortest(n: nat, b: nat, t: nat, c: Chain)
    requires 0 < b + t < SENTINEL
    requires Below(c, b, t) && Value(c) == Target(n, Complement, b, t)
    ensures ComplementWithin(Quot(6 * n, b, t), Best(6 * n, Plain, b - 1, t), Best(6 * n, Complement, b - 1, t),
                        Best(6 * n, Plain, b, t - 1), Best(6 * n, Complement, b, t - 1), Size(c))
    decreases b + t, 0
  {
    hide Target, Best, Within, Quot, Below, Pow23, Value, Size, Opposite;
    var m := 6 * n;
    assert m / 6 == n;
    DigitOfSix(n, b, t);
    if b > 0 { TargetHalf(m, b, t); }
    if t > 0 { TargetThird(m, b, t); }
    var size := Size(c);
    OppositeFacts(c, b, t);
    var o := Opposite(c);
    if 2 * Value(o) > Pow23(b, t) {
      var r := TakeHalf(o, b, t);
      OppositeFacts(r, b - 1, t);
      BestIsShortest(n, Complement, b - 1, t, Opposite(r));
      WithinWeaken(Best(m, Complement, b - 1, t), Size(r), size - 1);
    } else {
      var d := Prepare(o, b, t);
      if b > 0 && Below(d, b - 1, t) {
        OppositeFacts(d, b - 1, t);
        ValueBound(d, b - 1, t);
        BestIsShortest(n, Complement, b - 1, t, Opposite(d));
        WithinWeaken(Best(m, Complement, b - 1, t), Size(d), size);
      } else if t > 0 && Below(d, b, t - 1) {
        OppositeFacts(d, b, t - 1);
        ValueBound(d, b, t - 1);
        BestIsShortest(n, Complement, b, t - 1, Opposite(d));
        WithinWeaken(Best(m, Complement, b, t - 1), Size(d), size);
      } else {
        PositiveLead(d, b, t, d.head.dbl, d.head.tpl);
        OppositeFacts(d.rest, d.head.dbl, d.head.tpl);
        var table := if d.head.dbl == b && 3 * Value(d) > Pow23(b, t) then Complement else Plain;
        BestIsShortest(n, table, d.head.dbl, d.head.tpl, Opposite(d.rest));
        WithinWeaken(Best(m, table, d.head.dbl, d.head.tpl), Size(d.rest), size - 1);
      }
    }
  }

  /** The chains a slot ranges over: proper divisors of 2^b 3^t, with the slot's value. */
  ghost predicate FitsSlot(c: Chain, n: nat, table: Table, b: nat, t: nat) {
    Below(c, b, t) && Value(c) == Target(n, table, b, t)
  }

  /**
    Length optimality: a cell is NULL exactly when its slot has no chain at all, and otherwise
    its parents lead down a shortest one.
   */
  lemma LengthOptimal(n: nat, table: Table, b: nat, t: nat)
    requires b + t < SENTINEL
    ensures var x := Best(6 * n, table, b, t);
      && (x.isNull <==> forall c :: !FitsSlot(c, n, table, b, t))
      && (!x.isNull ==>
            && FitsSlot(ChainOf(6 * n, x), n, table, b, t)
            && Size(ChainOf(6 * n, x)) == x.length
            && forall c :: FitsSlot(c, n, table, b, t) ==> x.length <= Size(c))
  {
    hide Best, Target;
    var x := Best(6 * n, table, b, t);
    assert (6 * n) / 6 == n;
    BestIsSound(6 * n, table, b, t);
    SlotChain(n, table, b, t, x);
    forall c | FitsSlot(c, n, table, b, t)
      ensures Within(x, Size(c))
    {
      BestIsShortest(n, table, b, t, c);
    }
  }

  lemma SlotChain(n: nat, table: Table, b: nat, t: nat, x: Cell)
    requires Realizes(6 * n, x, b, t, Target(n, table, b, t))
    ensures !x.isNull ==> FitsSlot(ChainOf(6 * n, x), n, table, b, t) && Size(ChainOf(6 * n, x)) == x.length
  {
    hide Best;
  }
}
