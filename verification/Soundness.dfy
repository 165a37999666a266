/**
  Every chain the dynamic program stores has the value its slot promises, in all cases of
  the digit and for the digits of any number m, not only of a multiple of six.
 */
module Soundness {
  import opened Powers
  import opened Chains
  import opened Cells

  /** The value a chain in this slot must have, for k = floor(m / 6). */
  function Target(k: nat, table: Table, b: nat, t: nat): int {
    if table.Plain? then k % Pow23(b, t) else k % Pow23(b, t) - Pow23(b, t)
  }

  /** The base-6 digit of m at d, through the remainder of floor(m / 6) at d. */
  lemma DigitOfRemainder(m: nat, d: nat)
    requires d > 0
    ensures var q, y := (m / d) % 6, 6 * ((m / 6) % d) + m % 6;
      && (q < 2 <==> y < 2 * d) && (q < 3 <==> y < 3 * d) && (q < 4 <==> y < 4 * d)
  {
    var k, r := DivMod(m, 6);
    DigitOfParts(m, d, k, r);
  }

  lemma DigitOfParts(m: nat, d: nat, k: nat, r: nat)
    requires d > 0 && m == 6 * k + r && r < 6
    ensures var q, y := (m / d) % 6, 6 * (k % d) + r;
      && (q < 2 <==> y < 2 * d) && (q < 3 <==> y < 3 * d) && (q < 4 <==> y < 4 * d)
  {
    var j, x := DivMod(k, d);
    var e, f := DivMod(6 * x + r, d);
    var y := 6 * x + r;
    DigitRange(d, e, f, y);
    DigitIs(m, d, k, r, j, x, e, f);
  }

  lemma DivMod(x: nat, d: nat) returns (q: int, r: nat)
    requires d > 0
    ensures q == x / d && r == x % d && x == d * q + r && r < d
  {
    q, r := x / d, x % d;
  }

  lemma Recompose(m: nat, d: nat, k: nat, r: nat, j: int, x: nat, e: int, f: nat)
    requires m == 6 * k + r && k == d * j + x && 6 * x + r == d * e + f
    ensures m == d * (6 * j + e) + f
  {
    Distribute(d, 6 * j, e);
    Regroup(d, 6, j);
  }

  lemma DigitIs(m: nat, d: nat, k: nat, r: nat, j: int, x: nat, e: int, f: nat)
    requires d > 0 && m == 6 * k + r && k == d * j + x && 6 * x + r == d * e + f && f < d && 0 <= e < 6
    ensures (m / d) % 6 == e
  {
    Recompose(m, d, k, r, j, x, e, f);
    ModUnique(m, d, 6 * j + e, f);
    ModUnique(6 * j + e, 6, j, e);
  }

  lemma Distribute(d: nat, x: int, y: int)
    ensures d * (x + y) == d * x + d * y
  {
  }

  lemma DigitRange(d: nat, e: int, f: nat, y: nat)
    requires 0 < d && y == d * e + f && f < d && y < 6 * d
    ensures 0 <= e < 6
    ensures (e < 2 <==> y < 2 * d) && (e < 3 <==> y < 3 * d) && (e < 4 <==> y < 4 * d)
  {
    if e <= -1 { MulMonotone(d, e, -1); }
    if e >= 2 { MulMonotone(d, 2, e); } else { MulMonotone(d, e, 1); }
    if e >= 3 { MulMonotone(d, 3, e); } else { MulMonotone(d, e, 2); }
    if e >= 4 { MulMonotone(d, 4, e); } else { MulMonotone(d, e, 3); }
    if e >= 6 { MulMonotone(d, 6, e); }
  }

  lemma MulMonotone(d: nat, x: int, y: int)
    requires x <= y
    ensures d * x <= d * y
  {
  }

  /** The digit decides on which side of 2^(b-1) 3^t the slot's value lies. */
  lemma TargetHalf(m: nat, b: nat, t: nat)
    requires b > 0
    ensures var k, h, x := m / 6, Pow23(b - 1, t), Target(m / 6, Plain, b, t);
      && 0 <= x < 2 * h && Pow23(b, t) == 2 * h
      && Target(k, Complement, b, t) == x - 2 * h
      && (Quot(m, b, t) < 3 <==> x < h)
      && Target(k, Plain, b - 1, t) == (if x < h then x else x - h)
      && Target(k, Complement, b - 1, t) == (if x < h then x - h else x - 2 * h)
  {
    DigitOfRemainder(m, Pow23(b, t));
    ModHalf(m / 6, Pow23(b - 1, t));
  }

  /** ... and in which third of 2^b 3^t it lies. */
  lemma TargetThird(m: nat, b: nat, t: nat)
    requires t > 0
    ensures var k, h, x := m / 6, Pow23(b, t - 1), Target(m / 6, Plain, b, t);
      && 0 <= x < 3 * h && Pow23(b, t) == 3 * h
      && Target(k, Complement, b, t) == x - 3 * h
      && (Quot(m, b, t) < 2 <==> x < h)
      && (Quot(m, b, t) < 4 <==> x < 2 * h)
      && Target(k, Plain, b, t - 1) == (if x < h then x else if x < 2 * h then x - h else x - 2 * h)
      && Target(k, Complement, b, t - 1) == (if x < h then x - h else if x < 2 * h then x - 2 * h else x - 3 * h)
  {
    TripleStep(b, t);
    DigitOfRemainder(m, Pow23(b, t));
    ModThird(m / 6, Pow23(b, t - 1));
  }

  /**
    x is NULL, or following its parents gives a chain of v below 2^b 3^t with `length` terms.
    A cell without terms is a copy of `w(0,0)`; any other hangs below the slot of its own term.
   */
  ghost predicate Realizes(m: nat, x: Cell, b: nat, t: nat, v: int) {
    if x.isNull then x == NULL_CELL
    else
      && x.length >= 0
      && (x.length == 0 ==> x == BASE_CELL)
      && (x.length > 0 ==>
            && !x.isBasic
            && x.parent.Slot? && x.parent.b == x.addNode.dbl && x.parent.t == x.addNode.tpl
            && !Best(m, x.parent.table, x.parent.b, x.parent.t).isNull
            && Best(m, x.parent.table, x.parent.b, x.parent.t).length == x.length - 1)
      && Below(ChainOf(m, x), b, t)
      && Value(ChainOf(m, x)) == v
      && Size(ChainOf(m, x)) == x.length
  }

  /** What a slot offers to a later one: itself, or itself with a term on top. */
  lemma Offers(m: nat, x: Cell, table: Table, b': nat, t': nat, b: nat, t: nat, v: int)
    requires x == Best(m, table, b', t')
    requires Realizes(m, x, b', t', v)
    requires StrictlyDivides(b', t', b, t)
    ensures Realizes(m, x, b, t, v)
    ensures Realizes(m, AddAt(x, table, b', t', 1), b, t, v + Pow23(b', t'))
    ensures Realizes(m, AddAt(x, table, b', t', -1), b, t, v - Pow23(b', t'))
  {
    hide Best;
    if !x.isNull {
      BelowWeaken(ChainOf(m, x), b', t', b, t);
      var plus := AddAt(x, table, b', t', 1);
      assert ChainOf(m, plus) == Term(plus.addNode, ChainOf(m, x));
      var minus := AddAt(x, table, b', t', -1);
      assert ChainOf(m, minus) == Term(minus.addNode, ChainOf(m, x));
    }
  }

  /** What (b-1,t) contributes: each alternative the digit admits is NULL or a chain of the slot's value. */
  ghost predicate HalfOffers(m: nat, q: nat, b: nat, t: nat, half: Cell, half_: Cell, x: int, y: int) {
    && (q < 3 ==> Realizes(m, half, b, t, x))
    && (q < 3 ==> Realizes(m, AddAt(half_, Complement, b - 1, t, 1), b, t, x))
    && (q < 3 ==> Realizes(m, AddAt(half_, Complement, b - 1, t, -1), b, t, y))
    && (q >= 3 ==> Realizes(m, AddAt(half, Plain, b - 1, t, 1), b, t, x))
    && (q >= 3 ==> Realizes(m, AddAt(half, Plain, b - 1, t, -1), b, t, y))
    && (q >= 3 ==> Realizes(m, half_, b, t, y))
  }

  /** What (b,t-1) contributes. */
  ghost predicate ThirdOffers(m: nat, q: nat, b: nat, t: nat, third: Cell, third_: Cell, x: int, y: int) {
    && (q < 2 ==> Realizes(m, third, b, t, x))
    && (q < 2 ==> Realizes(m, AddAt(third_, Complement, b, t - 1, 1), b, t, x))
    && (2 <= q < 4 ==> Realizes(m, AddAt(third, Plain, b, t - 1, 1), b, t, x))
    && (2 <= q < 4 ==> Realizes(m, AddAt(third_, Complement, b, t - 1, -1), b, t, y))
    && (q >= 4 ==> Realizes(m, AddAt(third, Plain, b, t - 1, -1), b, t, y))
    && (q >= 4 ==> Realizes(m, third_, b, t, y))
  }

  lemma HalfOffersFrom(m: nat, q: nat, b: nat, t: nat, half: Cell, half_: Cell, x: int, y: int, v: int)
    requires b > 0
    requires half == Best(m, Plain, b - 1, t) && half_ == Best(m, Complement, b - 1, t)
    requires Realizes(m, half, b - 1, t, v) && Realizes(m, half_, b - 1, t, v - Pow23(b - 1, t))
    requires y == x - Pow23(b, t)
    requires v == if q < 3 then x else x - Pow23(b - 1, t)
    ensures HalfOffers(m, q, b, t, half, half_, x, y)
  {
    hide Realizes, Best, AddAt;
    Offers(m, half, Plain, b - 1, t, b, t, v);
    Offers(m, half_, Complement, b - 1, t, b, t, v - Pow23(b - 1, t));
  }

  lemma ThirdOffersFrom(m: nat, q: nat, b: nat, t: nat, third: Cell, third_: Cell, x: int, y: int, v: int)
    requires t > 0
    requires third == Best(m, Plain, b, t - 1) && third_ == Best(m, Complement, b, t - 1)
    requires Realizes(m, third, b, t - 1, v) && Realizes(m, third_, b, t - 1, v - Pow23(b, t - 1))
    requires y == x - 3 * Pow23(b, t - 1)
    requires v == if q < 2 then x else if q < 4 then x - Pow23(b, t - 1) else x - 2 * Pow23(b, t - 1)
    ensures ThirdOffers(m, q, b, t, third, third_, x, y)
  {
    hide Realizes, Best, AddAt;
    Offers(m, third, Plain, b, t - 1, b, t, v);
    Offers(m, third_, Complement, b, t - 1, b, t, v - Pow23(b, t - 1));
  }

  lemma NextRealizes(m: nat, q: nat, b: nat, t: nat, half: Cell, half_: Cell, third: Cell, third_: Cell, x: int, y: int)
    requires HalfOffers(m, q, b, t, half, half_, x, y) && ThirdOffers(m, q, b, t, third, third_, x, y)
    ensures Realizes(m, NextPlain(q, b, t, half, half_, third, third_), b, t, x)
    ensures Realizes(m, NextComplement(q, b, t, half, half_, third, third_), b, t, y)
  {
  }

  lemma BorderOffers(m: nat, q: nat, b: nat, t: nat, x: int, y: int)
    ensures b == 0 ==> HalfOffers(m, q, b, t, NULL_CELL, NULL_CELL, x, y)
    ensures t == 0 ==> ThirdOffers(m, q, b, t, NULL_CELL, NULL_CELL, x, y)
  {
  }

  lemma BaseIsSound(m: nat, table: Table)
    ensures Realizes(m, Best(m, table, 0, 0), 0, 0, Target(m / 6, table, 0, 0))
  {
  }

  /** Soundness of the recurrence, slot by slot. */
  lemma {:induction false} BestIsSound(m: nat, table: Table, b: nat, t: nat)
    ensures Realizes(m, Best(m, table, b, t), b, t, Target(m / 6, table, b, t))
    decreases b + t
  {
    hide Realizes, HalfOffers, ThirdOffers, NextPlain, NextComplement, Quot, Target;
    var k, q := m / 6, Quot(m, b, t);
    var x, y := Target(k, Plain, b, t), Target(k, Complement, b, t);
    var half, half_ := Best(m, Plain, b - 1, t), Best(m, Complement, b - 1, t);
    var third, third_ := Best(m, Plain, b, t - 1), Best(m, Complement, b, t - 1);
    BorderOffers(m, q, b, t, x, y);
    if b > 0 {
      TargetHalf(m, b, t);
      BestIsSound(m, Plain, b - 1, t);
      BestIsSound(m, Complement, b - 1, t);
      HalfOffersFrom(m, q, b, t, half, half_, x, y, Target(k, Plain, b - 1, t));
    }
    if t > 0 {
      TargetThird(m, b, t);
      BestIsSound(m, Plain, b, t - 1);
      BestIsSound(m, Complement, b, t - 1);
      ThirdOffersFrom(m, q, b, t, third, third_, x, y, Target(k, Plain, b, t - 1));
    }
    if b > 0 || t > 0 {
      NextRealizes(m, q, b, t, half, half_, third, third_, x, y);
    } else {
      BaseIsSound(m, table);
    }
  }
}
