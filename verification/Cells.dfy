/**
  The cells of the dynamic program, and the recurrence that fills them, as functions.
  `Cell` is the source's `optimal_DBC`; its `parent` pointer always points at a table slot,
  so it is kept as the slot's coordinates.
 */
module Cells {
  import opened Powers
  import opened Chains

  /** What `getL` and `getV` answer for a NULL cell. */
  const SENTINEL := 99999999

  /** `w` holds chains of n mod 2^b 3^t, `w_` chains of (n mod 2^b 3^t) - 2^b 3^t. */
  datatype Table = Plain | Complement

  datatype Slot = NoSlot | Slot(table: Table, b: nat, t: nat)

  datatype Cell = Cell(isNull: bool, isBasic: bool, length: int, addNode: Node, basicValue: int, parent: Slot) {

    function GetL(): int {
      if isNull then SENTINEL else length
    }

    function GetV(): int {
      if isBasic then basicValue
      else if isNull then SENTINEL
      else DBL_COST * addNode.dbl + TPL_COST * addNode.tpl + ADD_COST * (length - 1)
    }

    /** `this.add(dbl, tpl, coef)` for the cell that sits in `slot`. */
    function Add(slot: Slot, dbl: nat, tpl: nat, coef: int): Cell {
      if isNull then this
      else Cell(false, false, length + 1, Node(dbl, tpl, coef != 1), 0, slot)
    }
  }

  /** A border cell after `setNULL`. */
  const NULL_CELL := Cell(true, false, 0, Node(0, 0, false), 0, NoSlot)

  /** `w(0,0) = 0`: the empty chain. */
  const BASE_CELL := Cell(false, true, 0, Node(0, 0, false), 0, NoSlot)

  function MinL(x: Cell, y: Cell, z: Cell): Cell {
    if x.GetL() < y.GetL() then (if x.GetL() < z.GetL() then x else z)
    else if y.GetL() < z.GetL() then y else z
  }

  function MinV2(x: Cell, y: Cell): Cell {
    if x.GetV() < y.GetV() then x else y
  }

  function MinV3(x: Cell, y: Cell, z: Cell): Cell {
    if x.GetV() < y.GetV() then (if x.GetV() < z.GetV() then x else z)
    else if y.GetV() < z.GetV() then y else z
  }

  /** Of the shortest, and of the cheapest, the last one is taken. */
  lemma LastOfTheLeast(x: Cell, y: Cell, z: Cell)
    ensures var m, p, q, r := MinL(x, y, z), x.GetL(), y.GetL(), z.GetL();
      && m.GetL() <= p && m.GetL() <= q && m.GetL() <= r
      && m == (if m.GetL() == r then z else if m.GetL() == q then y else x)
    ensures var m, p, q, r := MinV3(x, y, z), x.GetV(), y.GetV(), z.GetV();
      && m.GetV() <= p && m.GetV() <= q && m.GetV() <= r
      && m == (if m.GetV() == r then z else if m.GetV() == q then y else x)
    ensures var m := MinV2(x, y);
      && m.GetV() <= x.GetV() && m.GetV() <= y.GetV() && m == (if m.GetV() == y.GetV() then y else x)
  {
  }

  /** The digit that selects the case: the base-6 digit of m at 2^b 3^t. */
  function Quot(m: nat, b: nat, t: nat): (q: nat)
    ensures q < 6
  {
    (m / Pow23(b, t)) % 6
  }

  /** Coordinates of a cell, the border at -1 included. */
  predicate InTable(b: int, t: int) {
    b >= -1 && t >= -1
  }

  /** `x.add(b, t, coef)` where x is the content of the slot (table, b, t), border included. */
  function AddAt(x: Cell, table: Table, b: int, t: int, coef: int): Cell
    requires InTable(b, t)
  {
    if b < 0 || t < 0 then x else x.Add(Slot(table, b, t), b, t, coef)
  }

  /** The new `w(b,t)`, from w and w_ at (b-1,t) (halved) and at (b,t-1) (thirded). */
  function NextPlain(q: nat, b: nat, t: nat, half: Cell, half_: Cell, third: Cell, third_: Cell): Cell {
    if q < 2 then MinL(half, third, AddAt(third_, Complement, b, t - 1, 1))
    else if q == 2 then MinL(half, AddAt(half_, Complement, b - 1, t, 1), AddAt(third, Plain, b, t - 1, 1))
    else AddAt(half, Plain, b - 1, t, 1)
  }

  /** The new `w_(b,t)`. */
  function NextComplement(q: nat, b: nat, t: nat, half: Cell, half_: Cell, third: Cell, third_: Cell): Cell {
    if q < 3 then AddAt(half_, Complement, b - 1, t, -1)
    else if q == 3 then
      MinL(AddAt(half, Plain, b - 1, t, -1), half_, AddAt(third_, Complement, b, t - 1, -1))
    else MinL(half_, AddAt(third, Plain, b, t - 1, -1), third_)
  }

  /** The dynamic program as a recursion on the slot, for the digits of m. */
  function Best(m: nat, table: Table, b: int, t: int): Cell
    requires InTable(b, t)
    decreases b + t + 2
  {
    if b == -1 || t == -1 then NULL_CELL
    else if b == 0 && t == 0 then (if table.Plain? then BASE_CELL else NULL_CELL)
    else
      var q := Quot(m, b, t);
      var half, half_ := Best(m, Plain, b - 1, t), Best(m, Complement, b - 1, t);
      var third, third_ := Best(m, Plain, b, t - 1), Best(m, Complement, b, t - 1);
      if table.Plain? then NextPlain(q, b, t, half, half_, third, third_)
      else NextComplement(q, b, t, half, half_, third, third_)
  }

  /** `length` steps along `parent`, as `simDBC` takes them. */
  function Walk(m: nat, x: Cell, steps: nat): Chain
    decreases steps
  {
    if steps == 0 then Empty
    else
      Term(x.addNode, if x.parent.NoSlot? then Empty
                      else Walk(m, Best(m, x.parent.table, x.parent.b, x.parent.t), steps - 1))
  }

  function ChainOf(m: nat, x: Cell): Chain
  {
    if x.length < 0 then Empty else Walk(m, x, x.length)
  }
}
