/** One square of the minefield (Location.java): its display type, whether it
    hides a mine, and its hint. The setters perform no validation; keeping the
    fields consistent is the grid's job. */
module Locations {

  /** The three mutually exclusive display states of a location. Being a
      datatype, a location's type is always exactly one of them. */
  datatype Type = Covered | Uncovered | Flagged

  /** The value held by a location. The grid keeps one of these per square. */
  datatype Cell = Cell(kind: Type, mine: bool, hint: int)

  /** A new or reset location: covered, without a mine, hint 0. */
  const Default: Cell := Cell(Covered, false, 0)

  class Location {
    var kind: Type
    var mine: bool
    var hint: int

    /** The three fields of this location as one value. */
    function Value(): Cell
      reads this
    {
      Cell(kind, mine, hint)
    }

    constructor ()
      ensures Value() == Default
    {
      kind := Covered;
      mine := false;
      hint := 0;
    }

    /** Restores the defaults, whatever the previous state. */
    method Reset()
      modifies this
      ensures Value() == Default
    {
      kind := Covered;
      mine := false;
      hint := 0;
    }

    method GetType() returns (t: Type)
      ensures t == kind
    {
      t := kind;
    }

    method SetType(t: Type)
      modifies this
      ensures Value() == old(Value()).(kind := t)
    {
      kind := t;
    }

    method HasMine() returns (m: bool)
      ensures m == mine
    {
      m := mine;
    }

    method SetMine(m: bool)
      modifies this
      ensures Value() == old(Value()).(mine := m)
    {
      mine := m;
    }

    method GetHint() returns (h: int)
      ensures h == hint
    {
      h := hint;
    }

    /** Stores any integer: there is no clamping to [0, 8]. */
    method SetHint(h: int)
      modifies this
      ensures Value() == old(Value()).(hint := h)
    {
      hint := h;
    }
  }
}
