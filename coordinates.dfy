/** MazeState: a (column, row) position in the maze; column 0, row 0 is the upper-left corner. */
module Coordinates {

  /** The value a MazeState holds. Sets and maps of states compare by this value. */
  datatype Pos = Pos(col: int, row: int) {
    /** Translation by an offset. */
    function Plus(o: Pos): Pos {
      Pos(col + o.col, row + o.row)
    }
  }

  /** Java's `int` arithmetic: the representative of x modulo 2^32 in [-2^31, 2^31). */
  function ToInt32(x: int): (r: int)
    ensures -0x8000_0000 <= r < 0x8000_0000
    ensures (x - r) % 0x1_0000_0000 == 0
  {
    (x + 0x8000_0000) % 0x1_0000_0000 - 0x8000_0000
  }

  /** The mutable MazeState object. */
  class MazeState {
    var col: int
    var row: int

    constructor (col: int, row: int)
      ensures this.col == col && this.row == row
    {
      this.col := col;
      this.row := row;
    }

    function Value(): Pos
      reads this
    {
      Pos(col, row)
    }

    /** Adds the coordinates of other to this state's, in place. */
    method Add(other: MazeState)
      modifies this
      ensures col == old(col) + old(other.col) && row == old(row) + old(other.row)
      ensures Value() == old(Value()).Plus(old(other.Value()))
      ensures other != this ==> other.Value() == old(other.Value())
    {
      col := col + other.col;
      row := row + other.row;
    }

    /** Value equality; the identity shortcut of the source agrees with it. */
    predicate Equals(other: MazeState?)
      reads this, other
      ensures Equals(other) <==> other != null && Value() == other.Value()
    {
      this == other || (other != null && row == other.row && col == other.col)
    }

    /** `Objects.hash(col, row)`, which is `31 * (31 * 1 + col) + row` in 32-bit arithmetic. */
    function HashCode(): (h: int)
      reads this
      ensures -0x8000_0000 <= h < 0x8000_0000
    {
      ToInt32(31 * (31 + col) + row)
    }

    /** A fresh object holding the same coordinates. */
    method Clone() returns (c: MazeState)
      ensures fresh(c) && c.Value() == Value()
      ensures Equals(c) && c.Equals(this)
    {
      c := new MazeState(col, row);
    }
  }

  lemma EqualsReflexive(a: MazeState)
    ensures a.Equals(a)
  {
  }

  lemma EqualsSymmetric(a: MazeState, b: MazeState)
    ensures a.Equals(b) <==> b.Equals(a)
  {
  }

  /** hashCode is consistent with equals. */
  lemma EqualStatesHashEqually(a: MazeState, b: MazeState)
    requires a.Equals(b)
    ensures a.HashCode() == b.HashCode()
  {
  }
}
