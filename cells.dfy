/**
 * The two cell classes of the game. A cell has a fixed position and a type
 * tag that the game modes overwrite (fuel cans, sand, walls). Equality and
 * hashing look at the position only, never at the type.
 */
module Cells {
  import opened Grid
  import opened Results

  /** A cell seen through the common cell interface: one of the two implementations. */
  datatype CellRef = RandomRef(random: RandomCell) | PerfectRef(perfect: PerfectCell)
  {
    function Position(): Pos {
      match this
      case RandomRef(c) => Pos(c.row, c.col)
      case PerfectRef(c) => Pos(c.row, c.col)
    }
  }

  /** A cell of a random maze; every type is meaningful, WALL included. */
  class RandomCell {
    const row: int
    const col: int
    var cellType: CellType

    /** A new cell is a path unless a type is given. */
    constructor (row: int, col: int)
      ensures this.row == row && this.col == col && cellType == PATH
    {
      this.row, this.col := row, col;
      cellType := PATH;
    }

    constructor OfType(row: int, col: int, cellType: CellType)
      ensures this.row == row && this.col == col && this.cellType == cellType
    {
      this.row, this.col := row, col;
      this.cellType := cellType;
    }

    predicate IsWall() reads this { cellType == WALL }
    predicate IsFuel() reads this { cellType == FUEL }
    predicate IsSand() reads this { cellType == SAND }
    predicate IsPath() reads this { cellType == PATH }

    /** The setters change the type only: afterwards exactly the matching query holds. */
    method SetWall()
      modifies this
      ensures IsWall() && !IsPath() && !IsFuel() && !IsSand()
    {
      cellType := WALL;
    }

    method SetPath()
      modifies this
      ensures IsPath() && !IsWall() && !IsFuel() && !IsSand()
    {
      cellType := PATH;
    }

    method SetFuel()
      modifies this
      ensures IsFuel() && !IsWall() && !IsPath() && !IsSand()
    {
      cellType := FUEL;
    }

    method SetSand()
      modifies this
      ensures IsSand() && !IsWall() && !IsPath() && !IsFuel()
    {
      cellType := SAND;
    }

    /** Equality with another object (None is null): same class and same position, whatever the types. */
    function Equals(other: Option<CellRef>): (r: bool)
      ensures r ==> other.Some? && other.value.Position() == Pos(row, col)
      ensures r <==> other.Some? && other.value.RandomRef? && other.value.Position() == Pos(row, col)
    {
      match other
      case Some(RandomRef(c)) => c == this || (col == c.col && row == c.row)
      case _ => false
    }

    function HashCode(): int {
      31 * col + row
    }
  }

  /** A cell of a perfect maze; walls live between cells, so a cell always counts as a path. */
  class PerfectCell {
    const row: int
    const col: int
    var cellType: CellType

    constructor (row: int, col: int)
      ensures this.row == row && this.col == col && cellType == PATH
    {
      this.row, this.col := row, col;
      cellType := PATH;
    }

    constructor OfType(row: int, col: int, cellType: CellType)
      ensures this.row == row && this.col == col && this.cellType == cellType
    {
      this.row, this.col := row, col;
      this.cellType := cellType;
    }

    predicate IsWall() reads this { cellType == WALL }
    predicate IsFuel() reads this { cellType == FUEL }
    predicate IsSand() reads this { cellType == SAND }

    /** Whatever the type tag says, a perfect cell is walkable. */
    function IsPath(): (r: bool)
      ensures r
    {
      true
    }

    method SetFuel()
      modifies this
      ensures IsFuel() && !IsWall() && !IsSand() && IsPath()
    {
      cellType := FUEL;
    }

    method SetPath()
      modifies this
      ensures cellType == PATH && !IsWall() && !IsFuel() && !IsSand()
    {
      cellType := PATH;
    }

    method SetSand()
      modifies this
      ensures IsSand() && !IsWall() && !IsFuel() && IsPath()
    {
      cellType := SAND;
    }

    function Equals(other: Option<CellRef>): (r: bool)
      ensures r <==> other.Some? && other.value.PerfectRef? && other.value.Position() == Pos(row, col)
    {
      match other
      case Some(PerfectRef(c)) => c == this || (row == c.row && col == c.col)
      case _ => false
    }

    function HashCode(): int {
      31 * row + col
    }
  }

  /** Equal random cells hash alike, and equality does not depend on the type tags. */
  lemma RandomEqualsConsistent(a: RandomCell, b: RandomCell)
    ensures a.Equals(Some(RandomRef(b))) <==> a.row == b.row && a.col == b.col
    ensures a.Equals(Some(RandomRef(b))) ==> a.HashCode() == b.HashCode()
    ensures a.Equals(Some(RandomRef(b))) == b.Equals(Some(RandomRef(a)))
    ensures !a.Equals(None)
  {
  }

  /** Equal perfect cells hash alike; a perfect cell never equals a random cell at the same place. */
  lemma PerfectEqualsConsistent(a: PerfectCell, b: PerfectCell, c: RandomCell)
    ensures a.Equals(Some(PerfectRef(b))) <==> a.row == b.row && a.col == b.col
    ensures a.Equals(Some(PerfectRef(b))) ==> a.HashCode() == b.HashCode()
    ensures a.Equals(Some(PerfectRef(b))) == b.Equals(Some(PerfectRef(a)))
    ensures !a.Equals(Some(RandomRef(c))) && !c.Equals(Some(PerfectRef(a)))
  {
  }
}
