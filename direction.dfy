/**
 * The four moves of the player, keyed as on an AZERTY keyboard: Z up,
 * Q left, S down, D right. A direction is a unit step (dx, dy) where x is
 * the column and y the row.
 */
module Directions {
  import opened Grid
  import opened Results
  import opened Cells

  datatype Direction = Z | Q | S | D

  function Name(d: Direction): string {
    match d
    case Z => "top"
    case Q => "left"
    case S => "bottom"
    case D => "right"
  }

  function Dx(d: Direction): int {
    match d
    case Z => 0
    case Q => -1
    case S => 0
    case D => 1
  }

  function Dy(d: Direction): int {
    match d
    case Z => -1
    case Q => 0
    case S => 1
    case D => 0
  }

  /** The position one step away in direction `d`: row + dy, col + dx. */
  function Step(d: Direction, p: Pos): (q: Pos)
    ensures Adjacent(p, q)
    ensures q.row - p.row == Dy(d) && q.col - p.col == Dx(d)
  {
    Pos(p.row + Dy(d), p.col + Dx(d))
  }

  /** The declaration order of the constants. */
  function AllDirections(): (r: seq<Direction>)
    ensures r == [Z, Q, S, D]
    ensures |r| == 4 && forall d :: d in r
    ensures forall i, j | 0 <= i < j < |r| :: r[i] != r[j]
  {
    var r := [Z, Q, S, D];
    assert forall d :: d in r by {
      forall d ensures d in r {
        assert d == r[0] || d == r[1] || d == r[2] || d == r[3];
      }
    }
    r
  }

  /** The four directions lead to four different neighbours, and each neighbour is reached by one of them. */
  lemma StepsAreTheNeighbours(p: Pos, q: Pos)
    ensures Adjacent(p, q) <==> exists d :: Step(d, p) == q
    ensures forall d, e | Step(d, p) == Step(e, p) :: d == e
  {
    if Adjacent(p, q) {
      var d := if q.row < p.row then Z else if q.row > p.row then S else if q.col < p.col then Q else D;
      assert Step(d, p) == q;
    }
  }

  /**
   * A new cell of the same class one step away. A random cell keeps its
   * type, a perfect cell comes back as a path, and anything else (here:
   * null) is refused.
   */
  method NextCell(d: Direction, cell: Option<CellRef>) returns (r: Result<CellRef>)
    ensures r.Err? <==> cell.None?
    ensures r.Ok? ==> r.value.Position() == Step(d, cell.value.Position())
    ensures r.Ok? && cell.value.RandomRef? ==>
      r.value.RandomRef? && fresh(r.value.random) && r.value.random.cellType == cell.value.random.cellType
    ensures r.Ok? && cell.value.PerfectRef? ==>
      r.value.PerfectRef? && fresh(r.value.perfect) && r.value.perfect.cellType == PATH
  {
    if cell.None? {
      r := Err("type de cellule inconnu");
    } else if cell.value.RandomRef? {
      var rc := cell.value.random;
      var c := new RandomCell.OfType(rc.row + Dy(d), rc.col + Dx(d), rc.cellType);
      r := Ok(RandomRef(c));
    } else {
      var pc := cell.value.perfect;
      var c := new PerfectCell(pc.row + Dy(d), pc.col + Dx(d));
      r := Ok(PerfectRef(c));
    }
  }
}
