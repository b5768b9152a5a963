/**
 * The difficulty grades of a challenge: a French label (also its textual
 * form) and a level number from 1 to 3.
 */
module Difficulties {
  import opened Results

  datatype Difficulty = EASY | MEDIUM | HARD
  {
    /** The label, which is also what the grade prints as. */
    function Label(): string {
      match this
      case EASY => "Facile"
      case MEDIUM => "Moyen"
      case HARD => "Difficile"
    }

    function Level(): int {
      match this
      case EASY => 1
      case MEDIUM => 2
      case HARD => 3
    }
  }

  /** The grades in declaration order, which is the order of their levels. */
  function Values(): (r: seq<Difficulty>)
    ensures |r| == 3 && forall d :: d in r
    ensures forall i | 0 <= i < |r| :: r[i].Level() == i + 1
  {
    var r := [EASY, MEDIUM, HARD];
    assert forall d :: d in r by {
      forall d ensures d in r {
        assert d == r[0] || d == r[1] || d == r[2];
      }
    }
    r
  }

  /** Levels run from 1 to 3, and neither the level nor the label is shared by two grades. */
  lemma GradesDistinct(d: Difficulty, e: Difficulty)
    ensures 1 <= d.Level() <= 3
    ensures d.Level() == e.Level() <==> d == e
    ensures d.Label() == e.Label() <==> d == e
  {
  }

  /**
   * The grade of a level, looked up in declaration order; any other number
   * is refused.
   */
  method FromLevel(level: int) returns (r: Result<Difficulty>)
    ensures r.Err? <==> level < 1 || level > 3
    ensures r.Err? ==> r.message == "Niveau inconnu"
    ensures r.Ok? ==> r.value.Level() == level
    ensures forall d: Difficulty :: d.Level() == level ==> r == Ok(d)
  {
    var values := Values();
    var i := 0;
    while i < |values|
      invariant 0 <= i <= |values|
      invariant forall k | 0 <= k < i :: values[k].Level() != level
    {
      if values[i].Level() == level {
        return Ok(values[i]);
      }
      i := i + 1;
    }
    assert values[0].Level() != level && values[1].Level() != level && values[2].Level() != level;
    return Err("Niveau inconnu");
  }
}
