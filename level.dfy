/**
 * A level (étape) of the progression mode: a number, the kind of maze its
 * challenges are played on, and its challenges in order.
 */
module Levels {
  import opened Grid
  import opened Results
  import opened Challenges

  class Level {
    /** The list is never replaced; the challenges in it are shared and their flags change. */
    const challenges: seq<Challenge>
    const number: int
    const mazeType: MazeType

    constructor (number: int, mazeType: MazeType, challenges: seq<Challenge>)
      ensures this.number == number && this.mazeType == mazeType && this.challenges == challenges
    {
      this.number := number;
      this.mazeType := mazeType;
      this.challenges := challenges;
    }

    /** The challenge at `index`; an index outside the list is refused. */
    function GetChallenge(index: int): (r: Result<Challenge>)
      ensures r.Err? <==> index < 0 || index >= |challenges|
      ensures r.Err? ==> r.message == "Index challenge out of bounds"
      ensures r.Ok? ==> r.value == challenges[index]
    {
      if index < 0 || index >= |challenges| then Err("Index challenge out of bounds")
      else Ok(challenges[index])
    }
  }
}
