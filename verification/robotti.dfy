/**
 A single robot exploring a house (`robotti/main.py`).

 Here the house is never written to: the robot only reads the grid, and
 only walls (`#`) stop it; every other character, free floor or not, can
 be stepped on. The grid's rows are read with their line endings, so those
 characters are cells like any other.
 */
module SingleRobot {
  import opened Grid
  import opened Explore

  /** Inside the bounds read off the first row and not a wall. */
  predicate Passable(g: seq<seq<char>>, q: Pos)
    requires Rectangular(g)
  {
    WithinHW(g, q) && g[q.y][q.x] != WALL
  }

  /** The neighbours kept by the robot's filters: not its own position, in
      bounds, not a wall. The first filter never removes anything, since no
      neighbour is the robot's own position. */
  function Admissible(g: seq<seq<char>>, here: Pos): (keep: set<Pos>)
    requires Rectangular(g)
    ensures forall q :: q in keep <==> Adjacent(here, q) && Passable(g, q)
    ensures forall q :: q in keep ==> CellExists(g, q)
  {
    set q | q in Neighbours(here) && q != here && Passable(g, q)
  }

  /** Some neighbour survives the filters, so `moves[0]` exists. */
  predicate CanMove(g: seq<seq<char>>, here: Pos)
    requires Rectangular(g)
  {
    Admissible(g, here) != {}
  }

  /** A robot that stepped off a non-wall cell can always step back. */
  lemma WayBack(g: seq<seq<char>>, here: Pos, t: Pos)
    requires Rectangular(g) && CellExists(g, here)
    requires Adjacent(here, t)
    ensures Get(g, here) != WALL ==> here in Admissible(g, t)
  {
    assert Adjacent(t, here);
  }

  /** `Robot.move(grid)`: count one more visit here, then go to the least
      visited passable neighbour, ties going to the earliest of west, east,
      north, south. The grid is an input only. */
  function RobotMove(g: seq<seq<char>>, rb: Robot): (rb': Robot)
    requires Rectangular(g) && Fits(g, rb)
    requires CanMove(g, rb.At())
    ensures Fits(g, rb')
    ensures var v, v' := rb.visited, rb'.visited;
      && v'[rb.y][rb.x] == v[rb.y][rb.x] + 1
      && (forall q :: CellExists(v, q) && q != rb.At() ==> Get(v', q) == Get(v, q))
      && Total(v') == Total(v) + 1
    ensures LeastVisitedFirst(Neighbours(rb.At()), Admissible(g, rb.At()), rb'.visited, rb'.At())
    ensures Adjacent(rb.At(), rb'.At()) && CellExists(g, rb'.At()) && Get(g, rb'.At()) != WALL
    ensures Get(g, rb.At()) != WALL ==> CanMove(g, rb'.At())
  {
    var here := rb.At();
    var visited := Bump(rb.visited, here);
    var keep := Admissible(g, here);
    FitsCounts(g, visited, keep);
    var t := Choose(Neighbours(here), keep, visited).value;
    assert t in keep;
    WayBack(g, here, t);
    Robot(t.x, t.y, visited)
  }

  /** `n` frames of the simulation loop, each calling `Robot.move` once.
      Starting off a wall with a way out, the robot always has a way out
      again, and it records exactly one visit per frame. */
  function Walk(g: seq<seq<char>>, rb: Robot, n: nat): (rb': Robot)
    requires Rectangular(g) && Fits(g, rb)
    requires Get(g, rb.At()) != WALL && CanMove(g, rb.At())
    ensures Fits(g, rb') && Get(g, rb'.At()) != WALL && CanMove(g, rb'.At())
    ensures Total(rb'.visited) == Total(rb.visited) + n
    decreases n
  {
    if n == 0 then rb else Walk(g, RobotMove(g, rb), n - 1)
  }
}
