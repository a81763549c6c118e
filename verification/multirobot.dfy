/**
 Several robots exploring one shared house (`multirobot/main.py`).

 The house is a grid of characters: `#` is a wall, ` ` is free floor and
 `R` marks a cell a robot stands on. Every robot thread performs its whole
 `move` while holding the one permit of a shared semaphore, so each robot
 step is atomic and a run of the system is a sequence of whole steps by
 robots chosen in any order. `World` is the house with the robots, `Step`
 is one robot's atomic step and `Run` performs a schedule of steps.
 */
module MultiRobot {
  import opened Grid
  import opened Explore

  const FREE: char := ' '
  const ROBOT: char := 'R'

  type House = seq<seq<char>>

  /** The two `ValueError`s `House.move` raises. */
  datatype MoveError = NotMoving | RobotAtDestination

  datatype Result<T> = Ok(value: T) | Err(error: MoveError)

  function RobotMark(c: char): nat
  {
    if c == ROBOT then 1 else 0
  }

  /** The number of `R` cells in the house. */
  function RobotCount(g: House): nat
  {
    Sum(g, RobotMark)
  }

  /** `House.addRobot(i, j)`: mark row `i`, column `j` as a robot's cell.
      Nothing is checked; a wall or a robot cell is overwritten alike. */
  function AddRobot(g: House, i: int, j: int): (g': House)
    requires CellExists(g, Pos(j, i))
    ensures SameShape(g, g')
    ensures forall q :: CellExists(g', q) <==> CellExists(g, q)
    ensures g'[i][j] == ROBOT
    ensures forall q :: CellExists(g, q) && q != Pos(j, i) ==> Get(g', q) == Get(g, q)
    ensures RobotCount(g') == RobotCount(g) + 1 - RobotMark(g[i][j])
  {
    SumUpdate(g, Pos(j, i), ROBOT, RobotMark);
    Update(g, Pos(j, i), ROBOT)
  }

  /** `House.move(i, j, i2, j2)`: move a robot from row `i`, column `j` to
      row `i2`, column `j2`. It refuses to stay in place and refuses an `R`
      destination, but it does not look for walls: a `#` destination is
      overwritten. */
  function HouseMove(g: House, i: int, j: int, i2: int, j2: int): (r: Result<House>)
    requires CellExists(g, Pos(j, i)) && CellExists(g, Pos(j2, i2))
    ensures r == Err(NotMoving) <==> i == i2 && j == j2
    ensures r == Err(RobotAtDestination) <==> (i != i2 || j != j2) && g[i2][j2] == ROBOT
    ensures r.Ok? <==> (i != i2 || j != j2) && g[i2][j2] != ROBOT
    ensures r.Ok? ==> SameShape(g, r.value) && r.value[i2][j2] == ROBOT && r.value[i][j] == FREE
    ensures r.Ok? ==> forall q :: CellExists(g, q) && q != Pos(j, i) && q != Pos(j2, i2) ==>
      Get(r.value, q) == Get(g, q)
    ensures r.Ok? ==> RobotCount(r.value) == RobotCount(g) + 1 - RobotMark(g[i][j])
  {
    if i == i2 && j == j2 then Err(NotMoving)
    else if g[i2][j2] == ROBOT then Err(RobotAtDestination)
    else
      var g1 := AddRobot(g, i2, j2);
      SumUpdate(g1, Pos(j, i), FREE, RobotMark);
      Ok(Update(g1, Pos(j, i), FREE))
  }

  /** A neighbour a robot may step to: inside the bounds read off the first
      row, neither a wall nor another robot. */
  predicate Open(g: House, q: Pos)
    requires Rectangular(g)
  {
    WithinHW(g, q) && g[q.y][q.x] != WALL && g[q.y][q.x] != ROBOT
  }

  /** The neighbours of `here` that pass the robot's three filters. */
  function Admissible(g: House, here: Pos): (keep: set<Pos>)
    requires Rectangular(g)
    ensures forall q :: q in keep <==> Adjacent(here, q) && Open(g, q)
    ensures forall q :: q in keep ==> CellExists(g, q)
  {
    set q | q in Neighbours(here) && Open(g, q)
  }

  /** `Robot.move`: count one more visit here, gather the open neighbours
      (west, east, north, south) with their counts, sort them by count and
      move to the head of that list; with no open neighbour, stay. The
      house move inside it can never fail: the destination was just checked
      not to be a robot, and holding the permit nobody can change the house
      between the check and the move. */
  function RobotMove(g: House, rb: Robot): (res: Result<(House, Robot)>)
    requires Rectangular(g) && Fits(g, rb)
    ensures res.Ok?
    ensures SameShape(g, res.value.0) && Fits(res.value.0, res.value.1)
    ensures var v, v' := rb.visited, res.value.1.visited;
      && v'[rb.y][rb.x] == v[rb.y][rb.x] + 1
      && (forall q :: CellExists(v, q) && q != rb.At() ==> Get(v', q) == Get(v, q))
      && Total(v') == Total(v) + 1
    ensures Admissible(g, rb.At()) == {} ==> res.value.0 == g && res.value.1.At() == rb.At()
    ensures Admissible(g, rb.At()) != {} ==>
      var (g', rb') := res.value;
      && LeastVisitedFirst(Neighbours(rb.At()), Admissible(g, rb.At()), rb'.visited, rb'.At())
      && Adjacent(rb.At(), rb'.At())
      && Get(g', rb'.At()) == ROBOT && Get(g', rb.At()) == FREE
      && (forall q :: CellExists(g, q) && q != rb.At() && q != rb'.At() ==> Get(g', q) == Get(g, q))
      && RobotCount(g') == RobotCount(g) + 1 - RobotMark(Get(g, rb.At()))
  {
    var here := rb.At();
    var visited := Bump(rb.visited, here);
    var keep := Admissible(g, here);
    FitsCounts(g, visited, keep);
    match Choose(Neighbours(here), keep, visited)
    case None => Ok((g, Robot(rb.x, rb.y, visited)))
    case Some(t) =>
      match HouseMove(g, rb.y, rb.x, t.y, t.x)
      case Ok(g') => Ok((g', Robot(t.x, t.y, visited)))
      case Err(e) => Err(e)
  }

  /** The house and the robots in it. */
  datatype World = World(house: House, robots: seq<Robot>)

  predicate WellFormed(w: World)
  {
    Rectangular(w.house) && forall i :: 0 <= i < |w.robots| ==> Fits(w.house, w.robots[i])
  }

  function Positions(robots: seq<Robot>): (ps: seq<Pos>)
    ensures |ps| == |robots|
    ensures forall i :: 0 <= i < |robots| ==> ps[i] == robots[i].At()
  {
    seq(|robots|, i requires 0 <= i < |robots| => robots[i].At())
  }

  /** Occupancy: the robots stand on pairwise distinct cells, those cells
      are exactly the `R` cells of the house, and so the house holds as many
      `R` cells as there are robots. */
  ghost predicate Occupied(g: House, ps: seq<Pos>)
  {
    && Distinct(ps)
    && (forall k :: 0 <= k < |ps| ==> CellExists(g, ps[k]) && Get(g, ps[k]) == ROBOT)
    && (forall p :: CellExists(g, p) && Get(g, p) == ROBOT ==> p in ps)
    && RobotCount(g) == |ps|
  }

  ghost predicate Occupancy(w: World)
  {
    Occupied(w.house, Positions(w.robots))
  }

  /** One atomic step of robot `i`; the other robots are untouched. */
  function Step(w: World, i: int): (w': World)
    requires WellFormed(w) && 0 <= i < |w.robots|
    ensures WellFormed(w') && SameShape(w.house, w'.house)
    ensures |w'.robots| == |w.robots|
    ensures forall k :: 0 <= k < |w.robots| && k != i ==> w'.robots[k] == w.robots[k]
    ensures Total(w'.robots[i].visited) == Total(w.robots[i].visited) + 1
  {
    var (g', rb') := RobotMove(w.house, w.robots[i]).value;
    var robots' := w.robots[i := rb'];
    assert Rectangular(g') by {
      assert |g'[0]| == |w.house[0]|;
    }
    forall k | 0 <= k < |robots'|
      ensures Fits(g', robots'[k])
    {
      if k != i {
        assert robots'[k] == w.robots[k] && Fits(w.house, w.robots[k]);
        SameShapeCells(w.house, g');
      }
    }
    World(g', robots')
  }

  /** The steps of `schedule`, in order: any interleaving of atomic robot steps. */
  function Run(w: World, schedule: seq<int>): (w': World)
    requires WellFormed(w)
    requires forall k :: 0 <= k < |schedule| ==> 0 <= schedule[k] < |w.robots|
    ensures WellFormed(w') && SameShape(w.house, w'.house)
    ensures |w'.robots| == |w.robots|
    decreases |schedule|
  {
    if schedule == [] then w else Run(Step(w, schedule[0]), schedule[1..])
  }

  /** A robot moving off its `R` cell onto a cell that is no robot's keeps
      occupancy, with the moved robot's position replaced. */
  lemma MoveKeepsOccupied(g: House, g': House, ps: seq<Pos>, i: int, t: Pos)
    requires Occupied(g, ps) && 0 <= i < |ps|
    requires CellExists(g, t) && Get(g, t) != ROBOT
    requires SameShape(g, g')
    requires Get(g', t) == ROBOT && Get(g', ps[i]) == FREE
    requires forall q :: CellExists(g, q) && q != ps[i] && q != t ==> Get(g', q) == Get(g, q)
    requires RobotCount(g') == RobotCount(g) + 1 - RobotMark(Get(g, ps[i]))
    ensures Occupied(g', ps[i := t])
  {
    SameShapeCells(g, g');
    var ps' := ps[i := t];
    assert t !in ps;
    forall p | CellExists(g', p) && Get(g', p) == ROBOT
      ensures p in ps'
    {
      if p == t {
        assert ps'[i] == t;
      } else {
        assert p != ps[i];
        var k :| 0 <= k < |ps| && ps[k] == p;
        assert ps'[k] == p;
      }
    }
  }

  /** Every atomic step keeps occupancy. */
  lemma StepKeepsOccupancy(w: World, i: int)
    requires WellFormed(w) && 0 <= i < |w.robots|
    requires Occupancy(w)
    ensures Occupancy(Step(w, i))
  {
    var rb := w.robots[i];
    var w' := Step(w, i);
    var ps := Positions(w.robots);
    var t := w'.robots[i].At();
    assert Positions(w'.robots) == ps[i := t];
    if Admissible(w.house, rb.At()) != {} {
      MoveKeepsOccupied(w.house, w'.house, ps, i, t);
    } else {
      assert ps[i := t] == ps;
    }
  }

  /** Occupancy holds after any schedule of atomic steps. */
  lemma {:induction false} RunKeepsOccupancy(w: World, schedule: seq<int>)
    requires WellFormed(w)
    requires forall k :: 0 <= k < |schedule| ==> 0 <= schedule[k] < |w.robots|
    requires Occupancy(w)
    ensures Occupancy(Run(w, schedule))
    decreases |schedule|
  {
    if schedule != [] {
      StepKeepsOccupancy(w, schedule[0]);
      RunKeepsOccupancy(Step(w, schedule[0]), schedule[1..]);
    }
  }

  /** `House.addRobot` at every start, in order. */
  function Place(g: House, starts: seq<Pos>): (g': House)
    requires forall k :: 0 <= k < |starts| ==> CellExists(g, starts[k])
    ensures SameShape(g, g')
    ensures forall q :: CellExists(g', q) <==> CellExists(g, q)
    ensures forall k :: 0 <= k < |starts| ==> Get(g', starts[k]) == ROBOT
    ensures forall q :: CellExists(g, q) && q !in starts ==> Get(g', q) == Get(g, q)
    decreases |starts|
  {
    if starts == [] then g
    else
      var last := starts[|starts| - 1];
      var g1 := Place(g, starts[..|starts| - 1]);
      assert forall q :: q in starts[..|starts| - 1] ==> q in starts;
      AddRobot(g1, last.y, last.x)
  }

  /** The simulation's set-up: one robot per start, each with a zero visit
      matrix of the house's dimensions, and an `R` at every start. */
  function Init(g: House, starts: seq<Pos>): (w: World)
    requires Rectangular(g)
    requires forall k :: 0 <= k < |starts| ==> CellExists(g, starts[k])
    ensures WellFormed(w)
    ensures Positions(w.robots) == starts
    ensures forall k :: 0 <= k < |starts| ==> Total(w.robots[k].visited) == 0
  {
    var (h, wd) := HW(g);
    World(Place(g, starts), seq(|starts|, k requires 0 <= k < |starts| => NewRobot(starts[k].x, starts[k].y, h, wd)))
  }

  /** Placing robots on distinct cells of a house without `R` cells makes
      the starts exactly the `R` cells. */
  lemma {:induction false} PlaceOccupies(g: House, starts: seq<Pos>)
    requires forall k :: 0 <= k < |starts| ==> CellExists(g, starts[k])
    requires forall p :: CellExists(g, p) ==> Get(g, p) != ROBOT
    requires Distinct(starts)
    ensures Occupied(Place(g, starts), starts)
    decreases |starts|
  {
    if starts == [] {
      SumOfZeros(g, RobotMark);
    } else {
      var init := starts[..|starts| - 1];
      var last := starts[|starts| - 1];
      PlaceOccupies(g, init);
      var g1 := Place(g, init);
      assert last !in init;
      assert starts == init + [last];
      var g' := Place(g, starts);
      forall p | CellExists(g', p) && Get(g', p) == ROBOT
        ensures p in starts
      {
        if p != last {
          assert p in init;
        }
      }
    }
  }

  /** Set-up establishes occupancy when the house has no `R` cells yet and
      the starts are distinct. */
  lemma InitEstablishesOccupancy(g: House, starts: seq<Pos>)
    requires Rectangular(g)
    requires forall k :: 0 <= k < |starts| ==> CellExists(g, starts[k])
    requires forall p :: CellExists(g, p) ==> Get(g, p) != ROBOT
    requires Distinct(starts)
    ensures Occupancy(Init(g, starts))
  {
    PlaceOccupies(g, starts);
  }
}
