/**
 Small worked runs of the multi-robot system.
 */
module Scenarios {
  import opened Grid
  import opened Explore
  import MultiRobot

  /** A one-row corridor of four free cells. */
  const Corridor: seq<seq<char>> := [[' ', ' ', ' ', ' ']]

  /** A single free cell surrounded by walls. */
  const Box: seq<seq<char>> := [['#', '#', '#'], ['#', ' ', '#'], ['#', '#', '#']]

  /** The corridor with its one robot at column `x`, having counted `v`. */
  function CorridorAt(x: nat, v: seq<nat>): MultiRobot.World
    requires x < 4
  {
    MultiRobot.World([[' ', ' ', ' ', ' '][x := 'R']], [Robot(x, 0, [v])])
  }

  lemma CorridorStart()
    ensures MultiRobot.Init(Corridor, [Pos(0, 0)]) == CorridorAt(0, [0, 0, 0, 0])
  {
    var w0 := MultiRobot.Init(Corridor, [Pos(0, 0)]);
    assert [Pos(0, 0)][..0] == [];
    assert w0.house == MultiRobot.AddRobot(Corridor, 0, 0) == Update(Corridor, Pos(0, 0), 'R');
    assert w0.house[0] == ['R', ' ', ' ', ' '];
    assert ZeroCounts(1, 4)[0] == [0, 0, 0, 0];
    assert ZeroCounts(1, 4) == [[0, 0, 0, 0]];
    assert w0.robots[0] == NewRobot(0, 0, 1, 4) == Robot(0, 0, [[0, 0, 0, 0]]);
    assert w0.robots == [Robot(0, 0, [[0, 0, 0, 0]])];
  }

  /** From column `x` of the corridor a robot may step west, if there is
      a west, or east. */
  lemma CorridorNeighbours(x: nat, v: seq<nat>)
    requires x < 3
    ensures var keep := MultiRobot.Admissible(CorridorAt(x, v).house, Pos(x, 0));
      && Pos(x + 1, 0) in keep
      && forall q :: q in keep ==> q == Pos(x + 1, 0) || (x > 0 && q == Pos(x - 1, 0))
  {
    var g := CorridorAt(x, v).house;
    assert g[0][x + 1] == ' ';
    assert MultiRobot.Open(g, Pos(x + 1, 0));
    assert Adjacent(Pos(x, 0), Pos(x + 1, 0));
  }

  /** In the corridor a robot moves east when the cell to its west, if
      any, has been counted more often than the cell to its east. */
  lemma CorridorTargetEast(x: nat, v: seq<nat>)
    requires x < 3 && |v| == 4
    requires x == 0 || v[x - 1] > v[x + 1]
    ensures var w := CorridorAt(x, v);
      MultiRobot.RobotMove(w.house, w.robots[0]).value.1.At() == Pos(x + 1, 0)
  {
    var w := CorridorAt(x, v);
    var rb := w.robots[0];
    var east := Pos(x + 1, 0);
    CorridorNeighbours(x, v);
    var rb' := MultiRobot.RobotMove(w.house, rb).value.1;
    assert CellExists(rb.visited, east);
    if x > 0 {
      var west := Pos(x - 1, 0);
      assert CellExists(rb.visited, west);
      assert Get(rb'.visited, west) == v[x - 1] > v[x + 1] == Get(rb'.visited, east);
    }
  }

  /** The corridor after its robot moved from column `x` to `x + 1`. */
  lemma CorridorHouseAfter(g: seq<seq<char>>, g': seq<seq<char>>, x: nat)
    requires x < 3
    requires g == [[' ', ' ', ' ', ' '][x := 'R']]
    requires SameShape(g, g')
    requires Get(g', Pos(x + 1, 0)) == 'R' && Get(g', Pos(x, 0)) == ' '
    requires forall q :: CellExists(g, q) && q != Pos(x, 0) && q != Pos(x + 1, 0) ==> Get(g', q) == Get(g, q)
    ensures g' == [[' ', ' ', ' ', ' '][x + 1 := 'R']]
  {
    forall k | 0 <= k < 4
      ensures g'[0][k] == [' ', ' ', ' ', ' '][x + 1 := 'R'][k]
    {
      assert CellExists(g, Pos(k, 0));
      assert Get(g', Pos(k, 0)) == g'[0][k];
    }
    assert |g'| == 1 && |g'[0]| == |g[0]| == 4;
    assert g'[0] == [' ', ' ', ' ', ' '][x + 1 := 'R'];
    assert g' == [g'[0]];
  }

  /** The corridor robot's counts after one more visit at column `x`. */
  lemma CorridorCountsAfter(v: seq<nat>, c': Counts, x: nat)
    requires x < 4 && |v| == 4
    requires SameShape([v], c')
    requires c'[0][x] == v[x] + 1
    requires forall q :: CellExists([v], q) && q != Pos(x, 0) ==> Get(c', q) == Get([v], q)
    ensures c' == [v[x := v[x] + 1]]
  {
    forall k | 0 <= k < 4
      ensures c'[0][k] == v[x := v[x] + 1][k]
    {
      assert CellExists([v], Pos(k, 0));
    }
    assert |c'| == 1 && |c'[0]| == 4;
    assert c'[0] == v[x := v[x] + 1];
    assert c' == [c'[0]];
  }

  lemma CorridorMoveEast(x: nat, v: seq<nat>)
    requires x < 3 && |v| == 4
    requires x == 0 || v[x - 1] > v[x + 1]
    ensures var w := CorridorAt(x, v);
      && MultiRobot.RobotMove(w.house, w.robots[0]).value.0 == CorridorAt(x + 1, v).house
      && MultiRobot.RobotMove(w.house, w.robots[0]).value.1 == Robot(x + 1, 0, [v[x := v[x] + 1]])
  {
    CorridorRobotEast(x, v);
    CorridorHouseEast(x, v);
  }

  lemma CorridorRobotEast(x: nat, v: seq<nat>)
    requires x < 3 && |v| == 4
    requires x == 0 || v[x - 1] > v[x + 1]
    ensures var w := CorridorAt(x, v);
      MultiRobot.RobotMove(w.house, w.robots[0]).value.1 == Robot(x + 1, 0, [v[x := v[x] + 1]])
  {
    var w := CorridorAt(x, v);
    var rb' := MultiRobot.RobotMove(w.house, w.robots[0]).value.1;
    assert rb'.At() == Pos(x + 1, 0) by {
      CorridorTargetEast(x, v);
    }
    assert rb'.visited == [v[x := v[x] + 1]] by {
      var c' := rb'.visited;
      assert w.robots[0].visited == [v];
      assert SameShape([v], c') && c'[0][x] == v[x] + 1;
      assert forall q :: CellExists([v], q) && q != Pos(x, 0) ==> Get(c', q) == Get([v], q);
      CorridorCountsAfter(v, c', x);
    }
  }

  lemma CorridorHouseEast(x: nat, v: seq<nat>)
    requires x < 3 && |v| == 4
    requires x == 0 || v[x - 1] > v[x + 1]
    ensures var w := CorridorAt(x, v);
      MultiRobot.RobotMove(w.house, w.robots[0]).value.0 == CorridorAt(x + 1, v).house
  {
    var w := CorridorAt(x, v);
    var (g', rb') := MultiRobot.RobotMove(w.house, w.robots[0]).value;
    assert rb'.At() == Pos(x + 1, 0) by {
      CorridorTargetEast(x, v);
    }
    CorridorNeighbours(x, v);
    CorridorHouseAfter(w.house, g', x);
  }

  lemma CorridorStepEast(w: MultiRobot.World, x: nat, v: seq<nat>, v': seq<nat>)
    requires x < 3 && |v| == 4
    requires x == 0 || v[x - 1] > v[x + 1]
    requires w == CorridorAt(x, v)
    requires |v'| == 4 && v'[x] == v[x] + 1
    requires forall k :: 0 <= k < 4 && k != x ==> v'[k] == v[k]
    ensures MultiRobot.WellFormed(w)
    ensures MultiRobot.Step(w, 0) == CorridorAt(x + 1, v')
  {
    assert MultiRobot.WellFormed(w) by {
      assert Rectangular(w.house) && Fits(w.house, w.robots[0]);
    }
    assert v' == v[x := v[x] + 1];
    assert MultiRobot.Step(w, 0) == MultiRobot.World(
      MultiRobot.RobotMove(w.house, w.robots[0]).value.0,
      [MultiRobot.RobotMove(w.house, w.robots[0]).value.1]);
    CorridorMoveEast(x, v);
  }

  /** A robot starting at the west end of the corridor walks east one cell
      per step: after three steps it stands on the fourth cell, and the
      fourth cell has not been counted yet, since a count is recorded at
      the start of the step made from a cell. */
  lemma CorridorRun()
    ensures MultiRobot.Run(MultiRobot.Init(Corridor, [Pos(0, 0)]), [0, 0, 0]) == CorridorAt(3, [1, 1, 1, 0])
  {
    var w0 := MultiRobot.Init(Corridor, [Pos(0, 0)]);
    CorridorStart();
    CorridorRunFrom(w0);
  }

  lemma CorridorRunFrom(w0: MultiRobot.World)
    requires w0 == CorridorAt(0, [0, 0, 0, 0])
    ensures MultiRobot.WellFormed(w0) && |w0.robots| == 1
    ensures MultiRobot.Run(w0, [0, 0, 0]) == CorridorAt(3, [1, 1, 1, 0])
  {
    CorridorStepEast(w0, 0, [0, 0, 0, 0], [1, 0, 0, 0]);
    CorridorFromSecond(MultiRobot.Step(w0, 0));
    RunThree(w0);
  }

  lemma CorridorFromSecond(w1: MultiRobot.World)
    requires w1 == CorridorAt(1, [1, 0, 0, 0])
    ensures MultiRobot.WellFormed(w1) && |w1.robots| == 1
    ensures MultiRobot.Step(MultiRobot.Step(w1, 0), 0) == CorridorAt(3, [1, 1, 1, 0])
  {
    CorridorStepEast(w1, 1, [1, 0, 0, 0], [1, 1, 0, 0]);
    CorridorFromThird(MultiRobot.Step(w1, 0));
  }

  lemma CorridorFromThird(w2: MultiRobot.World)
    requires w2 == CorridorAt(2, [1, 1, 0, 0])
    ensures MultiRobot.WellFormed(w2) && |w2.robots| == 1
    ensures MultiRobot.Step(w2, 0) == CorridorAt(3, [1, 1, 1, 0])
  {
    CorridorStepEast(w2, 2, [1, 1, 0, 0], [1, 1, 1, 0]);
  }

  lemma RunThree(w: MultiRobot.World)
    requires MultiRobot.WellFormed(w) && |w.robots| > 0
    ensures MultiRobot.Run(w, [0, 0, 0]) ==
      MultiRobot.Step(MultiRobot.Step(MultiRobot.Step(w, 0), 0), 0)
  {
    assert [0, 0, 0][1..] == [0, 0] && [0, 0][1..] == [0] && [0][1..] == [];
  }

  /** A robot boxed in by walls never moves. */
  lemma BoxedRobotStays()
    ensures var w := MultiRobot.Step(MultiRobot.Init(Box, [Pos(1, 1)]), 0);
      && w.robots[0].At() == Pos(1, 1)
      && w.house == [['#', '#', '#'], ['#', 'R', '#'], ['#', '#', '#']]
  {
    var w0 := MultiRobot.Init(Box, [Pos(1, 1)]);
    assert [Pos(1, 1)][..0] == [];
    assert w0.house == MultiRobot.AddRobot(Box, 1, 1) == Update(Box, Pos(1, 1), 'R');
    assert w0.house[1] == ['#', 'R', '#'];
    assert w0.house == [['#', '#', '#'], ['#', 'R', '#'], ['#', '#', '#']];
    assert MultiRobot.Admissible(w0.house, Pos(1, 1)) == {};
  }
}
