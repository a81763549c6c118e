/**
 The least-visited-neighbour rule both robot variants follow: list the
 admissible neighbours in west, east, north, south order together with
 the robot's own visit count for each, sort that list by count with a
 stable sort, and take its head.
 */
module Explore {
  import opened Grid

  datatype Option<T> = None | Some(value: T)

  /** One entry of the robot's `moves` list: a target and its visit count. */
  datatype Candidate = Candidate(pos: Pos, visits: nat)

  /** A robot: its column `x`, its row `y` and its private visit matrix. */
  datatype Robot = Robot(x: int, y: int, visited: Counts)
  {
    function At(): Pos
    {
      Pos(x, y)
    }
  }

  /** A robot's matrix has the grid's shape and the robot stands inside the grid. */
  predicate Fits<T>(g: seq<seq<T>>, rb: Robot)
  {
    SameShape(rb.visited, g) && CellExists(g, rb.At())
  }

  lemma FitsCounts<T>(g: seq<seq<T>>, v: Counts, keep: set<Pos>)
    requires SameShape(v, g)
    requires forall q :: q in keep ==> CellExists(g, q)
    ensures forall q :: q in keep ==> CellExists(v, q)
  {
  }

  /** A robot created at `(x, y)` on an `h` by `w` grid, visiting nothing yet. */
  function NewRobot(x: int, y: int, h: nat, w: nat): (r: Robot)
    ensures r.At() == Pos(x, y)
    ensures |r.visited| == h && forall row :: 0 <= row < h ==> |r.visited[row]| == w
    ensures Total(r.visited) == 0
  {
    var c := ZeroCounts(h, w);
    SumOfZeros(c, Itself);
    Robot(x, y, c)
  }

  /** The `moves` list: the positions of `ns`, in order, that lie in
      `keep`, each paired with its count in `v`. */
  function Moves(ns: seq<Pos>, keep: set<Pos>, v: Counts): (ms: seq<Candidate>)
    requires forall p :: p in keep ==> CellExists(v, p)
    ensures |ms| <= |ns|
    ensures forall c :: c in ms ==> c.pos in ns && c.pos in keep && c.visits == Get(v, c.pos)
    ensures forall p :: p in ns && p in keep ==> Candidate(p, Get(v, p)) in ms
    ensures ms == [] <==> forall p :: p in ns ==> p !in keep
  {
    if ns == [] then []
    else
      var rest := Moves(ns[1..], keep, v);
      if ns[0] in keep then [Candidate(ns[0], Get(v, ns[0]))] + rest else rest
  }

  predicate SortedByVisits(s: seq<Candidate>)
  {
    forall i, j :: 0 <= i < j < |s| ==> s[i].visits <= s[j].visits
  }

  /** Places `c` in front of the first entry whose count is at least its own,
      so that `c` stays ahead of the equal entries that came after it. */
  function Insert(c: Candidate, s: seq<Candidate>): (r: seq<Candidate>)
    requires SortedByVisits(s)
    ensures SortedByVisits(r)
    ensures multiset(r) == multiset(s) + multiset{c}
    ensures forall d :: d in r ==> d == c || d in s
    ensures r[0] == (if s == [] || c.visits <= s[0].visits then c else s[0])
  {
    if s == [] || c.visits <= s[0].visits then [c] + s
    else
      var t := Insert(c, s[1..]);
      assert SortedByVisits([s[0]] + t) by {
        forall k | 0 <= k < |t|
          ensures s[0].visits <= t[k].visits
        {
          assert t[k] in t;
        }
        SortedCons(s[0], t);
      }
      assert multiset([s[0]] + t) == multiset(s) + multiset{c} by {
        assert s == [s[0]] + s[1..];
      }
      [s[0]] + t
  }

  lemma SortedCons(h: Candidate, t: seq<Candidate>)
    requires SortedByVisits(t)
    requires forall k :: 0 <= k < |t| ==> h.visits <= t[k].visits
    ensures SortedByVisits([h] + t)
  {
    forall i, j | 0 <= i < j < |t| + 1
      ensures ([h] + t)[i].visits <= ([h] + t)[j].visits
    {
      if i > 0 {
        assert ([h] + t)[i] == t[i - 1];
      }
      assert ([h] + t)[j] == t[j - 1];
    }
  }

  /** Python's stable `sorted(moves, key = visits)`, as an insertion sort. */
  function SortByVisits(s: seq<Candidate>): (r: seq<Candidate>)
    ensures SortedByVisits(r)
    ensures multiset(r) == multiset(s)
    ensures |r| == |s|
  {
    if s == [] then []
    else
      assert s == [s[0]] + s[1..];
      var r := Insert(s[0], SortByVisits(s[1..]));
      assert |r| == |multiset(r)|;
      r
  }

  /** The index of the first entry with the least count. */
  function FirstMinIndex(s: seq<Candidate>): (k: nat)
    requires |s| > 0
    ensures k < |s|
    ensures forall j :: 0 <= j < |s| ==> s[k].visits <= s[j].visits
    ensures forall j :: 0 <= j < k ==> s[j].visits > s[k].visits
  {
    if |s| == 1 then 0
    else
      var k := FirstMinIndex(s[1..]) + 1;
      if s[0].visits <= s[k].visits then 0 else k
  }

  /** The head of the stable sort is the first entry of least count. */
  lemma {:induction false} SortHeadIsFirstMin(s: seq<Candidate>)
    requires |s| > 0
    ensures SortByVisits(s)[0] == s[FirstMinIndex(s)]
    decreases |s|
  {
    if |s| > 1 {
      SortHeadIsFirstMin(s[1..]);
    }
  }

  /** `moves[0]` after sorting: the chosen move. */
  function Pick(moves: seq<Candidate>): (c: Candidate)
    requires |moves| > 0
    ensures c == moves[FirstMinIndex(moves)]
  {
    SortHeadIsFirstMin(moves);
    SortByVisits(moves)[0]
  }

  /** `t` is an admissible entry of `ns` whose count is least among the
      admissible entries, and every admissible entry ahead of `t` in `ns`
      has a strictly larger count. */
  ghost predicate LeastVisitedFirst(ns: seq<Pos>, keep: set<Pos>, v: Counts, t: Pos)
    requires forall p :: p in keep ==> CellExists(v, p)
  {
    && t in ns && t in keep
    && (forall q :: q in ns && q in keep ==> Get(v, t) <= Get(v, q))
    && (forall j, k :: 0 <= j < k < |ns| && ns[k] == t && ns[j] in keep ==>
          Get(v, ns[j]) > Get(v, t))
  }

  lemma LeastVisitedFirstSkip(ns: seq<Pos>, keep: set<Pos>, v: Counts, t: Pos)
    requires forall p :: p in keep ==> CellExists(v, p)
    requires |ns| > 0 && ns[0] !in keep
    requires LeastVisitedFirst(ns[1..], keep, v, t)
    ensures LeastVisitedFirst(ns, keep, v, t)
  {
    assert ns == [ns[0]] + ns[1..];
    forall j, k | 0 <= j < k < |ns| && ns[k] == t && ns[j] in keep
      ensures Get(v, ns[j]) > Get(v, t)
    {
      assert ns[1..][k - 1] == t && ns[1..][j - 1] == ns[j];
    }
  }

  lemma LeastVisitedFirstHead(ns: seq<Pos>, keep: set<Pos>, v: Counts)
    requires forall p :: p in keep ==> CellExists(v, p)
    requires |ns| > 0 && ns[0] in keep && Distinct(ns)
    requires forall q :: q in ns[1..] && q in keep ==> Get(v, ns[0]) <= Get(v, q)
    ensures LeastVisitedFirst(ns, keep, v, ns[0])
  {
    assert ns == [ns[0]] + ns[1..];
  }

  lemma LeastVisitedFirstBehind(ns: seq<Pos>, keep: set<Pos>, v: Counts, t: Pos)
    requires forall p :: p in keep ==> CellExists(v, p)
    requires |ns| > 0 && ns[0] in keep
    requires LeastVisitedFirst(ns[1..], keep, v, t)
    requires Get(v, ns[0]) > Get(v, t)
    ensures LeastVisitedFirst(ns, keep, v, t)
  {
    assert ns == [ns[0]] + ns[1..];
    forall j, k | 0 <= j < k < |ns| && ns[k] == t && ns[j] in keep
      ensures Get(v, ns[j]) > Get(v, t)
    {
      if j > 0 {
        assert ns[1..][k - 1] == t && ns[1..][j - 1] == ns[j];
      }
    }
  }

  /** Picking from a list with one more entry in front. */
  lemma PickCons(head: Candidate, rest: seq<Candidate>)
    requires rest != []
    ensures Pick([head] + rest) == if head.visits <= Pick(rest).visits then head else Pick(rest)
    ensures forall c :: c in rest ==> Pick(rest).visits <= c.visits
  {
    assert ([head] + rest)[1..] == rest;
  }

  /** A lower bound on every entry of the moves list bounds every
      admissible position's count. */
  lemma MovesLowerBound(ns: seq<Pos>, keep: set<Pos>, v: Counts, b: nat)
    requires forall p :: p in keep ==> CellExists(v, p)
    requires Moves(ns, keep, v) != []
    requires b <= Pick(Moves(ns, keep, v)).visits
    ensures forall q :: q in ns && q in keep ==> b <= Get(v, q)
  {
    var ms := Moves(ns, keep, v);
    forall q | q in ns && q in keep
      ensures b <= Get(v, q)
    {
      var i :| 0 <= i < |ms| && ms[i] == Candidate(q, Get(v, q));
    }
  }

  /** The chosen move follows the least-visited rule with ties going to the
      earliest neighbour in enumeration order. */
  lemma {:induction false} PickIsLeastVisitedFirst(ns: seq<Pos>, keep: set<Pos>, v: Counts)
    requires forall p :: p in keep ==> CellExists(v, p)
    requires Distinct(ns)
    requires Moves(ns, keep, v) != []
    ensures LeastVisitedFirst(ns, keep, v, Pick(Moves(ns, keep, v)).pos)
    decreases |ns|
  {
    assert Distinct(ns[1..]) by {
      forall i, j | 0 <= i < j < |ns| - 1
        ensures ns[1..][i] != ns[1..][j]
      {
        assert ns[1..][i] == ns[i + 1] && ns[1..][j] == ns[j + 1];
      }
    }
    if ns[0] !in keep {
      assert Moves(ns, keep, v) == Moves(ns[1..], keep, v);
      PickIsLeastVisitedFirst(ns[1..], keep, v);
      PickSkip(ns, keep, v);
    } else if Moves(ns[1..], keep, v) == [] || Get(v, ns[0]) <= Pick(Moves(ns[1..], keep, v)).visits {
      PickHead(ns, keep, v);
    } else {
      PickIsLeastVisitedFirst(ns[1..], keep, v);
      PickBehind(ns, keep, v);
    }
  }

  /** The case of `PickIsLeastVisitedFirst` where the first neighbour is not
      admissible, given the case for the rest of the list. */
  lemma PickSkip(ns: seq<Pos>, keep: set<Pos>, v: Counts)
    requires forall p :: p in keep ==> CellExists(v, p)
    requires |ns| > 0 && ns[0] !in keep
    requires Moves(ns[1..], keep, v) != []
    requires LeastVisitedFirst(ns[1..], keep, v, Pick(Moves(ns[1..], keep, v)).pos)
    ensures LeastVisitedFirst(ns, keep, v, Pick(Moves(ns, keep, v)).pos)
  {
    assert Moves(ns, keep, v) == Moves(ns[1..], keep, v);
    LeastVisitedFirstSkip(ns, keep, v, Pick(Moves(ns, keep, v)).pos);
  }

  /** The case of `PickIsLeastVisitedFirst` where the first neighbour is
      admissible and no later one has a smaller count. */
  lemma PickHead(ns: seq<Pos>, keep: set<Pos>, v: Counts)
    requires forall p :: p in keep ==> CellExists(v, p)
    requires Distinct(ns)
    requires |ns| > 0 && ns[0] in keep
    requires Moves(ns[1..], keep, v) != [] ==> Get(v, ns[0]) <= Pick(Moves(ns[1..], keep, v)).visits
    ensures LeastVisitedFirst(ns, keep, v, Pick(Moves(ns, keep, v)).pos)
  {
    var rest := Moves(ns[1..], keep, v);
    var head := Candidate(ns[0], Get(v, ns[0]));
    assert Moves(ns, keep, v) == [head] + rest;
    if rest == [] {
      assert Pick([head]).pos == ns[0];
    } else {
      assert Pick([head] + rest).pos == ns[0] by {
        PickCons(head, rest);
      }
      MovesLowerBound(ns[1..], keep, v, head.visits);
    }
    LeastVisitedFirstHead(ns, keep, v);
  }

  /** The case of `PickIsLeastVisitedFirst` where the first neighbour is
      admissible but a later one has a smaller count, given the case for the
      rest of the list. */
  lemma PickBehind(ns: seq<Pos>, keep: set<Pos>, v: Counts)
    requires forall p :: p in keep ==> CellExists(v, p)
    requires |ns| > 0 && ns[0] in keep
    requires Moves(ns[1..], keep, v) != []
    requires Get(v, ns[0]) > Pick(Moves(ns[1..], keep, v)).visits
    requires LeastVisitedFirst(ns[1..], keep, v, Pick(Moves(ns[1..], keep, v)).pos)
    ensures LeastVisitedFirst(ns, keep, v, Pick(Moves(ns, keep, v)).pos)
  {
    PickBehindTarget(ns, keep, v);
    LeastVisitedFirstBehind(ns, keep, v, Pick(Moves(ns[1..], keep, v)).pos);
  }

  /** When the first neighbour's count exceeds the least count behind it,
      the pick is the pick from the rest of the list. */
  lemma PickBehindTarget(ns: seq<Pos>, keep: set<Pos>, v: Counts)
    requires forall p :: p in keep ==> CellExists(v, p)
    requires |ns| > 0 && ns[0] in keep
    requires Moves(ns[1..], keep, v) != []
    requires Get(v, ns[0]) > Pick(Moves(ns[1..], keep, v)).visits
    ensures Pick(Moves(ns, keep, v)).pos == Pick(Moves(ns[1..], keep, v)).pos
    ensures Get(v, ns[0]) > Get(v, Pick(Moves(ns[1..], keep, v)).pos)
  {
    var rest := Moves(ns[1..], keep, v);
    var head := Candidate(ns[0], Get(v, ns[0]));
    assert Moves(ns, keep, v) == [head] + rest;
    PickCons(head, rest);
    assert Pick(rest) == rest[FirstMinIndex(rest)];
  }

  /** The position a robot moves to: the head of the sorted moves list, or
      nothing when no neighbour is admissible. */
  function Choose(ns: seq<Pos>, keep: set<Pos>, v: Counts): (t: Option<Pos>)
    requires forall p :: p in keep ==> CellExists(v, p)
    requires Distinct(ns)
    ensures t.None? <==> forall p :: p in ns ==> p !in keep
    ensures t.Some? ==> LeastVisitedFirst(ns, keep, v, t.value)
  {
    var moves := Moves(ns, keep, v);
    if moves == [] then None
    else
      PickIsLeastVisitedFirst(ns, keep, v);
      Some(Pick(moves).pos)
  }
}
