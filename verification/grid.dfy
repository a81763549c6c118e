/**
 Row-major character grids and per-robot visit matrices, shared by the
 single-robot and the multi-robot explorers.

 A grid is a sequence of rows; the cell in column `x` of row `y` is
 `m[y][x]`. Positions are written `(x, y)` as in the robots' own fields,
 so a position `p` addresses `m[p.y][p.x]`.
 */
module Grid {

  /** The only cell character that blocks every robot. */
  const WALL: char := '#'

  /** A robot's column `x` and row `y`. */
  datatype Pos = Pos(x: int, y: int)

  /** A per-robot matrix of visit counts, one entry per grid cell. */
  type Counts = seq<seq<nat>>

  function Abs(n: int): nat
  {
    if n < 0 then -n else n
  }

  /** `q` is one of the four axis-aligned neighbours of `p`. */
  predicate Adjacent(p: Pos, q: Pos)
  {
    Abs(p.x - q.x) + Abs(p.y - q.y) == 1
  }

  /** The neighbours of `p` in the order the robots enumerate them:
      west, east, north, south. */
  function Neighbours(p: Pos): (ns: seq<Pos>)
    ensures |ns| == 4
    ensures forall q :: q in ns <==> Adjacent(p, q)
    ensures p !in ns
    ensures Distinct(ns)
  {
    var ns := [Pos(p.x - 1, p.y), Pos(p.x + 1, p.y), Pos(p.x, p.y - 1), Pos(p.x, p.y + 1)];
    assert forall q :: Adjacent(p, q) ==> q in ns by {
      forall q | Adjacent(p, q)
        ensures q in ns
      {
        if q.x == p.x {
          assert q.y == p.y - 1 || q.y == p.y + 1;
        } else {
          assert q.y == p.y;
        }
      }
    }
    ns
  }

  predicate Distinct<T(==)>(s: seq<T>)
  {
    forall i, j :: 0 <= i < j < |s| ==> s[i] != s[j]
  }

  /** Every row has the length of the first one, and there is a first one. */
  predicate Rectangular<T>(m: seq<seq<T>>)
  {
    |m| > 0 && forall r :: 0 <= r < |m| ==> |m[r]| == |m[0]|
  }

  /** `m[p.y][p.x]` exists. */
  predicate CellExists<T>(m: seq<seq<T>>, p: Pos)
  {
    0 <= p.y < |m| && 0 <= p.x < |m[p.y]|
  }

  /** The cell of `m` at `p`. */
  function Get<T>(m: seq<seq<T>>, p: Pos): T
    requires CellExists(m, p)
  {
    m[p.y][p.x]
  }

  /** The robots' bounds test: column below the first row's length and row
      below the number of rows. */
  predicate WithinHW<T>(m: seq<seq<T>>, p: Pos)
    requires |m| > 0
  {
    0 <= p.x < |m[0]| && 0 <= p.y < |m|
  }

  /** `House.hw`: the pair (height, width) read off the grid. On a
      rectangular grid it bounds exactly the cells that exist, so the
      robots' bounds test is also the test for an existing cell. */
  function HW<T>(m: seq<seq<T>>): (hw: (nat, nat))
    requires |m| > 0
    ensures Rectangular(m) ==>
      forall p :: CellExists(m, p) <==> 0 <= p.y < hw.0 && 0 <= p.x < hw.1
    ensures forall p :: WithinHW(m, p) <==> 0 <= p.y < hw.0 && 0 <= p.x < hw.1
  {
    (|m|, |m[0]|)
  }

  /** `a` and `b` have the same number of rows and equally long rows. */
  predicate SameShape<T, U>(a: seq<seq<T>>, b: seq<seq<U>>)
  {
    |a| == |b| && forall r :: 0 <= r < |a| ==> |a[r]| == |b[r]|
  }

  lemma SameShapeCells<T, U>(a: seq<seq<T>>, b: seq<seq<U>>)
    requires SameShape(a, b)
    ensures forall q :: CellExists(a, q) <==> CellExists(b, q)
  {
  }

  /** The `h` by `w` matrix of zeros a robot starts with. */
  function ZeroCounts(h: nat, w: nat): (c: Counts)
    ensures |c| == h
    ensures forall r :: 0 <= r < h ==> |c[r]| == w
    ensures forall p :: CellExists(c, p) ==> c[p.y][p.x] == 0
  {
    seq(h, _ => seq(w, _ => 0))
  }

  /** `m` with the single cell at `p` set to `v`. */
  function Update<T>(m: seq<seq<T>>, p: Pos, v: T): (m': seq<seq<T>>)
    requires CellExists(m, p)
    ensures SameShape(m, m')
    ensures forall q :: CellExists(m', q) <==> CellExists(m, q)
    ensures m'[p.y][p.x] == v
    ensures forall q :: CellExists(m, q) && q != p ==> m'[q.y][q.x] == m[q.y][q.x]
  {
    m[p.y := m[p.y][p.x := v]]
  }

  /** Sum of `f` over a row. */
  function RowSum<T>(row: seq<T>, f: T -> nat): nat
  {
    if row == [] then 0 else f(row[0]) + RowSum(row[1..], f)
  }

  /** Sum of `f` over every cell of a matrix. */
  function Sum<T>(m: seq<seq<T>>, f: T -> nat): nat
  {
    if m == [] then 0 else RowSum(m[0], f) + Sum(m[1..], f)
  }

  lemma {:induction false} RowSumUpdate<T>(row: seq<T>, x: int, v: T, f: T -> nat)
    requires 0 <= x < |row|
    ensures RowSum(row[x := v], f) == RowSum(row, f) - f(row[x]) + f(v)
    decreases |row|
  {
    if x > 0 {
      assert row[x := v][1..] == row[1..][x - 1 := v];
      RowSumUpdate(row[1..], x - 1, v, f);
    } else {
      assert row[x := v][1..] == row[1..];
    }
  }

  /** Changing one cell changes the sum by exactly the change of that cell. */
  lemma {:induction false} SumUpdate<T>(m: seq<seq<T>>, p: Pos, v: T, f: T -> nat)
    requires CellExists(m, p)
    ensures Sum(Update(m, p, v), f) == Sum(m, f) - f(m[p.y][p.x]) + f(v)
    decreases |m|
  {
    var m' := Update(m, p, v);
    if p.y > 0 {
      assert m'[1..] == Update(m[1..], Pos(p.x, p.y - 1), v);
      SumUpdate(m[1..], Pos(p.x, p.y - 1), v, f);
    } else {
      assert m'[1..] == m[1..];
      RowSumUpdate(m[0], p.x, v, f);
    }
  }

  /** A matrix whose every cell weighs nothing sums to nothing. */
  lemma {:induction false} SumOfZeros<T>(m: seq<seq<T>>, f: T -> nat)
    requires forall p :: CellExists(m, p) ==> f(Get(m, p)) == 0
    ensures Sum(m, f) == 0
    decreases |m|
  {
    if m != [] {
      forall x | 0 <= x < |m[0]|
        ensures f(m[0][x]) == 0
      {
        assert CellExists(m, Pos(x, 0));
      }
      RowOfZeros(m[0], f);
      forall p | CellExists(m[1..], p)
        ensures f(Get(m[1..], p)) == 0
      {
        assert CellExists(m, Pos(p.x, p.y + 1));
      }
      SumOfZeros(m[1..], f);
    }
  }

  lemma {:induction false} RowOfZeros<T>(row: seq<T>, f: T -> nat)
    requires forall x :: 0 <= x < |row| ==> f(row[x]) == 0
    ensures RowSum(row, f) == 0
    decreases |row|
  {
    if row != [] {
      RowOfZeros(row[1..], f);
    }
  }

  function Itself(n: nat): nat
  {
    n
  }

  /** The total number of visits recorded in a matrix. */
  function Total(c: Counts): nat
  {
    Sum(c, Itself)
  }

  /** One more visit at `p` and no other change: the update a robot makes
      to its own matrix at the start of every step. */
  function Bump(c: Counts, p: Pos): (c': Counts)
    requires CellExists(c, p)
    ensures SameShape(c, c')
    ensures c'[p.y][p.x] == c[p.y][p.x] + 1
    ensures forall q :: CellExists(c, q) && q != p ==> c'[q.y][q.x] == c[q.y][q.x]
    ensures Total(c') == Total(c) + 1
  {
    SumUpdate(c, p, c[p.y][p.x] + 1, Itself);
    Update(c, p, c[p.y][p.x] + 1)
  }
}
