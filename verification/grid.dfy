/** Cells, positions and boards shared by the maze generator, the
    reachability search and the turn engine, together with the notion of a
    walk over non-wall cells that the search computes. */
module Grid {

  /** What one grid position holds. The source keeps display strings in its
      cells; the exit is its own marker ('[]'), distinct from the wall. */
  datatype Cell = Wall | Path | Player | Exit | Treasure | Trap

  /** A grid position: column x, row y (the source's `(x, y)` tuples). */
  datatype Pos = Pos(x: int, y: int)

  datatype Option<T> = None | Some(value: T)

  /** A board value: its rows, indexed `b[y][x]` like the source's `maze[y][x]`. */
  type Board = seq<seq<Cell>>

  predicate InBounds(b: Board, p: Pos) {
    0 <= p.y < |b| && 0 <= p.x < |b[p.y]|
  }

  function At(b: Board, p: Pos): Cell
    requires InBounds(b, p)
  {
    b[p.y][p.x]
  }

  predicate SameShape(a: Board, b: Board) {
    |a| == |b| && forall y :: 0 <= y < |a| ==> |a[y]| == |b[y]|
  }

  /** The board with the cell at `p` replaced by `c`. */
  function Set(b: Board, p: Pos, c: Cell): (r: Board)
    requires InBounds(b, p)
    ensures SameShape(r, b)
    ensures At(r, p) == c
    ensures forall q :: InBounds(b, q) && q != p ==> At(r, q) == At(b, q)
  {
    b[p.y := b[p.y][p.x := c]]
  }

  /** Two boards of the same shape that agree on every cell are equal. */
  lemma {:induction false} BoardsEqual(a: Board, b: Board)
    requires SameShape(a, b)
    requires forall p :: InBounds(a, p) ==> At(a, p) == At(b, p)
    ensures a == b
  {
    forall y | 0 <= y < |a|
      ensures a[y] == b[y]
    {
      forall x | 0 <= x < |a[y]|
        ensures a[y][x] == b[y][x]
      {
        assert At(a, Pos(x, y)) == At(b, Pos(x, y));
      }
    }
  }

  /** The value of a grid held in a two-dimensional array. */
  ghost function View(a: array2<Cell>): (b: Board)
    reads a
    ensures |b| == a.Length0
    ensures forall y :: 0 <= y < |b| ==> |b[y]| == a.Length1
    ensures forall y, x :: 0 <= y < a.Length0 && 0 <= x < a.Length1 ==> b[y][x] == a[y, x]
  {
    seq(a.Length0, y requires 0 <= y < a.Length0 reads a =>
      seq(a.Length1, x requires 0 <= x < a.Length1 reads a => a[y, x]))
  }

  /** `maze[y][x] = c`: one cell of the grid overwritten in place. */
  method SetCell(a: array2<Cell>, p: Pos, c: Cell)
    requires 0 <= p.y < a.Length0 && 0 <= p.x < a.Length1
    modifies a
    ensures View(a) == Set(old(View(a)), p, c)
  {
    ghost var before := View(a);
    a[p.y, p.x] := c;
    BoardsEqual(View(a), Set(before, p, c));
  }

  predicate Distinct<T(==)>(s: seq<T>) {
    forall i, j :: 0 <= i < j < |s| ==> s[i] != s[j]
  }

  /** The head of a sequence without repeats does not recur in its tail. */
  lemma DistinctTail<T>(s: seq<T>)
    requires Distinct(s) && s != []
    ensures Distinct(s[1..]) && s[0] !in s[1..]
  {
    forall y | y in s[1..]
      ensures y != s[0]
    {
      var j :| 0 <= j < |s[1..]| && s[1..][j] == y;
      assert s[j + 1] == y;
    }
  }

  /** A fresh element put in front keeps a sequence without repeats. */
  lemma DistinctCons<T>(a: T, s: seq<T>)
    requires Distinct(s) && a !in s
    ensures Distinct([a] + s)
  {
    forall i, j | 0 <= i < j < |[a] + s|
      ensures ([a] + s)[i] != ([a] + s)[j]
    {
      assert ([a] + s)[j] == s[j - 1];
      if i > 0 {
        assert ([a] + s)[i] == s[i - 1];
      }
    }
  }

  /** The four neighbours of `p`, in the order of the search's direction
      list: (0, 1), (1, 0), (0, -1), (-1, 0). */
  function Neighbors(p: Pos): (r: seq<Pos>)
    ensures |r| == 4 && Distinct(r)
    ensures forall i :: 0 <= i < |r| ==>
      && (r[i].x == p.x) != (r[i].y == p.y)
      && -1 <= r[i].x - p.x <= 1 && -1 <= r[i].y - p.y <= 1
  {
    [Pos(p.x, p.y + 1), Pos(p.x + 1, p.y), Pos(p.x, p.y - 1), Pos(p.x - 1, p.y)]
  }

  /** A cell a player or the search may step onto: inside the grid and not a wall. */
  predicate Open(b: Board, p: Pos) {
    InBounds(b, p) && At(b, p) != Wall
  }

  /** A walk starts at an in-bounds cell and then steps between
      4-neighbours, onto non-wall cells only. */
  ghost predicate IsWalk(b: Board, w: seq<Pos>)
    decreases |w|
  {
    && |w| > 0
    && InBounds(b, w[0])
    && (|w| > 1 ==>
          && IsWalk(b, w[..|w| - 1])
          && Open(b, w[|w| - 1])
          && w[|w| - 1] in Neighbors(w[|w| - 2]))
  }

  /** `t` is joined to `s` by a 4-neighbour chain of non-wall cells. */
  ghost predicate Reachable(b: Board, s: Pos, t: Pos) {
    exists w :: IsWalk(b, w) && w[0] == s && w[|w| - 1] == t
  }

  /** Every in-bounds cell reaches itself. */
  lemma ReachableSelf(b: Board, s: Pos)
    requires InBounds(b, s)
    ensures Reachable(b, s, s)
  {
    assert IsWalk(b, [s]);
  }

  /** A walk extended by one step onto an open neighbour of its end. */
  lemma WalkExtend(b: Board, w: seq<Pos>, n: Pos)
    requires IsWalk(b, w)
    requires n in Neighbors(w[|w| - 1]) && Open(b, n)
    ensures IsWalk(b, w + [n])
  {
    assert (w + [n])[..|w|] == w;
  }

  /** Reachability extends by one step onto an open neighbour. */
  lemma ReachableStep(b: Board, s: Pos, v: Pos, n: Pos)
    requires Reachable(b, s, v)
    requires n in Neighbors(v) && Open(b, n)
    ensures Reachable(b, s, n)
  {
    var w :| IsWalk(b, w) && w[0] == s && w[|w| - 1] == v;
    WalkExtend(b, w, n);
    var w' := w + [n];
    assert w'[0] == s && w'[|w'| - 1] == n;
  }

  /** A set that holds the first cell of a walk and is closed under stepping
      onto open neighbours holds the whole walk, in particular its end. */
  lemma {:induction false} ClosedSetHoldsWalkEnd(b: Board, w: seq<Pos>, v: set<Pos>)
    requires IsWalk(b, w) && w[0] in v
    requires forall p, n :: p in v && n in Neighbors(p) && Open(b, n) ==> n in v
    ensures w[|w| - 1] in v
    decreases |w|
  {
    if |w| > 1 {
      var w' := w[..|w| - 1];
      ClosedSetHoldsWalkEnd(b, w', v);
    }
  }

  /** A walk stays a walk on a board of the same shape that has no wall
      where the first board had none. */
  lemma {:induction false} WalkSurvives(a: Board, b: Board, w: seq<Pos>)
    requires SameShape(a, b) && IsWalk(a, w)
    requires forall p :: Open(a, p) ==> Open(b, p)
    ensures IsWalk(b, w)
    decreases |w|
  {
    if |w| > 1 {
      WalkSurvives(a, b, w[..|w| - 1]);
    }
  }

  /** Exactly one cell, `p`, holds the player marker. */
  ghost predicate OnlyPlayerAt(b: Board, p: Pos) {
    && InBounds(b, p)
    && At(b, p) == Player
    && forall q :: InBounds(b, q) && At(b, q) == Player ==> q == p
  }

  /** How many cells of a row hold `c`. */
  function CountRow(r: seq<Cell>, c: Cell): nat
    decreases |r|
  {
    if r == [] then 0 else CountRow(r[..|r| - 1], c) + (if r[|r| - 1] == c then 1 else 0)
  }

  /** How many cells of a board hold `c`. */
  function Count(b: Board, c: Cell): nat
    decreases |b|
  {
    if b == [] then 0 else Count(b[..|b| - 1], c) + CountRow(b[|b| - 1], c)
  }

  /** Overwriting one cell of a row changes its count of `c` by what left
      and what arrived. */
  lemma {:induction false} CountRowUpdate(r: seq<Cell>, i: int, v: Cell, c: Cell)
    requires 0 <= i < |r|
    ensures CountRow(r[i := v], c) == CountRow(r, c) - (if r[i] == c then 1 else 0) + (if v == c then 1 else 0)
    decreases |r|
  {
    var n := |r| - 1;
    if i == n {
      assert r[i := v][..n] == r[..n];
    } else {
      assert r[i := v][..n] == r[..n][i := v];
      CountRowUpdate(r[..n], i, v, c);
    }
  }

  /** Overwriting one cell of a board changes its count of `c` by what left
      and what arrived. */
  lemma {:induction false} CountUpdate(b: Board, p: Pos, v: Cell, c: Cell)
    requires InBounds(b, p)
    ensures Count(Set(b, p, v), c) == Count(b, c) - (if At(b, p) == c then 1 else 0) + (if v == c then 1 else 0)
    decreases |b|
  {
    var n := |b| - 1;
    var r := Set(b, p, v);
    if p.y == n {
      assert r[..n] == b[..n];
      assert r[n] == b[n][p.x := v];
      CountRowUpdate(b[n], p.x, v, c);
    } else {
      assert r[..n] == Set(b[..n], p, v);
      assert r[n] == b[n];
      CountUpdate(b[..n], p, v, c);
    }
  }

  /** A board with no cell holding `c` counts none of it. */
  lemma {:induction false} CountNone(b: Board, c: Cell)
    requires forall p :: InBounds(b, p) ==> At(b, p) != c
    ensures Count(b, c) == 0
    decreases |b|
  {
    if b != [] {
      var n := |b| - 1;
      forall p | InBounds(b[..n], p)
        ensures At(b[..n], p) != c
      {
        assert At(b[..n], p) == At(b, p);
      }
      CountNone(b[..n], c);
      forall x | 0 <= x < |b[n]|
        ensures b[n][x] != c
      {
        assert At(b, Pos(x, n)) == b[n][x];
      }
      RowCountNone(b[n], c);
    }
  }

  lemma {:induction false} RowCountNone(r: seq<Cell>, c: Cell)
    requires forall x :: 0 <= x < |r| ==> r[x] != c
    ensures CountRow(r, c) == 0
    decreases |r|
  {
    if r != [] {
      RowCountNone(r[..|r| - 1], c);
    }
  }
}
