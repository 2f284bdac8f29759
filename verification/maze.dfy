/** Maze construction (`create_maze` in game.py) with its randomness passed
    in: an oracle says which interior cells the random pass opens, and lists
    of draws drive the sampling of treasure and trap positions. */
module Maze {
  import opened Grid
  import Reach

  function Min(a: int, b: int): int {
    if a <= b then a else b
  }

  /** How much both sides grow with the level: `level // 3`, at most 5.
      For the positive divisor 3, Dafny's `/` is the floor division of
      Python's `//`. */
  function SizeIncrease(level: int): (d: int)
    ensures d <= 5
    ensures level >= 15 ==> d == 5
    ensures level >= 0 ==> d >= 0
  {
    Min(level / 3, 5)
  }

  /** Columns of the maze: 15 plus the increase, so never more than 20. */
  function MazeWidth(level: int): (w: int)
    ensures w <= 20
    ensures level >= 15 ==> w == 20
    ensures level >= 0 ==> w >= 15
  {
    15 + SizeIncrease(level)
  }

  /** Rows of the maze: 10 plus the same increase, so never more than 15. */
  function MazeHeight(level: int): (h: int)
    ensures h <= 15
    ensures level >= 15 ==> h == 15
    ensures level >= 0 ==> h >= 10
    ensures h == MazeWidth(level) - 5
  {
    10 + SizeIncrease(level)
  }

  /** The maze never shrinks as the level rises. */
  lemma SizeMonotone(lo: int, hi: int)
    requires lo <= hi
    ensures MazeWidth(lo) <= MazeWidth(hi)
    ensures MazeHeight(lo) <= MazeHeight(hi)
  {
    assert lo / 3 <= hi / 3;
  }

  /** The exit's position, one cell in from the bottom-right corner. */
  function ExitAt(level: int): Pos {
    Pos(MazeWidth(level) - 2, MazeHeight(level) - 2)
  }

  /** The cell at (x, y) of a `w` by `h` grid after the random pass and the
      forced corridors: the border stays wall; rows 1 and h - 2 and columns
      1 and w - 2 are path; any other cell is path where the oracle opened it. */
  function Carved(w: int, h: int, open: (int, int) -> bool, x: int, y: int): Cell {
    if x <= 0 || y <= 0 || x >= w - 1 || y >= h - 1 then Wall
    else if x == 1 || x == w - 2 || y == 1 || y == h - 2 then Path
    else if open(x, y) then Path
    else Wall
  }

  /** The carved grid of the level, before the markers are set. */
  function Carving(w: nat, h: nat, open: (int, int) -> bool): (b: Board)
    ensures |b| == h && forall y :: 0 <= y < h ==> |b[y]| == w
    ensures forall p :: InBounds(b, p) ==> At(b, p) == Carved(w, h, open, p.x, p.y)
  {
    seq(h, y => seq(w, x => Carved(w, h, open, x, y)))
  }

  /** The grid of the level once the player is at (1, 1) and the exit at
      (w - 2, h - 2), before any item is placed. */
  function Layout(level: int, open: (int, int) -> bool): (b: Board)
    requires 3 <= MazeHeight(level)
    ensures |b| == MazeHeight(level) && forall y :: 0 <= y < |b| ==> |b[y]| == MazeWidth(level)
    ensures forall p :: InBounds(b, p) ==>
      At(b, p) == (if p == Pos(1, 1) then Player
                   else if p == ExitAt(level) then Exit
                   else Carved(MazeWidth(level), MazeHeight(level), open, p.x, p.y))
  {
    var w, h := MazeWidth(level), MazeHeight(level);
    Set(Set(Carving(w, h, open), Pos(1, 1), Player), Pos(w - 2, h - 2), Exit)
  }

  /** The grid once treasures and then traps are written over `base`. */
  function Furnish(base: Board, treasures: seq<Pos>, traps: seq<Pos>): (b: Board)
    ensures SameShape(b, base)
    ensures forall p :: InBounds(base, p) ==>
      At(b, p) == (if p in traps then Trap else if p in treasures then Treasure else At(base, p))
  {
    seq(|base|, y requires 0 <= y < |base| =>
      seq(|base[y]|, x requires 0 <= x < |base[y]| =>
        if Pos(x, y) in traps then Trap
        else if Pos(x, y) in treasures then Treasure
        else base[y][x]))
  }

  lemma AddTreasure(base: Board, treasures: seq<Pos>, q: Pos)
    requires InBounds(base, q)
    ensures Set(Furnish(base, treasures, []), q, Treasure) == Furnish(base, treasures + [q], [])
  {
    BoardsEqual(Set(Furnish(base, treasures, []), q, Treasure), Furnish(base, treasures + [q], []));
  }

  lemma AddTrap(base: Board, treasures: seq<Pos>, traps: seq<Pos>, q: Pos)
    requires InBounds(base, q)
    ensures Set(Furnish(base, treasures, traps), q, Trap) == Furnish(base, treasures, traps + [q])
  {
    BoardsEqual(Set(Furnish(base, treasures, traps), q, Trap), Furnish(base, treasures, traps + [q]));
  }

  /** The elements of `s` other than `a` and `b`, in order (the list
      comprehension that drops the start and the exit). */
  function Without(s: seq<Pos>, a: Pos, b: Pos): (r: seq<Pos>)
    ensures forall p :: p in r <==> p in s && p != a && p != b
    ensures |r| <= |s|
    ensures Distinct(s) ==> Distinct(r)
    ensures a !in s && b !in s ==> r == s
  {
    if s == [] then []
    else
      var rest := Without(s[1..], a, b);
      var r := if s[0] != a && s[0] != b then [s[0]] + rest else rest;
      assert forall p :: p in s <==> p == s[0] || p in s[1..];
      assert Distinct(s) ==> Distinct(r) by {
        if Distinct(s) {
          DistinctTail(s);
          if s[0] != a && s[0] != b {
            DistinctCons(s[0], rest);
          }
        }
      }
      r
  }

  /** `list.remove`: the sequence without the first occurrence of `x`. */
  function RemoveFirst(s: seq<Pos>, x: Pos): (r: seq<Pos>)
    requires x in s
    ensures |r| == |s| - 1
    ensures forall y :: y in r ==> y in s
    ensures Distinct(s) ==> Distinct(r) && forall y :: y in r <==> y in s && y != x
  {
    assert forall y :: y in s <==> y == s[0] || y in s[1..];
    if s[0] == x then
      assert Distinct(s) ==> Distinct(s[1..]) && x !in s[1..] by {
        if Distinct(s) {
          DistinctTail(s);
        }
      }
      s[1..]
    else
      var rest := RemoveFirst(s[1..], x);
      assert Distinct(s) ==> Distinct([s[0]] + rest) by {
        if Distinct(s) {
          DistinctTail(s);
          DistinctCons(s[0], rest);
        }
      }
      [s[0]] + rest
  }

  /** The pool without its element at index `i`. */
  function DropAt(s: seq<Pos>, i: nat): (r: seq<Pos>)
    requires i < |s|
    ensures |r| == |s| - 1
    ensures forall y :: y in r ==> y in s
    ensures forall y :: y in s && y != s[i] ==> y in r
    ensures Distinct(s) ==> Distinct(r) && s[i] !in r
  {
    assert forall j :: 0 <= j < |s| && j != i ==> s[j] in s[..i] + s[i + 1..] by {
      forall j | 0 <= j < |s| && j != i
        ensures s[j] in s[..i] + s[i + 1..]
      {
        if j < i {
          assert s[j] == (s[..i] + s[i + 1..])[j];
        } else {
          assert s[j] == (s[..i] + s[i + 1..])[j - 1];
        }
      }
    }
    s[..i] + s[i + 1..]
  }

  /** `random.sample(pool, k)` driven by a list of draws: the i-th draw picks
      an index into what is left of the pool. */
  function Sample(pool: seq<Pos>, k: nat, draws: seq<nat>): (r: seq<Pos>)
    requires k <= |pool|
    ensures |r| == k
    ensures forall y :: y in r ==> y in pool
    ensures Distinct(pool) ==> Distinct(r)
    decreases k
  {
    if k == 0 then []
    else
      var i := (if draws == [] then 0 else draws[0]) % |pool|;
      var rest := Sample(DropAt(pool, i), k - 1, if draws == [] then [] else draws[1..]);
      assert Distinct(pool) ==> Distinct([pool[i]] + rest) by {
        if Distinct(pool) {
          DistinctCons(pool[i], rest);
        }
      }
      [pool[i]] + rest
  }

  lemma SmallRemainder(i: nat, n: nat)
    requires i < n
    ensures i % n == i
  {
  }

  /** Every selection `random.sample` can make, k distinct elements of the
      pool in any order, is made by some list of draws. */
  lemma {:induction false} SampleCanDrawAny(pool: seq<Pos>, want: seq<Pos>)
    requires |want| <= |pool| && Distinct(want)
    requires forall y :: y in want ==> y in pool
    ensures exists draws :: Sample(pool, |want|, draws) == want
    decreases |want|
  {
    if want == [] {
      assert Sample(pool, 0, []) == want;
    } else {
      assert want[0] in pool;
      var i :| 0 <= i < |pool| && pool[i] == want[0];
      var rest := DropAt(pool, i);
      DistinctTail(want);
      forall y | y in want[1..]
        ensures y in rest
      {
        assert y in want;
      }
      SampleCanDrawAny(rest, want[1..]);
      var more :| Sample(rest, |want| - 1, more) == want[1..];
      var draws := [i] + more;
      SmallRemainder(i, |pool|);
      assert draws[0] == i;
      assert draws[1..] == more;
      assert Sample(pool, |want|, draws) == [pool[i]] + want[1..];
      assert [want[0]] + want[1..] == want;
    }
  }

  /** The grid as `create_maze` leaves it after its first three loops:
      allocate walls, open interior cells by the oracle, then force rows 1
      and h - 2 and columns 1 and w - 2 to path. */
  method CarveGrid(w: nat, h: nat, open: (int, int) -> bool) returns (maze: array2<Cell>)
    requires 3 <= h && 3 <= w
    ensures fresh(maze)
    ensures maze.Length0 == h && maze.Length1 == w
    ensures View(maze) == Carving(w, h, open)
  {
    maze := new Cell[h, w]((y, x) => Wall);
    for i := 1 to h - 1
      invariant forall y, x :: 0 <= y < h && 0 <= x < w ==>
        maze[y, x] == if 1 <= y < i && 1 <= x < w - 1 && open(x, y) then Path else Wall
    {
      for j := 1 to w - 1
        invariant forall y, x :: 0 <= y < h && 0 <= x < w ==>
          maze[y, x] == if (1 <= y < i || (y == i && x < j)) && 1 <= x < w - 1 && open(x, y) then Path else Wall
      {
        if open(j, i) {
          maze[i, j] := Path;
        }
      }
    }
    for i := 1 to h - 1
      invariant forall y, x :: 0 <= y < h && 0 <= x < w ==>
        maze[y, x] == if (1 <= y < i && (x == 1 || x == w - 2))
                         || (1 <= y < h - 1 && 1 <= x < w - 1 && open(x, y)) then Path else Wall
    {
      maze[i, 1] := Path;
      maze[i, w - 2] := Path;
    }
    for j := 1 to w - 1
      invariant forall y, x :: 0 <= y < h && 0 <= x < w ==>
        maze[y, x] == if (1 <= y < h - 1 && (x == 1 || x == w - 2))
                         || (1 <= x < j && (y == 1 || y == h - 2))
                         || (1 <= y < h - 1 && 1 <= x < w - 1 && open(x, y)) then Path else Wall
    {
      maze[1, j] := Path;
      maze[h - 2, j] := Path;
    }
    forall p | InBounds(View(maze), p)
      ensures At(View(maze), p) == At(Carving(w, h, open), p)
    {
      assert At(View(maze), p) == maze[p.y, p.x];
    }
    BoardsEqual(View(maze), Carving(w, h, open));
  }

  /** The treasure loop of `create_maze`: write a treasure at each picked
      position and take it out of the positions still available. */
  method PlaceTreasures(maze: array2<Cell>, ghost base: Board, available: seq<Pos>, picks: seq<Pos>)
    returns (left: seq<Pos>)
    requires View(maze) == base
    requires Distinct(available) && Distinct(picks)
    requires forall p :: p in picks ==> p in available && InBounds(base, p)
    modifies maze
    ensures View(maze) == Furnish(base, picks, [])
    ensures Distinct(left) && |left| == |available| - |picks|
    ensures forall p :: p in left <==> p in available && p !in picks
  {
    left := available;
    BoardsEqual(View(maze), Furnish(base, [], []));
    for k := 0 to |picks|
      invariant View(maze) == Furnish(base, picks[..k], [])
      invariant Distinct(left) && |left| == |available| - k
      invariant forall p :: p in left <==> p in available && p !in picks[..k]
    {
      var q := picks[k];
      assert picks[..k + 1] == picks[..k] + [q];
      assert q !in picks[..k];
      AddTreasure(base, picks[..k], q);
      SetCell(maze, q, Treasure);
      left := RemoveFirst(left, q);
    }
    assert picks[..|picks|] == picks;
  }

  /** The trap loop of `create_maze`: write a trap at each picked position. */
  method PlaceTraps(maze: array2<Cell>, ghost base: Board, ghost treasures: seq<Pos>, picks: seq<Pos>)
    requires View(maze) == Furnish(base, treasures, [])
    requires forall p :: p in picks ==> InBounds(base, p)
    modifies maze
    ensures View(maze) == Furnish(base, treasures, picks)
  {
    for k := 0 to |picks|
      invariant View(maze) == Furnish(base, treasures, picks[..k])
    {
      var q := picks[k];
      assert picks[..k + 1] == picks[..k] + [q];
      AddTrap(base, treasures, picks[..k], q);
      SetCell(maze, q, Trap);
    }
    assert picks[..|picks|] == picks;
  }

  /** The grid of the level with the player and the exit marked, built in
      place as `create_maze` builds it. */
  method LayoutGrid(level: int, open: (int, int) -> bool) returns (maze: array2<Cell>)
    requires 3 <= MazeHeight(level)
    ensures fresh(maze)
    ensures maze.Length0 == MazeHeight(level) && maze.Length1 == MazeWidth(level)
    ensures View(maze) == Layout(level, open)
  {
    var width, height := MazeWidth(level), MazeHeight(level);
    maze := CarveGrid(width, height, open);
    SetCell(maze, Pos(1, 1), Player);
    SetCell(maze, Pos(width - 2, height - 2), Exit);
  }

  /** The placement half of `create_maze`: the treasure quota, the
      treasures sampled from the available positions and written in, then
      the traps sampled from what is left and written in. */
  method PlaceItems(maze: array2<Cell>, ghost base: Board, level: int, available: seq<Pos>,
                    treasureDraws: seq<nat>, trapDraws: seq<nat>)
    returns (treasuresNeeded: int, ghost treasures: seq<Pos>, ghost traps: seq<Pos>)
    requires View(maze) == base
    requires Distinct(available) && forall p :: p in available ==> InBounds(base, p)
    modifies maze
    ensures treasuresNeeded == Min(5 + level, |available| - 3)
    ensures |treasures| <= |available| && treasures == Sample(available, |treasures|, treasureDraws)
    ensures Distinct(treasures) && Distinct(traps)
    ensures forall p :: p in treasures ==> p in available
    ensures forall p :: p in traps ==> p in available && p !in treasures
    ensures |treasures| == if treasuresNeeded > 0 then treasuresNeeded else 0
    ensures |traps| == if 3 + level > 0 then Min(3 + level, |available| - |treasures|) else 0
    ensures View(maze) == Furnish(base, treasures, traps)
  {
    var left := available;
    treasuresNeeded := Min(5 + level, |left| - 3);
    treasures := [];
    if |left| > 0 && treasuresNeeded > 0 {
      var picks := Sample(left, Min(treasuresNeeded, |left|), treasureDraws);
      left := PlaceTreasures(maze, base, left, picks);
      treasures := picks;
    } else {
      BoardsEqual(View(maze), Furnish(base, [], []));
    }

    var trapsToPlace := Min(3 + level, |left|);
    traps := [];
    if |left| > 0 && trapsToPlace > 0 {
      var picks := Sample(left, Min(trapsToPlace, |left|), trapDraws);
      PlaceTraps(maze, base, treasures, picks);
      traps := picks;
    }
  }

  /** `create_maze(level)`. The grid holds the level's layout with treasures
      and traps written over it; `accessible` is what the reachability
      search returned, `treasures` and `traps` the positions sampled. */
  method CreateMaze(level: int, open: (int, int) -> bool, treasureDraws: seq<nat>, trapDraws: seq<nat>)
    returns (maze: array2<Cell>, treasuresNeeded: int, width: int, height: int,
             ghost accessible: seq<Pos>, ghost treasures: seq<Pos>, ghost traps: seq<Pos>)
    requires 3 <= MazeHeight(level)
    ensures fresh(maze)
    ensures width == MazeWidth(level) && height == MazeHeight(level)
    ensures maze.Length0 == height && maze.Length1 == width
    ensures Distinct(accessible)
    ensures forall p :: p in accessible <==>
      InBounds(Layout(level, open), p) && At(Layout(level, open), p) == Path && Reachable(Layout(level, open), Pos(1, 1), p)
    ensures treasuresNeeded == Min(5 + level, |accessible| - 3)
    ensures |treasures| <= |accessible| && treasures == Sample(accessible, |treasures|, treasureDraws)
    ensures Distinct(treasures) && Distinct(traps)
    ensures forall p :: p in treasures ==> p in accessible
    ensures forall p :: p in traps ==> p in accessible && p !in treasures
    ensures forall p :: p in treasures || p in traps ==> p != Pos(1, 1) && p != ExitAt(level)
    ensures |treasures| == if treasuresNeeded > 0 then treasuresNeeded else 0
    ensures |traps| == if 3 + level > 0 then Min(3 + level, |accessible| - |treasures|) else 0
    ensures Placeable(level, open, treasures, traps)
    ensures View(maze) == Furnish(Layout(level, open), treasures, traps)
  {
    width := MazeWidth(level);
    height := MazeHeight(level);
    maze := LayoutGrid(level, open);
    ghost var layout := View(maze);

    var cells := Reach.FindConnectedAreas(maze, Pos(1, 1));
    accessible := cells;
    assert Pos(1, 1) !in cells && Pos(width - 2, height - 2) !in cells by {
      assert At(layout, Pos(1, 1)) == Player;
      assert At(layout, Pos(width - 2, height - 2)) == Exit;
    }
    var available := Without(cells, Pos(1, 1), Pos(width - 2, height - 2));
    assert available == accessible;
    treasuresNeeded, treasures, traps := PlaceItems(maze, layout, level, available, treasureDraws, trapDraws);
  }

  /** Stepping right along row `y` over non-wall cells keeps the cells
      reachable from `s`. */
  lemma {:induction false} AlongRow(b: Board, s: Pos, y: int, x0: int, x1: int)
    requires x0 <= x1 && Reachable(b, s, Pos(x0, y))
    requires forall x :: x0 <= x <= x1 ==> Open(b, Pos(x, y))
    ensures Reachable(b, s, Pos(x1, y))
    decreases x1 - x0
  {
    if x0 < x1 {
      AlongRow(b, s, y, x0, x1 - 1);
      assert Pos(x1, y) == Neighbors(Pos(x1 - 1, y))[1];
      ReachableStep(b, s, Pos(x1 - 1, y), Pos(x1, y));
    }
  }

  /** Stepping down column `x` over non-wall cells keeps the cells
      reachable from `s`. */
  lemma {:induction false} AlongColumn(b: Board, s: Pos, x: int, y0: int, y1: int)
    requires y0 <= y1 && Reachable(b, s, Pos(x, y0))
    requires forall y :: y0 <= y <= y1 ==> Open(b, Pos(x, y))
    ensures Reachable(b, s, Pos(x, y1))
    decreases y1 - y0
  {
    if y0 < y1 {
      AlongColumn(b, s, x, y0, y1 - 1);
      assert Pos(x, y1) == Neighbors(Pos(x, y1 - 1))[0];
      ReachableStep(b, s, Pos(x, y1 - 1), Pos(x, y1));
    }
  }

  /** Treasures and traps lie on path cells of the layout, and no trap
      shares a cell with a treasure. */
  ghost predicate Placeable(level: int, open: (int, int) -> bool, treasures: seq<Pos>, traps: seq<Pos>)
    requires 3 <= MazeHeight(level)
  {
    var layout := Layout(level, open);
    && (forall p :: p in treasures ==> InBounds(layout, p) && At(layout, p) == Path)
    && (forall p :: p in traps ==> InBounds(layout, p) && At(layout, p) == Path && p !in treasures)
  }

  /** The shape of every maze `create_maze` builds: walls all round the
      border, the player alone at (1, 1), the exit at (w - 2, h - 2), no wall
      in row 1 or in column w - 2 between them, and treasures and traps
      exactly where they were placed. */
  lemma FurnishedMaze(level: int, open: (int, int) -> bool, treasures: seq<Pos>, traps: seq<Pos>)
    requires 3 <= MazeHeight(level)
    requires Placeable(level, open, treasures, traps)
    ensures var b := Furnish(Layout(level, open), treasures, traps);
      && |b| == MazeHeight(level)
      && (forall p :: InBounds(b, p) && (p.x == 0 || p.y == 0 || p.x == MazeWidth(level) - 1 || p.y == MazeHeight(level) - 1) ==> At(b, p) == Wall)
      && OnlyPlayerAt(b, Pos(1, 1))
      && At(b, ExitAt(level)) == Exit
      && (forall p :: InBounds(b, p) && At(b, p) == Exit ==> p == ExitAt(level))
      && (forall p :: InBounds(b, p) ==> (At(b, p) == Treasure <==> p in treasures))
      && (forall p :: InBounds(b, p) ==> (At(b, p) == Trap <==> p in traps))
  {
    var layout := Layout(level, open);
    var b := Furnish(layout, treasures, traps);
    forall p | InBounds(b, p) && At(b, p) == Player
      ensures p == Pos(1, 1)
    {
      assert p !in treasures && p !in traps;
    }
  }

  /** Row 1 and column w - 2, from (1, 1) to the exit, hold no wall in any
      maze `create_maze` builds. */
  lemma FrameOpen(level: int, open: (int, int) -> bool, treasures: seq<Pos>, traps: seq<Pos>)
    requires 3 <= MazeHeight(level)
    ensures var b := Furnish(Layout(level, open), treasures, traps);
      && (forall p: Pos :: p.y == 1 && 1 <= p.x <= ExitAt(level).x ==> Open(b, p))
      && (forall p: Pos :: p.x == ExitAt(level).x && 1 <= p.y <= ExitAt(level).y ==> Open(b, p))
  {
    var layout := Layout(level, open);
    forall p: Pos | p.y == 1 && 1 <= p.x <= ExitAt(level).x
      ensures InBounds(layout, p)
    {
    }
    forall p: Pos | p.x == ExitAt(level).x && 1 <= p.y <= ExitAt(level).y
      ensures InBounds(layout, p)
    {
    }
  }

  /** The forced corridor joins the start to the exit in every maze
      `create_maze` builds, whatever the oracle opened and wherever the
      items went. */
  lemma ExitReachable(level: int, open: (int, int) -> bool, treasures: seq<Pos>, traps: seq<Pos>)
    requires 3 <= MazeHeight(level)
    ensures Reachable(Furnish(Layout(level, open), treasures, traps), Pos(1, 1), ExitAt(level))
  {
    var b := Furnish(Layout(level, open), treasures, traps);
    var w, h := MazeWidth(level), MazeHeight(level);
    FrameOpen(level, open, treasures, traps);
    ReachableSelf(b, Pos(1, 1));
    AlongRow(b, Pos(1, 1), 1, 1, w - 2);
    AlongColumn(b, Pos(1, 1), w - 2, 1, h - 2);
  }

  /** Distinct treasures written over a board that holds none leave exactly
      that many treasures on it. */
  lemma {:induction false} CountPlacedTreasures(base: Board, treasures: seq<Pos>)
    requires forall p :: InBounds(base, p) ==> At(base, p) != Treasure
    requires Distinct(treasures) && forall p :: p in treasures ==> InBounds(base, p)
    ensures Count(Furnish(base, treasures, []), Treasure) == |treasures|
    decreases |treasures|
  {
    if treasures == [] {
      BoardsEqual(Furnish(base, [], []), base);
      CountNone(base, Treasure);
    } else {
      var n := |treasures| - 1;
      var init, q := treasures[..n], treasures[n];
      assert treasures == init + [q];
      assert forall i :: 0 <= i < n ==> init[i] == treasures[i];
      assert q !in init;
      CountPlacedTreasures(base, init);
      AddTreasure(base, init, q);
      CountUpdate(Furnish(base, init, []), q, Treasure, Treasure);
    }
  }

  /** Traps written off the treasure cells of a board whose base holds no
      treasure leave the number of treasures as it was. */
  lemma {:induction false} TrapsKeepTreasures(base: Board, treasures: seq<Pos>, traps: seq<Pos>)
    requires forall p :: InBounds(base, p) ==> At(base, p) != Treasure
    requires forall p :: p in traps ==> InBounds(base, p) && p !in treasures
    ensures Count(Furnish(base, treasures, traps), Treasure) == Count(Furnish(base, treasures, []), Treasure)
    decreases |traps|
  {
    if traps != [] {
      var n := |traps| - 1;
      var init, q := traps[..n], traps[n];
      assert traps == init + [q];
      TrapsKeepTreasures(base, treasures, init);
      AddTrap(base, treasures, init, q);
      CountUpdate(Furnish(base, treasures, init), q, Trap, Treasure);
    }
  }

  /** A maze `create_maze` builds holds exactly as many treasures as it
      placed. */
  lemma TreasuresOnBoard(level: int, open: (int, int) -> bool, treasures: seq<Pos>, traps: seq<Pos>)
    requires 3 <= MazeHeight(level)
    requires Placeable(level, open, treasures, traps) && Distinct(treasures)
    ensures Count(Furnish(Layout(level, open), treasures, traps), Treasure) == |treasures|
  {
    var layout := Layout(level, open);
    CountPlacedTreasures(layout, treasures);
    TrapsKeepTreasures(layout, treasures, traps);
  }
}
