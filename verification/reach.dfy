/** The reachability search of game.py: a breadth-first search from a start
    cell over 4-neighbours that steps onto any non-wall cell and collects the
    path cells it meets. */
module Reach {
  import opened Grid

  /** The cells of the grid, as positions. */
  ghost function AllCells(b: Board): set<Pos> {
    set y, x | 0 <= y < |b| && 0 <= x < |b[y]| :: Pos(x, y)
  }

  lemma InAllCells(b: Board, p: Pos)
    requires InBounds(b, p)
    ensures p in AllCells(b)
  {
    assert p == Pos(p.x, p.y);
  }

  /** The number of cells the search has not visited yet. */
  ghost function Unvisited(b: Board, visited: set<Pos>): nat {
    |AllCells(b) - visited|
  }

  /** Marking one more in-bounds cell visited leaves fewer cells unvisited. */
  lemma FewerUnvisited(b: Board, visited: set<Pos>, p: Pos)
    requires InBounds(b, p) && p !in visited
    ensures Unvisited(b, visited + {p}) < Unvisited(b, visited)
  {
    InAllCells(b, p);
    assert AllCells(b) - (visited + {p}) == (AllCells(b) - visited) - {p};
  }

  /** Every visited or queued cell is reachable from the start, and the start
      is visited or queued. */
  ghost predicate Sound(b: Board, start: Pos, visited: set<Pos>, queue: seq<Pos>) {
    && (forall v :: v in visited ==> InBounds(b, v) && Reachable(b, start, v))
    && (forall q :: q in queue ==> InBounds(b, q) && Reachable(b, start, q))
    && (start in visited || start in queue)
  }

  /** Every open neighbour of a visited cell is visited or queued. */
  ghost predicate Closed(b: Board, visited: set<Pos>, queue: seq<Pos>) {
    forall v, n :: v in visited && n in Neighbors(v) && Open(b, n) ==> n in visited || n in queue
  }

  /** The collected cells are exactly the visited path cells, each once. */
  ghost predicate Collected(b: Board, visited: set<Pos>, cells: seq<Pos>) {
    && Distinct(cells)
    && (forall p :: p in cells <==> p in visited && InBounds(b, p) && At(b, p) == Path)
  }

  /** What holds of the search before each turn of its loop. */
  ghost predicate SearchState(b: Board, start: Pos, visited: set<Pos>, queue: seq<Pos>, cells: seq<Pos>) {
    Sound(b, start, visited, queue) && Closed(b, visited, queue) && Collected(b, visited, cells)
  }

  /** The inner loop of the search: append to the queue, in direction order,
      every neighbour of `p` that lies inside the grid, is not a wall and has
      not been visited. */
  method EnqueueNeighbors(maze: array2<Cell>, p: Pos, visited: set<Pos>, queue: seq<Pos>)
    returns (queue': seq<Pos>)
    ensures queue <= queue'
    ensures forall q :: q in queue ==> q in queue'
    ensures forall q :: q in queue' ==> q in queue || (q in Neighbors(p) && Open(View(maze), q) && q !in visited)
    ensures forall n :: n in Neighbors(p) && Open(View(maze), n) && n !in visited ==> n in queue'
  {
    var directions := Neighbors(p);
    queue' := queue;
    for k := 0 to 4
      invariant queue <= queue'
      invariant forall q :: q in queue ==> q in queue'
      invariant forall q :: q in queue' ==> q in queue || (q in directions && Open(View(maze), q) && q !in visited)
      invariant forall j :: 0 <= j < k && Open(View(maze), directions[j]) && directions[j] !in visited ==> directions[j] in queue'
    {
      var n := directions[k];
      if 0 <= n.x < maze.Length1 && 0 <= n.y < maze.Length0 && maze[n.y, n.x] != Wall && n !in visited {
        queue' := queue' + [n];
      }
    }
  }

  /** Popping a cell that was visited already keeps the search state. */
  lemma SkipKeepsState(b: Board, start: Pos, visited: set<Pos>, queue: seq<Pos>, cells: seq<Pos>)
    requires queue != [] && queue[0] in visited
    requires SearchState(b, start, visited, queue, cells)
    ensures SearchState(b, start, visited, queue[1..], cells)
  {
    assert forall q :: q in queue ==> q == queue[0] || q in queue[1..];
  }

  /** Visiting the unvisited head `p` of the queue keeps the search state,
      once `cells'` has collected `p` if it is a path cell and `queue'` has
      gained `p`'s unvisited open neighbours. */
  lemma VisitKeepsState(b: Board, start: Pos, visited: set<Pos>, queue: seq<Pos>, cells: seq<Pos>,
                        queue': seq<Pos>, cells': seq<Pos>)
    requires queue != [] && queue[0] !in visited
    requires SearchState(b, start, visited, queue, cells)
    requires cells' == if At(b, queue[0]) == Path then cells + [queue[0]] else cells
    requires forall q :: q in queue[1..] ==> q in queue'
    requires forall q :: q in queue' ==> q in queue[1..] || (q in Neighbors(queue[0]) && Open(b, q))
    requires forall n :: n in Neighbors(queue[0]) && Open(b, n) && n !in visited + {queue[0]} ==> n in queue'
    ensures SearchState(b, start, visited + {queue[0]}, queue', cells')
  {
    var p := queue[0];
    assert forall q :: q in queue ==> q == p || q in queue[1..];
    VisitKeepsSound(b, start, visited, queue, queue');
    VisitKeepsClosed(b, visited, queue, queue');
    assert p !in cells;
  }

  lemma VisitKeepsSound(b: Board, start: Pos, visited: set<Pos>, queue: seq<Pos>, queue': seq<Pos>)
    requires queue != [] && Sound(b, start, visited, queue)
    requires forall q :: q in queue ==> q == queue[0] || q in queue[1..]
    requires forall q :: q in queue' ==> q in queue[1..] || (q in Neighbors(queue[0]) && Open(b, q))
    requires forall q :: q in queue[1..] ==> q in queue'
    ensures Sound(b, start, visited + {queue[0]}, queue')
  {
    var p := queue[0];
    forall q | q in queue'
      ensures InBounds(b, q) && Reachable(b, start, q)
    {
      if q !in queue[1..] {
        ReachableStep(b, start, p, q);
      }
    }
  }

  lemma VisitKeepsClosed(b: Board, visited: set<Pos>, queue: seq<Pos>, queue': seq<Pos>)
    requires queue != [] && Closed(b, visited, queue)
    requires forall q :: q in queue ==> q == queue[0] || q in queue[1..]
    requires forall q :: q in queue[1..] ==> q in queue'
    requires forall n :: n in Neighbors(queue[0]) && Open(b, n) && n !in visited + {queue[0]} ==> n in queue'
    ensures Closed(b, visited + {queue[0]}, queue')
  {
    var p := queue[0];
    forall v, n | v in visited + {p} && n in Neighbors(v) && Open(b, n)
      ensures n in visited + {p} || n in queue'
    {
      if v != p {
        assert n in visited || n in queue;
      }
    }
  }

  /** One turn of the search loop: pop the head of the queue; skip it if it
      was visited already; otherwise mark it visited, collect it if it is a
      path cell, and queue its unvisited open neighbours. */
  method VisitNext(maze: array2<Cell>, ghost b: Board, ghost start: Pos, visited: set<Pos>, queue: seq<Pos>, cells: seq<Pos>)
    returns (visited': set<Pos>, queue': seq<Pos>, cells': seq<Pos>)
    requires b == View(maze) && queue != []
    requires SearchState(b, start, visited, queue, cells)
    ensures SearchState(b, start, visited', queue', cells')
    ensures visited' == visited + {queue[0]}
    ensures Unvisited(b, visited') < Unvisited(b, visited) || (visited' == visited && |queue'| < |queue|)
  {
    var p := queue[0];
    queue' := queue[1..];
    if p in visited {
      visited', cells' := visited, cells;
      SkipKeepsState(b, start, visited, queue, cells);
      return;
    }
    visited' := visited + {p};
    FewerUnvisited(b, visited, p);
    cells' := cells;
    if maze[p.y, p.x] == Path {
      cells' := cells + [p];
    }
    queue' := EnqueueNeighbors(maze, p, visited', queue');
    VisitKeepsState(b, start, visited, queue, cells, queue', cells');
  }

  /** The state the search starts from: nothing visited, the start queued. */
  lemma StartState(b: Board, start: Pos)
    requires InBounds(b, start)
    ensures SearchState(b, start, {}, [start], [])
  {
    ReachableSelf(b, start);
  }

  /** Once the queue is empty, the collected cells are exactly the path
      cells reachable from the start. */
  lemma {:induction false} FinishedSearch(b: Board, start: Pos, visited: set<Pos>, cells: seq<Pos>)
    requires SearchState(b, start, visited, [], cells)
    ensures Distinct(cells)
    ensures forall p :: p in cells <==> InBounds(b, p) && At(b, p) == Path && Reachable(b, start, p)
  {
    forall t | InBounds(b, t) && At(b, t) == Path && Reachable(b, start, t)
      ensures t in visited
    {
      var w :| IsWalk(b, w) && w[0] == start && w[|w| - 1] == t;
      ClosedSetHoldsWalkEnd(b, w, visited);
    }
  }

  /** `find_connected_areas`: the path cells joined to `start` by a chain of
      non-wall 4-neighbours, each listed once, in the order the search meets
      them. The grid is only read. */
  method FindConnectedAreas(maze: array2<Cell>, start: Pos) returns (cells: seq<Pos>)
    requires 0 <= start.y < maze.Length0 && 0 <= start.x < maze.Length1
    ensures Distinct(cells)
    ensures forall p :: p in cells <==>
      InBounds(View(maze), p) && At(View(maze), p) == Path && Reachable(View(maze), start, p)
  {
    ghost var b := View(maze);
    var visited: set<Pos> := {};
    var queue := [start];
    cells := [];
    StartState(b, start);
    while queue != []
      invariant SearchState(b, start, visited, queue, cells)
      decreases Unvisited(b, visited), |queue|
    {
      visited, queue, cells := VisitNext(maze, b, start, visited, queue, cells);
    }
    FinishedSearch(b, start, visited, cells);
  }
}
