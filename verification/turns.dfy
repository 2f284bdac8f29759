/** The turn engine of game.py: locating the player, folding a batch of move
    tokens over the grid and the player's counters, and the win test and
    score that the game loop applies afterwards. */
module Turns {
  import opened Grid
  import opened Maze

  /** `p` comes no later than `q` in a row-major scan. */
  predicate RowMajorLe(p: Pos, q: Pos) {
    p.y < q.y || (p.y == q.y && p.x <= q.x)
  }

  /** `p` is the first player cell a row-major scan of `b` meets. */
  ghost predicate FirstPlayer(b: Board, p: Pos) {
    && InBounds(b, p)
    && At(b, p) == Player
    && forall q :: InBounds(b, q) && At(b, q) == Player ==> RowMajorLe(p, q)
  }

  /** The first player cell is unique. */
  lemma FirstPlayerUnique(b: Board, p: Pos, q: Pos)
    requires FirstPlayer(b, p) && FirstPlayer(b, q)
    ensures p == q
  {
    assert RowMajorLe(p, q) && RowMajorLe(q, p);
  }

  /** A lone player is the first one. */
  lemma OnlyPlayerIsFirst(b: Board, p: Pos)
    requires OnlyPlayerAt(b, p)
    ensures FirstPlayer(b, p)
  {
  }

  /** `find_player`: scan the rows top to bottom, each left to right, and
      return the first player cell, or nothing when there is none. */
  method FindPlayer(maze: array2<Cell>) returns (r: Option<Pos>)
    ensures r.Some? ==> FirstPlayer(View(maze), r.value)
    ensures r.None? <==> forall p :: InBounds(View(maze), p) ==> At(View(maze), p) != Player
  {
    for y := 0 to maze.Length0
      invariant forall j, i :: 0 <= j < y && 0 <= i < maze.Length1 ==> maze[j, i] != Player
    {
      for x := 0 to maze.Length1
        invariant forall j, i :: 0 <= j <= y && 0 <= i < maze.Length1 && (j < y || i < x) ==> maze[j, i] != Player
      {
        if maze[y, x] == Player {
          return Some(Pos(x, y));
        }
      }
    }
    return None;
  }

  /** The player's side of the game during a batch: the board, where the
      player stands, and the three counters. */
  datatype Play = Play(board: Board, at: Pos, found: int, health: int, moves: int)

  /** What one token does: the batch goes on, or it ends here. */
  datatype Outcome = Continue(state: Play) | Halt(state: Play)

  predicate IsMove(c: char) {
    c == 'W' || c == 'S' || c == 'A' || c == 'D'
  }

  /** The cell a move token aims at: W up, S down, A left, D right. */
  function Toward(p: Pos, c: char): (n: Pos)
    requires IsMove(c)
    ensures n in Neighbors(p)
  {
    match c
    case 'W' => Pos(p.x, p.y - 1)
    case 'S' => Pos(p.x, p.y + 1)
    case 'A' => Pos(p.x - 1, p.y)
    case 'D' => Pos(p.x + 1, p.y)
  }

  /** The player leaves a path cell behind and stands on `n`; the counters
      are not touched. The cells it changes are given by `MoveToCells`. */
  function MoveTo(s: Play, n: Pos): (r: Play)
    requires InBounds(s.board, s.at) && InBounds(s.board, n)
    ensures r.at == n && SameShape(r.board, s.board)
    ensures r.found == s.found && r.health == s.health && r.moves == s.moves
  {
    s.(board := Set(Set(s.board, s.at, Path), n, Player), at := n)
  }

  /** One token of `process_movement_sequence`. A token that is not a move
      is skipped. A move into the border or a wall costs 5 health and ends
      the batch. Any other move counts; then a treasure is collected, a trap
      costs 15 health and, when that leaves none, ends the batch before the
      player moves; the exit ends the batch, with the player moved onto it
      only when enough treasures were found. */
  function Step(s: Play, needed: int, c: char): (r: Outcome)
    requires InBounds(s.board, s.at)
    ensures SameShape(r.state.board, s.board) && InBounds(r.state.board, r.state.at)
    ensures r.state.at == s.at || r.state.at in Neighbors(s.at)
    ensures s.found <= r.state.found <= s.found + 1
    ensures r.state.health <= s.health
    ensures s.moves <= r.state.moves <= s.moves + 1
    ensures r.state.found - s.found <= r.state.moves - s.moves
  {
    if !IsMove(c) then Continue(s)
    else
      var n := Toward(s.at, c);
      if !Open(s.board, n) then Halt(s.(health := s.health - 5))
      else
        var t := s.(moves := s.moves + 1);
        var target := At(s.board, n);
        if target == Treasure then Continue(MoveTo(t.(found := t.found + 1), n))
        else if target == Trap then
          if t.health - 15 <= 0 then Halt(t.(health := t.health - 15))
          else Continue(MoveTo(t.(health := t.health - 15), n))
        else if target == Exit then
          if t.found < needed then Halt(t) else Halt(MoveTo(t, n))
        else Continue(MoveTo(t, n))
  }

  /** The whole batch: the tokens in order until one ends it. */
  function Run(s: Play, needed: int, tokens: seq<char>): (r: Play)
    requires InBounds(s.board, s.at)
    ensures SameShape(r.board, s.board) && InBounds(r.board, r.at)
    decreases |tokens|
  {
    if tokens == [] then s
    else
      match Step(s, needed, tokens[0])
      case Continue(t) => Run(t, needed, tokens[1..])
      case Halt(t) => t
  }

  /** The two writes that move the player: its old cell becomes path, the
      target holds the player. */
  method MovePlayer(maze: array2<Cell>, from: Pos, to: Pos)
    requires 0 <= from.y < maze.Length0 && 0 <= from.x < maze.Length1
    requires 0 <= to.y < maze.Length0 && 0 <= to.x < maze.Length1
    modifies maze
    ensures View(maze) == Set(Set(old(View(maze)), from, Path), to, Player)
  {
    SetCell(maze, from, Path);
    SetCell(maze, to, Player);
  }

  /** One pass of the loop of `process_movement_sequence`, on the grid in
      place and the loop's variables; `stop` says the loop breaks here. */
  method ApplyToken(maze: array2<Cell>, px: int, py: int, found: int, hp: int, count: int,
                    treasuresNeeded: int, move: char)
    returns (px': int, py': int, found': int, hp': int, count': int, stop: bool)
    requires 0 <= py < maze.Length0 && 0 <= px < maze.Length1
    modifies maze
    ensures var r := Step(Play(old(View(maze)), Pos(px, py), found, hp, count), treasuresNeeded, move);
      && Play(View(maze), Pos(px', py'), found', hp', count') == r.state
      && stop == r.Halt?
  {
    ghost var s := Play(View(maze), Pos(px, py), found, hp, count);
    px', py', found', hp', count', stop := px, py, found, hp, count, false;
    if !IsMove(move) {
      return;
    }
    var n := Toward(Pos(px, py), move);
    var nx, ny := n.x, n.y;
    if 0 <= nx < maze.Length1 && 0 <= ny < maze.Length0 && maze[ny, nx] != Wall {
      assert Open(s.board, n);
      ghost var t := s.(moves := s.moves + 1);
      count' := count + 1;
      var target := maze[ny, nx];
      assert target == At(s.board, n);
      if target == Treasure {
        found' := found + 1;
        assert Step(s, treasuresNeeded, move) == Continue(MoveTo(t.(found := found'), n));
      } else if target == Trap {
        hp' := hp - 15;
        if hp' <= 0 {
          stop := true;
          assert Step(s, treasuresNeeded, move) == Halt(t.(health := hp'));
          return;
        }
        assert Step(s, treasuresNeeded, move) == Continue(MoveTo(t.(health := hp'), n));
      } else if target == Exit {
        stop := true;
        if found < treasuresNeeded {
          assert Step(s, treasuresNeeded, move) == Halt(t);
          return;
        }
        assert Step(s, treasuresNeeded, move) == Halt(MoveTo(t, n));
      } else {
        assert Step(s, treasuresNeeded, move) == Continue(MoveTo(t, n));
      }
      MovePlayer(maze, Pos(px, py), n);
      px', py' := nx, ny;
    } else {
      // Both outcomes of the health test end the batch.
      hp' := hp - 5;
      stop := true;
      assert Step(s, treasuresNeeded, move) == Halt(s.(health := hp'));
    }
  }

  /** `process_movement_sequence`: find the player, then apply the tokens
      one by one to the grid in place and to the counters, stopping where a
      token ends the batch. The grid must hold a player. */
  method ProcessMovementSequence(maze: array2<Cell>, moveSequence: string,
                                 treasuresFound: int, treasuresNeeded: int, health: int, moves: int)
    returns (found: int, hp: int, count: int)
    requires exists p :: InBounds(View(maze), p) && At(View(maze), p) == Player
    modifies maze
    ensures exists p :: FirstPlayer(old(View(maze)), p)
    ensures forall p :: FirstPlayer(old(View(maze)), p) ==>
      var r := Run(Play(old(View(maze)), p, treasuresFound, health, moves), treasuresNeeded, moveSequence);
      View(maze) == r.board && found == r.found && hp == r.health && count == r.moves
  {
    var start := FindPlayer(maze);
    var px, py := start.value.x, start.value.y;
    found, hp, count := treasuresFound, health, moves;
    ghost var final := Run(Play(View(maze), start.value, found, hp, count), treasuresNeeded, moveSequence);
    forall p | FirstPlayer(View(maze), p)
      ensures p == start.value
    {
      FirstPlayerUnique(View(maze), p, start.value);
    }
    assert FirstPlayer(View(maze), start.value);
    for i := 0 to |moveSequence|
      invariant 0 <= py < maze.Length0 && 0 <= px < maze.Length1
      invariant final == Run(Play(View(maze), Pos(px, py), found, hp, count), treasuresNeeded, moveSequence[i..])
    {
      assert moveSequence[i..][0] == moveSequence[i] && moveSequence[i..][1..] == moveSequence[i + 1..];
      var stop;
      px, py, found, hp, count, stop := ApplyToken(maze, px, py, found, hp, count, treasuresNeeded, moveSequence[i]);
      if stop {
        break;
      }
    }
  }

  /** The player marker stands where the engine believes the player is. */
  ghost predicate PlayerAt(s: Play) {
    InBounds(s.board, s.at) && At(s.board, s.at) == Player
  }

  /** What moving the player does to the board: the old cell becomes path,
      the target holds the player, every other cell is as it was. */
  lemma MoveToCells(s: Play, n: Pos)
    requires InBounds(s.board, s.at) && InBounds(s.board, n) && n != s.at
    ensures SameShape(MoveTo(s, n).board, s.board)
    ensures At(MoveTo(s, n).board, s.at) == Path && At(MoveTo(s, n).board, n) == Player
    ensures forall q :: InBounds(s.board, q) && q != s.at && q != n ==> At(MoveTo(s, n).board, q) == At(s.board, q)
  {
  }

  /** A step either leaves the board alone or moves the player onto the
      open neighbour it aimed at, which is then neither a wall nor, unless
      the batch ends there, the exit. */
  lemma StepShape(s: Play, needed: int, c: char)
    requires InBounds(s.board, s.at)
    ensures var r := Step(s, needed, c).state;
      || (r.board == s.board && r.at == s.at)
      || (&& IsMove(c) && r.at == Toward(s.at, c) && Open(s.board, r.at)
          && r == MoveTo(r.(board := s.board, at := s.at), r.at)
          && (At(s.board, r.at) == Exit ==> Step(s, needed, c).Halt? && r.found >= needed))
  {
  }

  /** A step keeps the player marker on the player's cell. */
  lemma StepKeepsPlayerAt(s: Play, needed: int, c: char)
    requires PlayerAt(s)
    ensures PlayerAt(Step(s, needed, c).state)
  {
    StepShape(s, needed, c);
    var r := Step(s, needed, c).state;
    if r.at != s.at {
      MoveToCells(r.(board := s.board, at := s.at), r.at);
    }
  }

  /** A step keeps exactly one player marker on the board. */
  lemma StepKeepsOnePlayer(s: Play, needed: int, c: char)
    requires OnlyPlayerAt(s.board, s.at)
    ensures OnlyPlayerAt(Step(s, needed, c).state.board, Step(s, needed, c).state.at)
  {
    StepShape(s, needed, c);
    var r := Step(s, needed, c).state;
    if r.at != s.at {
      MoveToCells(r.(board := s.board, at := s.at), r.at);
    }
  }

  /** A batch keeps exactly one player marker on the board, at the
      player's position. */
  lemma {:induction false} RunKeepsOnePlayer(s: Play, needed: int, tokens: seq<char>)
    requires OnlyPlayerAt(s.board, s.at)
    ensures OnlyPlayerAt(Run(s, needed, tokens).board, Run(s, needed, tokens).at)
    decreases |tokens|
  {
    if tokens != [] {
      StepKeepsOnePlayer(s, needed, tokens[0]);
      if Step(s, needed, tokens[0]).Continue? {
        RunKeepsOnePlayer(Step(s, needed, tokens[0]).state, needed, tokens[1..]);
      }
    }
  }

  /** Across a batch, treasures found never decrease, health never rises,
      moves count at most one per token, and every treasure found cost a
      move. */
  lemma {:induction false} RunCounters(s: Play, needed: int, tokens: seq<char>)
    requires InBounds(s.board, s.at)
    ensures var r := Run(s, needed, tokens);
      && s.found <= r.found
      && r.health <= s.health
      && s.moves <= r.moves <= s.moves + |tokens|
      && r.found - s.found <= r.moves - s.moves
    decreases |tokens|
  {
    if tokens != [] && Step(s, needed, tokens[0]).Continue? {
      RunCounters(Step(s, needed, tokens[0]).state, needed, tokens[1..]);
    }
  }

  /** An accepted step, a move onto an open cell, counts exactly one move;
      any other token counts none. */
  lemma StepMoves(s: Play, needed: int, c: char)
    requires InBounds(s.board, s.at)
    ensures Step(s, needed, c).state.moves
         == s.moves + (if IsMove(c) && Open(s.board, Toward(s.at, c)) then 1 else 0)
  {
  }

  /** How many tokens of a batch are accepted steps, up to the token that
      ends it: the moves the batch should count. */
  function AcceptedSteps(s: Play, needed: int, tokens: seq<char>): (n: nat)
    requires InBounds(s.board, s.at)
    ensures n <= |tokens|
    decreases |tokens|
  {
    if tokens == [] then 0
    else
      var k := if IsMove(tokens[0]) && Open(s.board, Toward(s.at, tokens[0])) then 1 else 0;
      match Step(s, needed, tokens[0])
      case Continue(t) => k + AcceptedSteps(t, needed, tokens[1..])
      case Halt(_) => k
  }

  /** A batch counts exactly one move per accepted step. */
  lemma {:induction false} RunMoves(s: Play, needed: int, tokens: seq<char>)
    requires InBounds(s.board, s.at)
    ensures Run(s, needed, tokens).moves == s.moves + AcceptedSteps(s, needed, tokens)
    decreases |tokens|
  {
    if tokens != [] {
      StepMoves(s, needed, tokens[0]);
      if Step(s, needed, tokens[0]).Continue? {
        RunMoves(Step(s, needed, tokens[0]).state, needed, tokens[1..]);
      }
    }
  }

  /** A batch never adds or removes a wall. */
  lemma {:induction false} RunKeepsWalls(s: Play, needed: int, tokens: seq<char>)
    requires PlayerAt(s)
    ensures PlayerAt(Run(s, needed, tokens))
    ensures forall p :: InBounds(s.board, p) ==> (At(Run(s, needed, tokens).board, p) == Wall <==> At(s.board, p) == Wall)
    decreases |tokens|
  {
    if tokens != [] {
      var o := Step(s, needed, tokens[0]);
      StepShape(s, needed, tokens[0]);
      StepKeepsPlayerAt(s, needed, tokens[0]);
      if o.state.at != s.at {
        MoveToCells(o.state.(board := s.board, at := s.at), o.state.at);
      }
      if o.Continue? {
        RunKeepsWalls(o.state, needed, tokens[1..]);
      }
    }
  }

  /** A batch changes no wall, so it changes no connection between cells:
      one cell reaches another after the batch exactly when it did before. */
  lemma RunKeepsReachable(s: Play, needed: int, tokens: seq<char>, a: Pos, t: Pos)
    requires PlayerAt(s)
    ensures Reachable(s.board, a, t) <==> Reachable(Run(s, needed, tokens).board, a, t)
  {
    var b := Run(s, needed, tokens).board;
    RunKeepsWalls(s, needed, tokens);
    if Reachable(s.board, a, t) {
      var w :| IsWalk(s.board, w) && w[0] == a && w[|w| - 1] == t;
      WalkSurvives(s.board, b, w);
    }
    if Reachable(b, a, t) {
      var w :| IsWalk(b, w) && w[0] == a && w[|w| - 1] == t;
      WalkSurvives(b, s.board, w);
    }
  }

  /** A treasure leaves the board only when it is counted as found: treasures
      found plus treasures on the board stay the same across a step. */
  lemma StepConservesTreasure(s: Play, needed: int, c: char)
    requires PlayerAt(s)
    ensures var r := Step(s, needed, c).state;
      r.found + Count(r.board, Treasure) == s.found + Count(s.board, Treasure)
  {
    StepShape(s, needed, c);
    var r := Step(s, needed, c).state;
    if r.at != s.at {
      var mid := Set(s.board, s.at, Path);
      CountUpdate(s.board, s.at, Path, Treasure);
      CountUpdate(mid, r.at, Player, Treasure);
      assert At(mid, r.at) == At(s.board, r.at);
    }
  }

  /** Across a batch, treasures found plus treasures left on the board stay
      the same. */
  lemma {:induction false} RunConservesTreasure(s: Play, needed: int, tokens: seq<char>)
    requires PlayerAt(s)
    ensures var r := Run(s, needed, tokens);
      r.found + Count(r.board, Treasure) == s.found + Count(s.board, Treasure)
    decreases |tokens|
  {
    if tokens != [] {
      StepConservesTreasure(s, needed, tokens[0]);
      StepKeepsPlayerAt(s, needed, tokens[0]);
      if Step(s, needed, tokens[0]).Continue? {
        RunConservesTreasure(Step(s, needed, tokens[0]).state, needed, tokens[1..]);
      }
    }
  }

  /** The player stands on the exit after a batch only if enough treasures
      were found: the only step onto the exit is the one that checks them. */
  lemma {:induction false} ExitNeedsTreasures(s: Play, needed: int, tokens: seq<char>, e: Pos)
    requires PlayerAt(s) && InBounds(s.board, e) && At(s.board, e) == Exit
    ensures Run(s, needed, tokens).at == e ==> Run(s, needed, tokens).found >= needed
    decreases |tokens|
  {
    if tokens != [] {
      var o := Step(s, needed, tokens[0]);
      StepShape(s, needed, tokens[0]);
      StepKeepsPlayerAt(s, needed, tokens[0]);
      if o.Continue? && o.state.at != s.at {
        MoveToCells(o.state.(board := s.board, at := s.at), o.state.at);
        ExitNeedsTreasures(o.state, needed, tokens[1..], e);
      } else if o.Continue? {
        ExitNeedsTreasures(o.state, needed, tokens[1..], e);
      }
    }
  }

  /** A token that is not a move is skipped. */
  lemma IgnoredToken(s: Play, needed: int, c: char, rest: seq<char>)
    requires InBounds(s.board, s.at) && !IsMove(c)
    ensures Run(s, needed, [c] + rest) == Run(s, needed, rest)
  {
    assert ([c] + rest)[1..] == rest;
  }

  /** A move into the border or a wall costs exactly 5 health, changes
      nothing else, and ends the batch whatever tokens follow. */
  lemma BlockedMoveEndsBatch(s: Play, needed: int, c: char, rest: seq<char>)
    requires InBounds(s.board, s.at) && IsMove(c) && !Open(s.board, Toward(s.at, c))
    ensures Run(s, needed, [c] + rest) == s.(health := s.health - 5)
  {
  }

  /** A trap that leaves no health ends the batch with the move counted, 15
      health lost, and the player and the board unchanged. */
  lemma LethalTrapEndsBatch(s: Play, needed: int, c: char, rest: seq<char>)
    requires InBounds(s.board, s.at) && IsMove(c) && Open(s.board, Toward(s.at, c))
    requires At(s.board, Toward(s.at, c)) == Trap && s.health <= 15
    ensures Run(s, needed, [c] + rest) == s.(moves := s.moves + 1, health := s.health - 15)
  {
  }

  /** Walking into the exit too early ends the batch with the move counted
      and the player and the board unchanged. */
  lemma ExitBlockedEndsBatch(s: Play, needed: int, c: char, rest: seq<char>)
    requires InBounds(s.board, s.at) && IsMove(c) && Open(s.board, Toward(s.at, c))
    requires At(s.board, Toward(s.at, c)) == Exit && s.found < needed
    ensures Run(s, needed, [c] + rest) == s.(moves := s.moves + 1)
  {
  }

  /** With enough treasures, walking into the exit puts the player on it and
      ends the batch. */
  lemma ExitReachedEndsBatch(s: Play, needed: int, c: char, rest: seq<char>)
    requires InBounds(s.board, s.at) && IsMove(c) && Open(s.board, Toward(s.at, c))
    requires At(s.board, Toward(s.at, c)) == Exit && s.found >= needed
    ensures Run(s, needed, [c] + rest) == MoveTo(s.(moves := s.moves + 1), Toward(s.at, c))
  {
  }

  /** A treasure is collected on the way: one more found, one more move, the
      player moved onto it, and the batch goes on. */
  lemma TreasureCollected(s: Play, needed: int, c: char, rest: seq<char>)
    requires InBounds(s.board, s.at) && IsMove(c) && Open(s.board, Toward(s.at, c))
    requires At(s.board, Toward(s.at, c)) == Treasure
    ensures Run(s, needed, [c] + rest)
         == Run(MoveTo(s.(moves := s.moves + 1, found := s.found + 1), Toward(s.at, c)), needed, rest)
  {
    assert ([c] + rest)[1..] == rest;
  }

  /** Walking onto a plain path cell counts the move, moves the player, and
      the batch goes on. */
  lemma PathStep(s: Play, needed: int, c: char, rest: seq<char>)
    requires InBounds(s.board, s.at) && IsMove(c) && Open(s.board, Toward(s.at, c))
    requires At(s.board, Toward(s.at, c)) == Path
    ensures Run(s, needed, [c] + rest)
         == Run(MoveTo(s.(moves := s.moves + 1), Toward(s.at, c)), needed, rest)
  {
    assert ([c] + rest)[1..] == rest;
  }

  /** A trap the player survives counts the move, costs 15 health, moves the
      player onto it, and the batch goes on. */
  lemma SurvivedTrap(s: Play, needed: int, c: char, rest: seq<char>)
    requires InBounds(s.board, s.at) && IsMove(c) && Open(s.board, Toward(s.at, c))
    requires At(s.board, Toward(s.at, c)) == Trap && s.health > 15
    ensures Run(s, needed, [c] + rest)
         == Run(MoveTo(s.(moves := s.moves + 1, health := s.health - 15), Toward(s.at, c)), needed, rest)
  {
    var t := MoveTo(s.(moves := s.moves + 1, health := s.health - 15), Toward(s.at, c));
    assert Step(s, needed, c) == Continue(t);
    assert ([c] + rest)[1..] == rest;
  }

  /** The win test of the game loop: the player is on the exit cell
      (w - 2, h - 2) and enough treasures were found. */
  predicate Won(player: Pos, width: int, height: int, found: int, needed: int)
    ensures Won(player, width, height, found, needed) ==> found >= needed
    ensures Won(player, width, height, found, needed) ==> player.x == width - 2 && player.y == height - 2
  {
    player == Pos(width - 2, height - 2) && found >= needed
  }

  /** A batch that ends with the player on the exit wins the level. */
  lemma ReachingExitWins(s: Play, needed: int, tokens: seq<char>, width: int, height: int)
    requires PlayerAt(s)
    requires InBounds(s.board, Pos(width - 2, height - 2)) && At(s.board, Pos(width - 2, height - 2)) == Exit
    ensures var r := Run(s, needed, tokens);
      r.at == Pos(width - 2, height - 2) <==> Won(r.at, width, height, r.found, needed)
  {
    ExitNeedsTreasures(s, needed, tokens, Pos(width - 2, height - 2));
  }

  /** The reward for a won level: ten points per health point, a bonus that
      shrinks by one per move, and fifty points per level. */
  function Score(health: int, moves: int, level: int): (r: int)
    ensures 0 <= moves ==> r <= health * 10 + 100 + level * 50
    ensures moves <= 100 ==> r >= health * 10 + level * 50
    ensures 0 < health && moves <= 100 && 0 <= level ==> r > 0
  {
    (health * 10) + (100 - moves) + (level * 50)
  }

  /** Playing a batch can only lower the score a later win would earn. */
  lemma BatchNeverRaisesScore(s: Play, needed: int, tokens: seq<char>, level: int)
    requires InBounds(s.board, s.at)
    ensures var r := Run(s, needed, tokens);
      Score(r.health, r.moves, level) <= Score(s.health, s.moves, level)
  {
    RunCounters(s, needed, tokens);
  }

  /** A level as `create_maze` deals it and the game loop starts it (no
      treasure found, full health, no move yet), after any batch: one player
      marker at the player's position, no wall added or removed, every
      placed treasure either found or still on the board, and the player on
      the exit exactly when the level is won; a level won with the quota
      equal to the treasures placed has none left on the board. */
  lemma FreshLevelBatch(level: int, open: (int, int) -> bool, treasures: seq<Pos>, traps: seq<Pos>,
                        needed: int, tokens: seq<char>)
    requires 3 <= MazeHeight(level) && Placeable(level, open, treasures, traps) && Distinct(treasures)
    ensures var b := Furnish(Layout(level, open), treasures, traps);
      var r := Run(Play(b, Pos(1, 1), 0, 100, 0), needed, tokens);
      && OnlyPlayerAt(r.board, r.at)
      && (forall p :: InBounds(b, p) ==> (At(r.board, p) == Wall <==> At(b, p) == Wall))
      && r.found + Count(r.board, Treasure) == |treasures|
      && (r.at == ExitAt(level) <==> Won(r.at, MazeWidth(level), MazeHeight(level), r.found, needed))
      && ((needed == |treasures| && Won(r.at, MazeWidth(level), MazeHeight(level), r.found, needed))
          ==> Count(r.board, Treasure) == 0)
  {
    var b := Furnish(Layout(level, open), treasures, traps);
    var s := Play(b, Pos(1, 1), 0, 100, 0);
    FurnishedMaze(level, open, treasures, traps);
    RunKeepsOnePlayer(s, needed, tokens);
    RunKeepsWalls(s, needed, tokens);
    RunConservesTreasure(s, needed, tokens);
    TreasuresOnBoard(level, open, treasures, traps);
    RunCounters(s, needed, tokens);
    ReachingExitWins(s, needed, tokens, MazeWidth(level), MazeHeight(level));
  }
}
