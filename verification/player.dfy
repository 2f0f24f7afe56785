/** Moving the player through a finished maze and the win check. */
module Player {
  import opened MazeGrid
  import opened Paths

  /** The per-direction bounds test of a move: not off the top, right, bottom or left edge. */
  predicate Inside(w: int, h: int, p: Pos, d: Dir) {
    match d
    case Top => p.y > 0
    case Right => p.x < w - 1
    case Bottom => p.y < h - 1
    case Left => p.x > 0
  }

  /** Moves the player one cell in direction `d` when the current cell has no wall
      on that side and the move stays on the grid; otherwise stays put. The flag
      says whether the player now stands on the end cell. */
  function MovePlayer(m: Maze, d: Dir): (r: (Maze, bool))
    requires ValidMaze(m)
    ensures ValidMaze(r.0)
    ensures r.0 == m.(player := r.0.player)
    ensures r.0.player == if CanStep(m.width, m.height, m.grid, m.player, d) then Step(m.player, d) else m.player
    ensures r.1 <==> r.0.player == Pos(m.width - 1, m.height - 1)
  {
    var p := m.player;
    var q := if !At(m.grid, p).Wall(d) && Inside(m.width, m.height, p, d) then Step(p, d) else p;
    (m.(player := q), q == m.end)
  }

  /** In a maze with paired walls, a move that happened is undone by the opposite move. */
  lemma MoveUndo(m: Maze, d: Dir)
    requires ValidMaze(m) && Paired(m.width, m.height, m.grid)
    requires CanStep(m.width, m.height, m.grid, m.player, d)
    ensures MovePlayer(MovePlayer(m, d).0, Opposite(d)).0 == m
  {
    EdgeBetweenSymmetric(m.width, m.player, d);
  }

  /** The maze after pressing the moves `ds` in order. */
  function Replay(m: Maze, ds: seq<Dir>): (r: Maze)
    requires ValidMaze(m)
    ensures ValidMaze(r) && r == m.(player := r.player)
    decreases |ds|
  {
    if |ds| == 0 then m else Replay(MovePlayer(m, ds[0]).0, ds[1..])
  }

  /** Pressing the moves of a walk takes the player along it. */
  lemma {:induction false} ReplayFollowsWalk(m: Maze, ds: seq<Dir>, q: Pos)
    requires ValidMaze(m) && Walk(m.width, m.height, m.grid, m.player, ds, q)
    ensures Replay(m, ds).player == q
    decreases |ds|
  {
    if |ds| > 0 {
      ReplayFollowsWalk(MovePlayer(m, ds[0]).0, ds[1..], q);
    }
  }

  /** Whatever is pressed, the player only goes where open passages lead. */
  lemma {:induction false} ReplayStaysLinked(m: Maze, ds: seq<Dir>)
    requires ValidMaze(m)
    ensures Linked(m.width, m.height, m.grid, m.player, Replay(m, ds).player)
    decreases |ds|
  {
    var w, h, g := m.width, m.height, m.grid;
    if |ds| == 0 {
      LinkedRefl(w, h, g, m.player);
    } else {
      var m1 := MovePlayer(m, ds[0]).0;
      ReplayStaysLinked(m1, ds[1..]);
      if CanStep(w, h, g, m.player, ds[0]) {
        LinkedStep(w, h, g, m.player, ds[0]);
        LinkedTrans(w, h, g, m.player, m1.player, Replay(m1, ds[1..]).player);
      }
    }
  }

  /** In a perfect maze the end cell can be reached from wherever the player stands. */
  lemma PerfectMazeWinnable(w: int, h: int, m: Maze)
    requires PerfectMaze(w, h, m)
    ensures exists ds :: Replay(m, ds).player == m.end
  {
    assert Linked(w, h, m.grid, m.player, m.end);
    var ds :| Walk(w, h, m.grid, m.player, ds, m.end);
    ReplayFollowsWalk(m, ds, m.end);
  }
}
