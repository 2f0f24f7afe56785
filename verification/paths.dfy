/** Walks through a maze: a start cell and a sequence of moves, each of which
    must cross an absent wall and stay on the grid. A maze is connected when
    every cell can walk to every other one. */
module Paths {
  import opened MazeGrid

  /** The move from `p` in direction `d` crosses no wall and stays on the grid. */
  predicate CanStep(w: int, h: int, g: Grid, p: Pos, d: Dir)
    requires WellFormed(g, w, h) && InBounds(w, h, p)
  {
    !At(g, p).Wall(d) && InBounds(w, h, Step(p, d))
  }

  /** Following the moves `ds` from `p` never meets a wall and ends on `q`. */
  predicate Walk(w: int, h: int, g: Grid, p: Pos, ds: seq<Dir>, q: Pos)
    requires WellFormed(g, w, h)
    decreases |ds|
  {
    InBounds(w, h, p) &&
    if |ds| == 0 then p == q
    else CanStep(w, h, g, p, ds[0]) && Walk(w, h, g, Step(p, ds[0]), ds[1..], q)
  }

  ghost predicate Linked(w: int, h: int, g: Grid, a: Pos, b: Pos)
    requires WellFormed(g, w, h)
  {
    exists ds :: Walk(w, h, g, a, ds, b)
  }

  /** Every cell can reach every other cell through open walls. */
  ghost predicate Connected(w: int, h: int, g: Grid)
    requires WellFormed(g, w, h)
  {
    forall a, b | InBounds(w, h, a) && InBounds(w, h, b) :: Linked(w, h, g, a, b)
  }

  /** What both generators leave behind: a W x H maze whose every cell is marked
      visited, whose walls agree between neighbours and stay closed on the border,
      with exactly W*H-1 passages connecting every cell to every other, and the
      player on the start cell. W*H-1 passages joining W*H cells is a spanning tree:
      one path between any two cells. */
  ghost predicate PerfectMaze(w: int, h: int, m: Maze) {
    && ValidMaze(m) && m.width == w && m.height == h && m.player == m.start
    && (forall p | InBounds(w, h, p) :: At(m.grid, p).visited)
    && Paired(w, h, m.grid) && BorderClosed(w, h, m.grid)
    && |OpenWalls(w, h, m.grid)| == w * h - 1
    && Connected(w, h, m.grid)
  }

  /** A fully visited, connected grid whose walls are exactly the W*H-1 carved
      edges, with the player on the start cell, is a perfect maze. */
  lemma CarvedTreeIsPerfect(w: int, h: int, g: Grid, carved: set<Edge>)
    requires w >= 1 && h >= 1 && WallsMatch(w, h, g, carved)
    requires |carved| == Area(w, h) - 1
    requires Connected(w, h, g)
    requires forall p | InBounds(w, h, p) :: At(g, p).visited
    ensures PerfectMaze(w, h, Maze(w, h, g, Pos(0, 0), Pos(w - 1, h - 1), Pos(0, 0)))
  {
    var m := Maze(w, h, g, Pos(0, 0), Pos(w - 1, h - 1), Pos(0, 0));
    assert ValidMaze(m);
    OpenWallsAreCarved(w, h, g, carved);
    MulIsProduct(h, w);
    assert |OpenWalls(w, h, g)| == w * h - 1;
    MatchedIsPaired(w, h, g, carved);
  }

  /** Every wall absent from `g` is absent from `g'` too. */
  ghost predicate NoWallAdded(w: int, h: int, g: Grid, g': Grid)
    requires WellFormed(g, w, h) && WellFormed(g', w, h)
  {
    forall p, d | InBounds(w, h, p) && !At(g, p).Wall(d) :: !At(g', p).Wall(d)
  }

  /** The moves that retrace `ds` backwards. */
  function Back(ds: seq<Dir>): (r: seq<Dir>)
    ensures |r| == |ds|
  {
    if |ds| == 0 then [] else Back(ds[1..]) + [Opposite(ds[0])]
  }

  lemma {:induction false} WalkEndsInBounds(w: int, h: int, g: Grid, p: Pos, ds: seq<Dir>, q: Pos)
    requires WellFormed(g, w, h) && Walk(w, h, g, p, ds, q)
    ensures InBounds(w, h, q)
    decreases |ds|
  {
    if |ds| > 0 {
      WalkEndsInBounds(w, h, g, Step(p, ds[0]), ds[1..], q);
    }
  }

  lemma {:induction false} WalkConcat(w: int, h: int, g: Grid, a: Pos, ds: seq<Dir>, b: Pos, es: seq<Dir>, c: Pos)
    requires WellFormed(g, w, h)
    requires Walk(w, h, g, a, ds, b) && Walk(w, h, g, b, es, c)
    ensures Walk(w, h, g, a, ds + es, c)
    decreases |ds|
  {
    if |ds| > 0 {
      WalkConcat(w, h, g, Step(a, ds[0]), ds[1..], b, es, c);
      assert (ds + es)[1..] == ds[1..] + es;
    } else {
      assert ds + es == es;
    }
  }

  /** In a grid whose walls are paired, every walk can be retraced. */
  lemma {:induction false} WalkReverse(w: int, h: int, g: Grid, a: Pos, ds: seq<Dir>, b: Pos)
    requires WellFormed(g, w, h) && Paired(w, h, g)
    requires Walk(w, h, g, a, ds, b)
    ensures Walk(w, h, g, b, Back(ds), a)
    decreases |ds|
  {
    if |ds| > 0 {
      var d := ds[0];
      var a' := Step(a, d);
      WalkReverse(w, h, g, a', ds[1..], b);
      EdgeBetweenSymmetric(w, a, d);
      assert Walk(w, h, g, a', [Opposite(d)], a);
      WalkConcat(w, h, g, b, Back(ds[1..]), a', [Opposite(d)], a);
    }
  }

  /** Opening walls never breaks a walk. */
  lemma {:induction false} WalkMonotone(w: int, h: int, g: Grid, g': Grid, a: Pos, ds: seq<Dir>, b: Pos)
    requires WellFormed(g, w, h) && WellFormed(g', w, h) && NoWallAdded(w, h, g, g')
    requires Walk(w, h, g, a, ds, b)
    ensures Walk(w, h, g', a, ds, b)
    decreases |ds|
  {
    if |ds| > 0 {
      WalkMonotone(w, h, g, g', Step(a, ds[0]), ds[1..], b);
    }
  }

  lemma LinkedTrans(w: int, h: int, g: Grid, a: Pos, b: Pos, c: Pos)
    requires WellFormed(g, w, h)
    requires Linked(w, h, g, a, b) && Linked(w, h, g, b, c)
    ensures Linked(w, h, g, a, c)
  {
    var ds :| Walk(w, h, g, a, ds, b);
    var es :| Walk(w, h, g, b, es, c);
    WalkConcat(w, h, g, a, ds, b, es, c);
  }

  lemma LinkedSym(w: int, h: int, g: Grid, a: Pos, b: Pos)
    requires WellFormed(g, w, h) && Paired(w, h, g)
    requires Linked(w, h, g, a, b)
    ensures Linked(w, h, g, b, a)
  {
    var ds :| Walk(w, h, g, a, ds, b);
    WalkReverse(w, h, g, a, ds, b);
  }

  lemma LinkedMonotone(w: int, h: int, g: Grid, g': Grid, a: Pos, b: Pos)
    requires WellFormed(g, w, h) && WellFormed(g', w, h) && NoWallAdded(w, h, g, g')
    requires Linked(w, h, g, a, b)
    ensures Linked(w, h, g', a, b)
  {
    var ds :| Walk(w, h, g, a, ds, b);
    WalkMonotone(w, h, g, g', a, ds, b);
  }

  lemma LinkedRefl(w: int, h: int, g: Grid, a: Pos)
    requires WellFormed(g, w, h) && InBounds(w, h, a)
    ensures Linked(w, h, g, a, a)
  {
    assert Walk(w, h, g, a, [], a);
  }

  /** One move across an absent wall links its two cells. */
  lemma LinkedStep(w: int, h: int, g: Grid, a: Pos, d: Dir)
    requires WellFormed(g, w, h) && InBounds(w, h, a) && CanStep(w, h, g, a, d)
    ensures Linked(w, h, g, a, Step(a, d))
  {
    assert Walk(w, h, g, a, [d], Step(a, d));
  }

  /** If one cell reaches every cell of a paired grid, the grid is connected. */
  lemma HubConnected(w: int, h: int, g: Grid, hub: Pos)
    requires WellFormed(g, w, h) && Paired(w, h, g)
    requires forall p | InBounds(w, h, p) :: Linked(w, h, g, hub, p)
    ensures Connected(w, h, g)
  {
    forall a, b | InBounds(w, h, a) && InBounds(w, h, b) ensures Linked(w, h, g, a, b) {
      LinkedSym(w, h, g, hub, a);
      LinkedTrans(w, h, g, a, hub, b);
    }
  }

  /** Carving more walls, as recorded by a larger carved set, only opens walls. */
  lemma MoreCarvedNoWallAdded(w: int, h: int, g: Grid, c: set<Edge>, g': Grid, c': set<Edge>)
    requires WallsMatch(w, h, g, c) && WallsMatch(w, h, g', c') && c <= c'
    ensures NoWallAdded(w, h, g, g')
  {
  }
}
