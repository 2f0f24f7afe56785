/** The grid and wall model of the maze: a column-major W x H array of cells,
    each with four wall flags and a visited flag, plus the aggregate maze state
    (start, end and player position). Internal walls are also named as edges
    between two cell ids, the way the Kruskal generator enumerates them. */
module MazeGrid {

  /** A side of a cell, and the direction from a cell to the neighbour behind it. */
  datatype Dir = Top | Right | Bottom | Left

  function Opposite(d: Dir): Dir {
    match d
    case Top => Bottom
    case Right => Left
    case Bottom => Top
    case Left => Right
  }

  /** Column and row of a cell; a position one step off the grid is representable. */
  datatype Pos = Pos(x: int, y: int)

  function Step(p: Pos, d: Dir): Pos {
    match d
    case Top => Pos(p.x, p.y - 1)
    case Right => Pos(p.x + 1, p.y)
    case Bottom => Pos(p.x, p.y + 1)
    case Left => Pos(p.x - 1, p.y)
  }

  predicate InBounds(w: int, h: int, p: Pos) {
    0 <= p.x < w && 0 <= p.y < h
  }

  /** Wall flags (true = wall present) and the generation-time visited flag. */
  datatype Cell = Cell(top: bool, right: bool, bottom: bool, left: bool, visited: bool)
  {
    function Wall(d: Dir): bool {
      match d
      case Top => top
      case Right => right
      case Bottom => bottom
      case Left => left
    }

    /** This cell with its wall on side `d` taken down. */
    function ClearWall(d: Dir): (c: Cell)
      ensures !c.Wall(d)
      ensures forall s :: s != d ==> c.Wall(s) == Wall(s)
      ensures c.visited == visited
    {
      match d
      case Top => this.(top := false)
      case Right => this.(right := false)
      case Bottom => this.(bottom := false)
      case Left => this.(left := false)
    }
  }

  /** A freshly built cell: all four walls present, not visited. */
  const Sealed := Cell(true, true, true, true, false)

  /** g[x][y] is the cell in column x, row y. */
  type Grid = seq<seq<Cell>>

  predicate WellFormed(g: Grid, w: int, h: int) {
    |g| == w && forall x | 0 <= x < w :: |g[x]| == h
  }

  predicate InGrid(g: Grid, p: Pos) {
    0 <= p.x < |g| && 0 <= p.y < |g[p.x]|
  }

  function At(g: Grid, p: Pos): Cell
    requires InGrid(g, p)
  {
    g[p.x][p.y]
  }

  predicate SameShape(g: Grid, r: Grid) {
    |r| == |g| && forall x | 0 <= x < |g| :: |r[x]| == |g[x]|
  }

  /** The grid with the cell at `p` replaced by `c`. */
  function SetAt(g: Grid, p: Pos, c: Cell): (r: Grid)
    requires InGrid(g, p)
    ensures SameShape(g, r)
    ensures At(r, p) == c
    ensures forall q | InGrid(g, q) && q != p :: At(r, q) == At(g, q)
  {
    g[p.x := g[p.x][p.y := c]]
  }

  /** The whole maze: grid dimensions, cells, start/end cells and player position. */
  datatype Maze = Maze(width: int, height: int, grid: Grid, start: Pos, end: Pos, player: Pos)

  predicate ValidMaze(m: Maze) {
    && m.width >= 1 && m.height >= 1
    && WellFormed(m.grid, m.width, m.height)
    && m.start == Pos(0, 0)
    && m.end == Pos(m.width - 1, m.height - 1)
    && InBounds(m.width, m.height, m.player)
  }

  /** Rebuilds every cell sealed and unvisited and puts the player on the start cell. */
  function Reset(w: int, h: int): (m: Maze)
    requires w >= 1 && h >= 1
    ensures ValidMaze(m) && m.width == w && m.height == h
    ensures m.player == m.start == Pos(0, 0)
    ensures forall p, d | InBounds(w, h, p) :: At(m.grid, p).Wall(d) && !At(m.grid, p).visited
  {
    var g := seq(w, x => seq(h, y => Sealed));
    assert forall p | InBounds(w, h, p) :: At(g, p) == Sealed;
    Maze(w, h, g, Pos(0, 0), Pos(w - 1, h - 1), Pos(0, 0))
  }

  /** An in-bounds neighbour and the direction leading to it. */
  datatype Neighbor = Neighbor(pos: Pos, dir: Dir)

  /** Position of a direction in the neighbour enumeration order. */
  function ScanOrder(d: Dir): nat {
    match d
    case Left => 0
    case Right => 1
    case Top => 2
    case Bottom => 3
  }

  /** The in-bounds orthogonal neighbours of `p`, left, right, top, bottom. */
  function Neighbors(w: int, h: int, p: Pos): (r: seq<Neighbor>)
    requires InBounds(w, h, p)
    ensures |r| <= 4
    ensures forall k | 0 <= k < |r| :: InBounds(w, h, r[k].pos) && r[k].pos == Step(p, r[k].dir)
    ensures forall d | InBounds(w, h, Step(p, d)) :: Neighbor(Step(p, d), d) in r
    ensures forall i, j | 0 <= i < j < |r| :: ScanOrder(r[i].dir) < ScanOrder(r[j].dir)
  {
    var left := if p.x > 0 then [Neighbor(Pos(p.x - 1, p.y), Left)] else [];
    var right := if p.x < w - 1 then [Neighbor(Pos(p.x + 1, p.y), Right)] else [];
    var top := if p.y > 0 then [Neighbor(Pos(p.x, p.y - 1), Top)] else [];
    var bottom := if p.y < h - 1 then [Neighbor(Pos(p.x, p.y + 1), Bottom)] else [];
    left + right + top + bottom
  }

  /** Carves a passage: `a` loses its wall on side `d`, `b` its wall on the opposite side. */
  function RemoveWall(g: Grid, a: Pos, b: Pos, d: Dir): (r: Grid)
    requires InGrid(g, a) && InGrid(g, b)
    ensures SameShape(g, r)
    ensures forall q, s | InGrid(g, q) ::
      At(r, q).Wall(s) == (At(g, q).Wall(s) && !((q == a && s == d) || (q == b && s == Opposite(d))))
    ensures forall q | InGrid(g, q) :: At(r, q).visited == At(g, q).visited
  {
    var g1 := SetAt(g, a, At(g, a).ClearWall(d));
    SetAt(g1, b, At(g1, b).ClearWall(Opposite(d)))
  }

  /** Marks the cell at `p` visited, leaving every wall as it is. */
  function Visit(g: Grid, p: Pos): (r: Grid)
    requires InGrid(g, p)
    ensures SameShape(g, r)
    ensures forall q, s | InGrid(g, q) :: At(r, q).Wall(s) == At(g, q).Wall(s)
    ensures forall q | InGrid(g, q) :: At(r, q).visited == (q == p || At(g, q).visited)
  {
    SetAt(g, p, At(g, p).(visited := true))
  }

  // ---------------------------------------------------------------------------
  // Cell ids and internal walls as edges

  /** a * b by repeated addition over `a`. The proofs about ids and cell counts
      work with this form and switch to `*` only through MulIsProduct. */
  function Mul(a: int, b: int): (r: int)
    ensures a >= 0 && b >= 0 ==> r >= 0
    decreases if a < 0 then -a else a
  {
    if a == 0 then 0
    else if a > 0 then Mul(a - 1, b) + b
    else Mul(a + 1, b) - b
  }

  lemma {:induction false} MulIsProduct(a: int, b: int)
    ensures Mul(a, b) == a * b
    decreases if a < 0 then -a else a
  {
    if a > 0 {
      MulIsProduct(a - 1, b);
    } else if a < 0 {
      MulIsProduct(a + 1, b);
    }
  }

  /** Number of cells of a W x H grid. */
  function Area(w: int, h: int): int {
    Mul(h, w)
  }

  lemma AreaIsProduct(w: int, h: int)
    ensures Area(w, h) == w * h
  {
    MulIsProduct(h, w);
  }

  /** Row-major cell id, y * W + x. */
  function Id(w: int, p: Pos): int {
    Mul(p.y, w) + p.x
  }

  /** The cell with a given id. */
  function CellOf(w: int, i: int): Pos
    requires w > 0
  {
    Pos(i % w, i / w)
  }

  /** Horizontal: the wall between (x, y) and (x + 1, y); Vertical: between (x, y) and (x, y + 1). */
  datatype Orientation = Horizontal | Vertical

  /** An internal wall: the two cell ids it separates, its orientation and its upper-left cell. */
  datatype Edge = Edge(u: int, v: int, orientation: Orientation, x: int, y: int)

  function Toward(o: Orientation): Dir {
    if o == Horizontal then Right else Bottom
  }

  function MkEdge(w: int, p: Pos, o: Orientation): Edge {
    Edge(Id(w, p), Id(w, Step(p, Toward(o))), o, p.x, p.y)
  }

  /** The upper-left and lower-right cells an edge separates. */
  function Lower(e: Edge): Pos {
    Pos(e.x, e.y)
  }

  function Upper(e: Edge): Pos {
    Step(Lower(e), Toward(e.orientation))
  }

  predicate ValidWall(w: int, h: int, e: Edge) {
    InBounds(w, h, Lower(e)) && InBounds(w, h, Upper(e)) && e == MkEdge(w, Lower(e), e.orientation)
  }

  /** The edge for the wall on side `d` of `p`. */
  function EdgeBetween(w: int, p: Pos, d: Dir): Edge {
    match d
    case Right => MkEdge(w, p, Horizontal)
    case Bottom => MkEdge(w, p, Vertical)
    case Left => MkEdge(w, Step(p, Left), Horizontal)
    case Top => MkEdge(w, Step(p, Top), Vertical)
  }

  lemma EdgeBetweenSymmetric(w: int, p: Pos, d: Dir)
    ensures EdgeBetween(w, Step(p, d), Opposite(d)) == EdgeBetween(w, p, d)
    ensures Step(Step(p, d), Opposite(d)) == p
  {
  }

  /** Naming a wall from either of its two sides gives the same edge, and no other side does. */
  lemma EdgeBetweenInjective(w: int, p: Pos, d: Dir, q: Pos, s: Dir)
    requires EdgeBetween(w, q, s) == EdgeBetween(w, p, d)
    ensures (q == p && s == d) || (q == Step(p, d) && s == Opposite(d))
  {
    match d
    case Top =>
    case Right =>
    case Bottom =>
    case Left =>
  }

  /** The edge on side `d` of `p` separates `p` from `Step(p, d)`, in one order or the other. */
  lemma EdgeBetweenEnds(w: int, p: Pos, d: Dir)
    ensures var e := EdgeBetween(w, p, d);
      (Lower(e) == p && Upper(e) == Step(p, d)) || (Lower(e) == Step(p, d) && Upper(e) == p)
  {
  }

  lemma EdgeBetweenValid(w: int, h: int, p: Pos, d: Dir)
    requires InBounds(w, h, p) && InBounds(w, h, Step(p, d))
    ensures ValidWall(w, h, EdgeBetween(w, p, d))
  {
  }

  lemma EdgeOfValidWall(w: int, h: int, e: Edge)
    requires ValidWall(w, h, e)
    ensures EdgeBetween(w, Lower(e), Toward(e.orientation)) == e
    ensures EdgeBetween(w, Upper(e), Opposite(Toward(e.orientation))) == e
  {
    EdgeBetweenSymmetric(w, Lower(e), Toward(e.orientation));
  }

  // ---------------------------------------------------------------------------
  // Wall invariants

  /** The wall on side `d` of `p` has been carved away. */
  predicate SideOpen(w: int, h: int, carved: set<Edge>, p: Pos, d: Dir) {
    InBounds(w, h, Step(p, d)) && EdgeBetween(w, p, d) in carved
  }

  /** The grid's wall flags are exactly those of a sealed grid minus the carved walls. */
  ghost predicate WallsMatch(w: int, h: int, g: Grid, carved: set<Edge>) {
    && WellFormed(g, w, h)
    && (forall e | e in carved :: ValidWall(w, h, e))
    && (forall p, d | InBounds(w, h, p) :: At(g, p).Wall(d) == !SideOpen(w, h, carved, p, d))
  }

  /** A's wall toward B is present iff B's wall toward A is present. */
  ghost predicate Paired(w: int, h: int, g: Grid)
    requires WellFormed(g, w, h)
  {
    forall p, d | InBounds(w, h, p) && InBounds(w, h, Step(p, d)) ::
      At(g, p).Wall(d) == At(g, Step(p, d)).Wall(Opposite(d))
  }

  /** No wall on the outer boundary has been removed. */
  ghost predicate BorderClosed(w: int, h: int, g: Grid)
    requires WellFormed(g, w, h)
  {
    forall p, d | InBounds(w, h, p) && !InBounds(w, h, Step(p, d)) :: At(g, p).Wall(d)
  }

  lemma MatchedIsPaired(w: int, h: int, g: Grid, carved: set<Edge>)
    requires WallsMatch(w, h, g, carved)
    ensures Paired(w, h, g) && BorderClosed(w, h, g)
  {
    forall p, d | InBounds(w, h, p) && InBounds(w, h, Step(p, d))
      ensures At(g, p).Wall(d) == At(g, Step(p, d)).Wall(Opposite(d))
    {
      EdgeBetweenSymmetric(w, p, d);
    }
  }

  /** Removing the wall between two adjacent cells keeps the pairing invariant. */
  lemma RemoveWallKeepsPairing(w: int, h: int, g: Grid, p: Pos, d: Dir)
    requires WellFormed(g, w, h) && Paired(w, h, g)
    requires InBounds(w, h, p) && InBounds(w, h, Step(p, d))
    ensures WellFormed(RemoveWall(g, p, Step(p, d), d), w, h)
    ensures Paired(w, h, RemoveWall(g, p, Step(p, d), d))
  {
    var r := RemoveWall(g, p, Step(p, d), d);
    forall q, s | InBounds(w, h, q) && InBounds(w, h, Step(q, s))
      ensures At(r, q).Wall(s) == At(r, Step(q, s)).Wall(Opposite(s))
    {
      RemoveWallPairedAt(w, h, g, p, d, q, s);
    }
  }

  lemma RemoveWallPairedAt(w: int, h: int, g: Grid, p: Pos, d: Dir, q: Pos, s: Dir)
    requires WellFormed(g, w, h) && Paired(w, h, g)
    requires InBounds(w, h, p) && InBounds(w, h, Step(p, d))
    requires InBounds(w, h, q) && InBounds(w, h, Step(q, s))
    ensures var r := RemoveWall(g, p, Step(p, d), d);
      At(r, q).Wall(s) == At(r, Step(q, s)).Wall(Opposite(s))
  {
    EdgeBetweenSymmetric(w, p, d);
    EdgeBetweenSymmetric(w, q, s);
  }

  /** Carving the wall on side `d` of `p` adds exactly that edge to the carved set. */
  lemma CarveKeepsMatch(w: int, h: int, g: Grid, carved: set<Edge>, p: Pos, d: Dir)
    requires WallsMatch(w, h, g, carved)
    requires InBounds(w, h, p) && InBounds(w, h, Step(p, d))
    ensures WallsMatch(w, h, RemoveWall(g, p, Step(p, d), d), carved + {EdgeBetween(w, p, d)})
  {
    var r := RemoveWall(g, p, Step(p, d), d);
    var c := carved + {EdgeBetween(w, p, d)};
    EdgeBetweenValid(w, h, p, d);
    EdgeBetweenSymmetric(w, p, d);
    forall q, s | InBounds(w, h, q)
      ensures At(r, q).Wall(s) == !SideOpen(w, h, c, q, s)
    {
      if EdgeBetween(w, q, s) == EdgeBetween(w, p, d) {
        EdgeBetweenInjective(w, p, d, q, s);
      }
    }
  }

  /** Marking a cell visited keeps the wall flags, so the same carved set describes them. */
  lemma VisitKeepsMatch(w: int, h: int, g: Grid, carved: set<Edge>, p: Pos)
    requires WallsMatch(w, h, g, carved) && InBounds(w, h, p)
    ensures WallsMatch(w, h, Visit(g, p), carved)
  {
  }

  /** A reset grid has no passages. */
  lemma ResetHasNoPassages(w: int, h: int)
    requires w >= 1 && h >= 1
    ensures WallsMatch(w, h, Reset(w, h).grid, {})
    ensures OpenWalls(w, h, Reset(w, h).grid) == {}
  {
    var g := Reset(w, h).grid;
    OpenWallsAreCarved(w, h, g, {});
  }

  /** The open internal walls of a grid, each named by its upper-left cell's right or bottom flag. */
  ghost function OpenWalls(w: int, h: int, g: Grid): set<Edge>
    requires WellFormed(g, w, h)
  {
    (set x: int, y: int | 0 <= x < w - 1 && 0 <= y < h && !g[x][y].right :: MkEdge(w, Pos(x, y), Horizontal))
    + (set x: int, y: int | 0 <= x < w && 0 <= y < h - 1 && !g[x][y].bottom :: MkEdge(w, Pos(x, y), Vertical))
  }

  lemma OpenWallsAreCarved(w: int, h: int, g: Grid, carved: set<Edge>)
    requires WallsMatch(w, h, g, carved)
    ensures OpenWalls(w, h, g) == carved
  {
    forall e | e in OpenWalls(w, h, g) ensures e in carved {
      var p := Lower(e);
      assert At(g, p).Wall(Toward(e.orientation)) == !SideOpen(w, h, carved, p, Toward(e.orientation));
    }
    forall e | e in carved ensures e in OpenWalls(w, h, g) {
      EdgeOfValidWall(w, h, e);
      var p := Lower(e);
      assert !At(g, p).Wall(Toward(e.orientation));
      if e.orientation == Horizontal {
        assert e == MkEdge(w, Pos(p.x, p.y), Horizontal);
      } else {
        assert e == MkEdge(w, Pos(p.x, p.y), Vertical);
      }
    }
  }

  // ---------------------------------------------------------------------------
  // Counting cells

  function Cells(w: int, h: int): set<Pos> {
    set x: int, y: int | 0 <= x < w && 0 <= y < h :: Pos(x, y)
  }

  lemma InCells(w: int, h: int, p: Pos)
    requires InBounds(w, h, p)
    ensures p in Cells(w, h)
  {
    assert p == Pos(p.x, p.y);
  }

  /** A set of in-bounds positions holding every in-bounds position is the whole grid. */
  lemma AllCells(w: int, h: int, s: set<Pos>)
    requires forall p | p in s :: InBounds(w, h, p)
    requires forall p | InBounds(w, h, p) :: p in s
    ensures s == Cells(w, h)
  {
    forall p | p in Cells(w, h) ensures p in s {
    }
    forall p | p in s ensures p in Cells(w, h) {
      InCells(w, h, p);
    }
  }

  function Row(w: int, y: int): set<Pos> {
    set x: int | 0 <= x < w :: Pos(x, y)
  }

  lemma {:induction false} RowSize(w: nat, y: int)
    ensures |Row(w, y)| == w
  {
    if w > 0 {
      RowSize(w - 1, y);
      var a, b := Row(w, y), Row(w - 1, y);
      forall p | p in a ensures p in b + {Pos(w - 1, y)} {
        if p.x < w - 1 { assert p == Pos(p.x, y); }
      }
      assert a == b + {Pos(w - 1, y)};
    } else {
      assert Row(w, y) == {};
    }
  }

  lemma {:induction false} CellsSize(w: nat, h: nat)
    ensures |Cells(w, h)| == Area(w, h)
  {
    if h > 0 {
      CellsSize(w, h - 1);
      RowSize(w, h - 1);
      CellsSplit(w, h);
    } else {
      assert Cells(w, h) == {};
    }
  }

  /** The cells of a grid one row taller are the old cells plus the new row. */
  lemma CellsSplit(w: nat, h: nat)
    requires h > 0
    ensures Cells(w, h) == Cells(w, h - 1) + Row(w, h - 1)
    ensures Cells(w, h - 1) * Row(w, h - 1) == {}
  {
    var a, b := Cells(w, h - 1), Row(w, h - 1);
    forall p | p in Cells(w, h) ensures p in a + b {
      if p.y < h - 1 { InCells(w, h - 1, p); }
    }
    forall p | p in a + b ensures p in Cells(w, h) {
      InCells(w, h, p);
    }
  }

  // ---------------------------------------------------------------------------
  // Ids are a bijection between the cells and [0, W*H)

  lemma MulMonotone(a: int, b: int, w: int)
    requires w >= 0
    ensures a <= b ==> a * w <= b * w
  {
    if a <= b {
      assert b * w - a * w == (b - a) * w;
    }
  }

  lemma DivModUnique(w: int, x: int, y: int)
    requires 0 <= x < w
    ensures (y * w + x) / w == y && (y * w + x) % w == x
  {
    var i := y * w + x;
    var q, r := i / w, i % w;
    assert i == q * w + r;
    MulMonotone(q + 1, y, w);
    MulMonotone(y + 1, q, w);
    assert (q + 1) * w == q * w + w;
    assert (y + 1) * w == y * w + w;
    assert q == y;
  }

  lemma IdInRange(w: int, h: int, p: Pos)
    requires InBounds(w, h, p)
    ensures 0 <= Id(w, p) < Area(w, h)
  {
    MulIsProduct(p.y, w);
    MulIsProduct(h, w);
    MulMonotone(p.y + 1, h, w);
    assert p.y * w + p.x < p.y * w + w == (p.y + 1) * w;
    assert 0 <= p.y * w;
  }

  lemma CellOfId(w: int, h: int, p: Pos)
    requires InBounds(w, h, p)
    ensures 0 <= Id(w, p) < Area(w, h) && CellOf(w, Id(w, p)) == p
  {
    IdInRange(w, h, p);
    MulIsProduct(p.y, w);
    DivModUnique(w, p.x, p.y);
  }

  lemma IdOfCell(w: int, h: int, i: int)
    requires w >= 1 && h >= 1 && 0 <= i < Area(w, h)
    ensures InBounds(w, h, CellOf(w, i)) && Id(w, CellOf(w, i)) == i
  {
    var q, r := i / w, i % w;
    assert i == q * w + r && 0 <= r < w;
    MulIsProduct(h, w);
    MulIsProduct(q, w);
    MulMonotone(q, -1, w);
    MulMonotone(h, q, w);
    assert -1 * w == -w;
  }

  /** Ids y * W + x number the cells 0 .. W*H-1, one id per cell. */
  lemma IdBijection(w: int, h: int)
    requires w >= 1 && h >= 1
    ensures forall p | InBounds(w, h, p) :: 0 <= Id(w, p) < Area(w, h) && CellOf(w, Id(w, p)) == p
    ensures forall i | 0 <= i < Area(w, h) :: InBounds(w, h, CellOf(w, i)) && Id(w, CellOf(w, i)) == i
  {
    forall p | InBounds(w, h, p) ensures 0 <= Id(w, p) < Area(w, h) && CellOf(w, Id(w, p)) == p {
      CellOfId(w, h, p);
    }
    forall i | 0 <= i < Area(w, h) ensures InBounds(w, h, CellOf(w, i)) && Id(w, CellOf(w, i)) == i {
      IdOfCell(w, h, i);
    }
  }
}
