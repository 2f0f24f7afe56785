/** Randomized Kruskal generation: enumerate every internal wall once, visit
    them in a caller-supplied shuffled order, and carve a wall exactly when
    union-find says its two cells are still in different sets. */
module Kruskals {
  import opened MazeGrid
  import opened UnionFind
  import opened Paths

  /** Number of internal walls: (W-1)*H right-hand walls plus W*(H-1) bottom walls. */
  function WallCount(w: int, h: int): int {
    Mul(w - 1, h) + Mul(w, h - 1)
  }

  lemma WallCountIsProduct(w: int, h: int)
    ensures WallCount(w, h) == (w - 1) * h + w * (h - 1)
  {
    MulIsProduct(w - 1, h);
    MulIsProduct(w, h - 1);
  }

  /** Lexicographic order on (x, y, orientation), the order the enumeration produces. */
  predicate Precedes(a: Edge, b: Edge) {
    || a.x < b.x
    || (a.x == b.x && a.y < b.y)
    || (a.x == b.x && a.y == b.y && a.orientation == Horizontal && b.orientation == Vertical)
  }

  /** The upper-left cell of `e` comes before (x, y) in column-major order. */
  predicate Before(e: Edge, x: int, y: int) {
    e.x < x || (e.x == x && e.y < y)
  }

  /** `edges` lists, in increasing order, exactly the internal walls whose
      upper-left cell comes before (x, y). */
  ghost predicate Listed(w: int, h: int, edges: seq<Edge>, x: int, y: int) {
    && (forall k | 0 <= k < |edges| :: ValidWall(w, h, edges[k]) && Before(edges[k], x, y))
    && (forall e | ValidWall(w, h, e) && Before(e, x, y) :: e in edges)
    && (forall i, j | 0 <= i < j < |edges| :: Precedes(edges[i], edges[j]))
  }

  /** Number of walls listed before column x. */
  function WallsBeforeColumn(w: int, h: int, x: int): int {
    Mul(if x < w then x else w - 1, h) + Mul(x, h - 1)
  }

  lemma WallsBeforeColumnStep(w: int, h: int, x: int)
    requires 0 <= x < w
    ensures WallsBeforeColumn(w, h, x + 1) == WallsBeforeColumn(w, h, x) + (if x < w - 1 then h else 0) + h - 1
    ensures WallsBeforeColumn(w, h, w) == WallCount(w, h)
  {
  }

  /** The walls listed for cell (x, y): the one to its right, then the one below it. */
  function CellWalls(w: int, h: int, x: int, y: int): seq<Edge> {
    (if x < w - 1 then [MkEdge(w, Pos(x, y), Horizontal)] else [])
    + (if y < h - 1 then [MkEdge(w, Pos(x, y), Vertical)] else [])
  }

  lemma ListedCell(w: int, h: int, edges: seq<Edge>, x: int, y: int)
    requires 0 <= x < w && 0 <= y < h
    requires Listed(w, h, edges, x, y)
    ensures Listed(w, h, edges + CellWalls(w, h, x, y), x, y + 1)
  {
    var r := edges + CellWalls(w, h, x, y);
    forall e | ValidWall(w, h, e) && Before(e, x, y + 1) ensures e in r {
      if !Before(e, x, y) {
        assert e.x == x && e.y == y;
        assert e in CellWalls(w, h, x, y);
      }
    }
  }

  lemma ListedColumn(w: int, h: int, edges: seq<Edge>, x: int)
    requires Listed(w, h, edges, x, h)
    ensures Listed(w, h, edges, x + 1, 0)
  {
  }

  /** The inner loop of the enumeration: the walls right of and below each cell of column x. */
  method AddColumn(w: int, h: int, x: int, edges0: seq<Edge>) returns (edges: seq<Edge>)
    requires 1 <= h && 0 <= x < w
    requires Listed(w, h, edges0, x, 0)
    ensures Listed(w, h, edges, x + 1, 0)
    ensures |edges| == |edges0| + (if x < w - 1 then h else 0) + h - 1
  {
    edges := edges0;
    var y := 0;
    while y < h
      invariant 0 <= y <= h
      invariant Listed(w, h, edges, x, y)
      invariant |edges| == |edges0| + (if x < w - 1 then y else 0) + (if y < h then y else h - 1)
    {
      ghost var before := edges;
      if x < w - 1 {
        edges := edges + [MkEdge(w, Pos(x, y), Horizontal)];
      }
      if y < h - 1 {
        edges := edges + [MkEdge(w, Pos(x, y), Vertical)];
      }
      assert edges == before + CellWalls(w, h, x, y);
      ListedCell(w, h, before, x, y);
      y := y + 1;
    }
    ListedColumn(w, h, edges, x);
  }

  /** Every internal wall, once each: for each cell, column by column, the wall to
      its right (if any) and then the wall below it (if any). */
  method EnumerateWalls(w: int, h: int) returns (edges: seq<Edge>)
    requires w >= 1 && h >= 1
    ensures |edges| == WallCount(w, h) == (w - 1) * h + w * (h - 1)
    ensures forall k | 0 <= k < |edges| :: ValidWall(w, h, edges[k])
    ensures forall e | ValidWall(w, h, e) :: e in edges
    ensures forall i, j | 0 <= i < j < |edges| :: Precedes(edges[i], edges[j])
    ensures forall i, j | 0 <= i < j < |edges| :: edges[i] != edges[j]
  {
    edges := [];
    var x := 0;
    while x < w
      invariant 0 <= x <= w
      invariant Listed(w, h, edges, x, 0)
      invariant |edges| == WallsBeforeColumn(w, h, x)
    {
      edges := AddColumn(w, h, x, edges);
      WallsBeforeColumnStep(w, h, x);
      x := x + 1;
    }
    WallsBeforeColumnStep(w, h, 0);
    WallCountIsProduct(w, h);
  }

  /** `perm` lists 0 .. n-1, each exactly once: a shuffle, as indices into the edge list. */
  predicate IsPermutation(perm: seq<nat>, n: int) {
    0 <= n && |perm| == n && multiset(perm) == multiset(Iota(n))
  }

  lemma PermutationCovers(perm: seq<nat>, n: int)
    requires IsPermutation(perm, n)
    ensures forall k | 0 <= k < n :: perm[k] < n
    ensures forall j | 0 <= j < n :: j in perm
  {
    forall k | 0 <= k < n ensures perm[k] < n {
      assert perm[k] in multiset(Iota(n));
    }
    forall j | 0 <= j < n ensures j in perm {
      assert Iota(n)[j] == j;
      assert j in multiset(perm);
    }
  }

  /** The generator's working state: the grid and the union-find arrays. */
  datatype KState = KState(grid: Grid, parent: seq<nat>, rank: seq<nat>)

  ghost predicate Sound(w: int, h: int, s: KState) {
    && w >= 1 && h >= 1
    && WellFormed(s.grid, w, h)
    && |s.parent| == Area(w, h)
    && Valid(s.parent, s.rank)
  }

  /** The union-find root of the cell at `p`, through its id. */
  ghost function RootOf(w: int, h: int, s: KState, p: Pos): nat
    requires Sound(w, h, s) && InBounds(w, h, p)
  {
    IdInRange(w, h, p);
    Root(s.parent, s.rank, Id(w, p))
  }

  /** The wall `e` separates two cells of one set. */
  ghost predicate Joined(w: int, h: int, s: KState, e: Edge)
    requires Sound(w, h, s)
  {
    ValidWall(w, h, e) && RootOf(w, h, s, Lower(e)) == RootOf(w, h, s, Upper(e))
  }

  /** `s'` has merged the sets of `a` and `b` in `s` and left every other set alone. */
  ghost predicate Merges(w: int, h: int, s: KState, s': KState, a: Pos, b: Pos)
    requires Sound(w, h, s) && Sound(w, h, s') && InBounds(w, h, a) && InBounds(w, h, b)
  {
    && (RootOf(w, h, s', a) == RootOf(w, h, s, a) || RootOf(w, h, s', a) == RootOf(w, h, s, b))
    && forall p | InBounds(w, h, p) ::
         RootOf(w, h, s', p) ==
           (if RootOf(w, h, s, p) == RootOf(w, h, s, a) || RootOf(w, h, s, p) == RootOf(w, h, s, b)
            then RootOf(w, h, s', a) else RootOf(w, h, s, p))
  }

  /** The union-find part of handling an edge whose cells `a` and `b` have ids `u`
      and `v`: after the two finds (`q`), the union merges exactly their two sets. */
  lemma UnionMerges(w: int, h: int, s: KState, q: seq<nat>, s': KState, a: Pos, b: Pos, u: nat, v: nat)
    requires Sound(w, h, s) && InBounds(w, h, a) && InBounds(w, h, b)
    requires u == Id(w, a) && v == Id(w, b) && u < Area(w, h) && v < Area(w, h)
    requires Valid(q, s.rank) && |q| == Area(w, h) && Roots(q) == Roots(s.parent)
    requires forall j | 0 <= j < Area(w, h) :: Root(q, s.rank, j) == Root(s.parent, s.rank, j)
    requires WellFormed(s'.grid, w, h)
    requires s'.parent == Union(q, s.rank, u, v).parent && s'.rank == Union(q, s.rank, u, v).rank
    ensures Sound(w, h, s')
    ensures RootOf(w, h, s', a) == RootOf(w, h, s', b)
    ensures Merges(w, h, s, s', a, b)
    ensures |Roots(s'.parent)| == |Roots(s.parent)| - (if RootOf(w, h, s, a) == RootOf(w, h, s, b) then 0 else 1)
  {
    forall p | InBounds(w, h, p)
      ensures RootOf(w, h, s', p) ==
        (if RootOf(w, h, s, p) == RootOf(w, h, s, a) || RootOf(w, h, s, p) == RootOf(w, h, s, b)
         then RootOf(w, h, s', a) else RootOf(w, h, s, p))
    {
      UnionRootAt(w, h, s, q, s', a, b, u, v, p);
    }
  }

  lemma UnionRootAt(w: int, h: int, s: KState, q: seq<nat>, s': KState, a: Pos, b: Pos, u: nat, v: nat, p: Pos)
    requires Sound(w, h, s) && InBounds(w, h, a) && InBounds(w, h, b) && InBounds(w, h, p)
    requires u == Id(w, a) && v == Id(w, b) && u < Area(w, h) && v < Area(w, h)
    requires Valid(q, s.rank) && |q| == Area(w, h)
    requires forall j | 0 <= j < Area(w, h) :: Root(q, s.rank, j) == Root(s.parent, s.rank, j)
    requires Sound(w, h, s')
    requires s'.parent == Union(q, s.rank, u, v).parent && s'.rank == Union(q, s.rank, u, v).rank
    ensures RootOf(w, h, s', p) ==
      (if RootOf(w, h, s, p) == RootOf(w, h, s, a) || RootOf(w, h, s, p) == RootOf(w, h, s, b)
       then RootOf(w, h, s', a) else RootOf(w, h, s, p))
  {
    IdInRange(w, h, p);
  }

  /** Two finds on the cells of an edge already in one set change no root. */
  lemma FindsKeepRoots(w: int, h: int, s: KState, s': KState, a: Pos, b: Pos)
    requires Sound(w, h, s) && InBounds(w, h, a) && InBounds(w, h, b)
    requires RootOf(w, h, s, a) == RootOf(w, h, s, b)
    requires Valid(s'.parent, s.rank) && s'.rank == s.rank && |s'.parent| == Area(w, h)
    requires Roots(s'.parent) == Roots(s.parent)
    requires forall j | 0 <= j < Area(w, h) :: Root(s'.parent, s.rank, j) == Root(s.parent, s.rank, j)
    requires WellFormed(s'.grid, w, h)
    ensures Sound(w, h, s')
    ensures forall p | InBounds(w, h, p) :: RootOf(w, h, s', p) == RootOf(w, h, s, p)
    ensures Merges(w, h, s, s', a, b)
  {
    forall p | InBounds(w, h, p) ensures RootOf(w, h, s', p) == RootOf(w, h, s, p) {
      IdInRange(w, h, p);
    }
  }

  /** `s'` is `s` after handling the wall `e`: the cells of `e` now share a set, the
      two sets of `e`'s cells were merged and no other; if they already shared a set
      the grid and the number of sets are unchanged, otherwise the wall is removed
      and there is one set fewer. */
  ghost predicate Processed(w: int, h: int, s: KState, e: Edge, s': KState)
    requires Sound(w, h, s) && ValidWall(w, h, e)
  {
    && Sound(w, h, s')
    && Joined(w, h, s', e)
    && Merges(w, h, s, s', Lower(e), Upper(e))
    && (Joined(w, h, s, e) ==>
          s'.grid == s.grid && |Roots(s'.parent)| == |Roots(s.parent)|)
    && (!Joined(w, h, s, e) ==>
          s'.grid == RemoveWall(s.grid, Lower(e), Upper(e), Toward(e.orientation))
          && |Roots(s'.parent)| == |Roots(s.parent)| - 1)
  }

  /** Handles one edge of the shuffled list: two finds, then, only if the roots
      differ, a union and the removal of the wall. */
  function ProcessEdge(w: int, h: int, s: KState, e: Edge): (s': KState)
    requires Sound(w, h, s) && ValidWall(w, h, e)
    ensures Processed(w, h, s, e, s')
  {
    IdInRange(w, h, Lower(e));
    IdInRange(w, h, Upper(e));
    var f1 := Find(s.parent, s.rank, e.u);
    var f2 := Find(f1.parent, s.rank, e.v);
    Settle(w, h, s, e, f2.parent, f1.root == f2.root)
  }

  /** The rest of `ProcessEdge` once both finds are done: `q` is the compressed
      parent array and `joined` says whether the two roots met. */
  function Settle(w: int, h: int, s: KState, e: Edge, q: seq<nat>, joined: bool): (s': KState)
    requires Sound(w, h, s) && ValidWall(w, h, e)
    requires Valid(q, s.rank) && |q| == Area(w, h) && 0 <= e.u < Area(w, h) && 0 <= e.v < Area(w, h)
    requires Roots(q) == Roots(s.parent)
    requires forall j | 0 <= j < Area(w, h) :: Root(q, s.rank, j) == Root(s.parent, s.rank, j)
    requires joined == (Root(s.parent, s.rank, e.u) == Root(s.parent, s.rank, e.v))
    ensures Processed(w, h, s, e, s')
  {
    if joined then
      SkipEffect(w, h, s, e, q);
      KState(s.grid, q, s.rank)
    else
      CarveAcross(w, h, s, e, q)
  }

  /** The roots differ: union the two sets and remove the wall. */
  function CarveAcross(w: int, h: int, s: KState, e: Edge, q: seq<nat>): (s': KState)
    requires Sound(w, h, s) && ValidWall(w, h, e)
    requires Valid(q, s.rank) && |q| == Area(w, h) && 0 <= e.u < Area(w, h) && 0 <= e.v < Area(w, h)
    requires Roots(q) == Roots(s.parent)
    requires forall j | 0 <= j < Area(w, h) :: Root(q, s.rank, j) == Root(s.parent, s.rank, j)
    requires Root(s.parent, s.rank, e.u) != Root(s.parent, s.rank, e.v)
    ensures !Joined(w, h, s, e)
    ensures Processed(w, h, s, e, s')
  {
    var g := RemoveWall(s.grid, Lower(e), Upper(e), Toward(e.orientation));
    var m := Union(q, s.rank, e.u, e.v);
    CarveEffect(w, h, s, e, q, m, g);
    KState(g, m.parent, m.rank)
  }

  /** Finds that meet one root leave every set as it was. */
  lemma SkipEffect(w: int, h: int, s: KState, e: Edge, q: seq<nat>)
    requires Sound(w, h, s) && ValidWall(w, h, e)
    requires Valid(q, s.rank) && |q| == Area(w, h) && 0 <= e.u < Area(w, h) && 0 <= e.v < Area(w, h)
    requires Roots(q) == Roots(s.parent)
    requires forall j | 0 <= j < Area(w, h) :: Root(q, s.rank, j) == Root(s.parent, s.rank, j)
    requires Root(s.parent, s.rank, e.u) == Root(s.parent, s.rank, e.v)
    ensures Joined(w, h, s, e)
    ensures Processed(w, h, s, e, KState(s.grid, q, s.rank))
  {
    FindsKeepRoots(w, h, s, KState(s.grid, q, s.rank), Lower(e), Upper(e));
  }

  /** Finds that meet two roots: the union merges the two sets (`m`) and the wall is carved (`g`). */
  lemma CarveEffect(w: int, h: int, s: KState, e: Edge, q: seq<nat>, m: Merged, g: Grid)
    requires Sound(w, h, s) && ValidWall(w, h, e)
    requires Valid(q, s.rank) && |q| == Area(w, h) && 0 <= e.u < Area(w, h) && 0 <= e.v < Area(w, h)
    requires Roots(q) == Roots(s.parent)
    requires forall j | 0 <= j < Area(w, h) :: Root(q, s.rank, j) == Root(s.parent, s.rank, j)
    requires Root(s.parent, s.rank, e.u) != Root(s.parent, s.rank, e.v)
    requires m == Union(q, s.rank, e.u, e.v) && WellFormed(g, w, h)
    ensures !Joined(w, h, s, e)
    ensures Sound(w, h, KState(g, m.parent, m.rank))
    ensures Joined(w, h, KState(g, m.parent, m.rank), e)
    ensures Merges(w, h, s, KState(g, m.parent, m.rank), Lower(e), Upper(e))
    ensures |Roots(m.parent)| == |Roots(s.parent)| - 1
  {
    UnionMerges(w, h, s, q, KState(g, m.parent, m.rank), Lower(e), Upper(e), e.u, e.v);
  }

  /** Cells that share a set are linked through open walls. */
  ghost predicate SetsLinked(w: int, h: int, s: KState)
    requires Sound(w, h, s)
  {
    forall a, b | InBounds(w, h, a) && InBounds(w, h, b) && RootOf(w, h, s, a) == RootOf(w, h, s, b) ::
      Linked(w, h, s.grid, a, b)
  }

  /** Loop invariant of the generator: the carved walls are exactly the open ones,
      each lies inside one set, every carve merged two sets, and cells of one set
      are linked through open walls. */
  ghost predicate KInv(w: int, h: int, s: KState, carved: set<Edge>) {
    && Sound(w, h, s)
    && WallsMatch(w, h, s.grid, carved)
    && (forall e | e in carved :: Joined(w, h, s, e))
    && |carved| + |Roots(s.parent)| == Area(w, h)
    && SetsLinked(w, h, s)
  }

  lemma KStart(w: int, h: int)
    requires w >= 1 && h >= 1
    ensures KInv(w, h, KState(Reset(w, h).grid, Iota(Area(w, h)), Zeros(Area(w, h))), {})
  {
    var s := KState(Reset(w, h).grid, Iota(Area(w, h)), Zeros(Area(w, h)));
    InitialSingletons(Area(w, h));
    ResetHasNoPassages(w, h);
    IdBijection(w, h);
    forall a, b | InBounds(w, h, a) && InBounds(w, h, b) && RootOf(w, h, s, a) == RootOf(w, h, s, b)
      ensures Linked(w, h, s.grid, a, b)
    {
      assert CellOf(w, Id(w, a)) == a && CellOf(w, Id(w, b)) == b;
      LinkedRefl(w, h, s.grid, a);
    }
  }

  /** Two cells in one set before a merge are in one set after it. */
  lemma MergeKeepsJoined(w: int, h: int, s: KState, s': KState, a: Pos, b: Pos, x: Pos, y: Pos)
    requires Sound(w, h, s) && Sound(w, h, s')
    requires InBounds(w, h, a) && InBounds(w, h, b) && InBounds(w, h, x) && InBounds(w, h, y)
    requires Merges(w, h, s, s', a, b)
    requires RootOf(w, h, s, x) == RootOf(w, h, s, y)
    ensures RootOf(w, h, s', x) == RootOf(w, h, s', y)
  {
  }

  /** Merging two sets that are already one changes no cell's set. */
  lemma MergeJoinedKeepsSets(w: int, h: int, s: KState, s': KState, a: Pos, b: Pos)
    requires Sound(w, h, s) && Sound(w, h, s') && InBounds(w, h, a) && InBounds(w, h, b)
    requires Merges(w, h, s, s', a, b)
    requires RootOf(w, h, s, a) == RootOf(w, h, s, b)
    ensures forall p | InBounds(w, h, p) :: RootOf(w, h, s', p) == RootOf(w, h, s, p)
  {
  }

  /** Every carved wall still lies inside one set after merging across `e`, and so does `e`. */
  lemma CarvedStayJoined(w: int, h: int, s: KState, s': KState, carved: set<Edge>, e: Edge)
    requires Sound(w, h, s) && Sound(w, h, s') && ValidWall(w, h, e)
    requires forall f | f in carved :: Joined(w, h, s, f)
    requires Merges(w, h, s, s', Lower(e), Upper(e))
    requires Joined(w, h, s', e)
    ensures forall f | f in carved + {e} :: Joined(w, h, s', f)
  {
    forall f | f in carved ensures Joined(w, h, s', f) {
      MergeKeepsJoined(w, h, s, s', Lower(e), Upper(e), Lower(f), Upper(f));
    }
  }

  /** Merging the sets of `a` and `b` after linking them keeps same-set cells linked. */
  lemma MergeKeepsLinked(w: int, h: int, s: KState, s': KState, a: Pos, b: Pos)
    requires Sound(w, h, s) && Sound(w, h, s') && InBounds(w, h, a) && InBounds(w, h, b)
    requires SetsLinked(w, h, s) && Merges(w, h, s, s', a, b)
    requires NoWallAdded(w, h, s.grid, s'.grid) && Paired(w, h, s'.grid)
    requires Linked(w, h, s'.grid, a, b)
    ensures SetsLinked(w, h, s')
  {
    var g, g' := s.grid, s'.grid;
    var ra, rb := RootOf(w, h, s, a), RootOf(w, h, s, b);
    forall x, y | InBounds(w, h, x) && InBounds(w, h, y) && RootOf(w, h, s', x) == RootOf(w, h, s', y)
      ensures Linked(w, h, g', x, y)
    {
      var rx, ry := RootOf(w, h, s, x), RootOf(w, h, s, y);
      if rx == ry {
        LinkedMonotone(w, h, g, g', x, y);
      } else {
        var (x0, y0) := if rx == ra then (a, b) else (b, a);
        if rx != ra { LinkedSym(w, h, g', a, b); }
        LinkedMonotone(w, h, g, g', x, x0);
        LinkedMonotone(w, h, g, g', y0, y);
        LinkedTrans(w, h, g', x, x0, y0);
        LinkedTrans(w, h, g', x, y0, y);
      }
    }
  }

  /** An edge whose cells already share a set changes neither the grid nor the carved set. */
  lemma SkipKeepsInv(w: int, h: int, s: KState, carved: set<Edge>, e: Edge)
    requires KInv(w, h, s, carved) && ValidWall(w, h, e)
    requires Joined(w, h, s, e)
    ensures KInv(w, h, ProcessEdge(w, h, s, e), carved)
  {
    var s' := ProcessEdge(w, h, s, e);
    CarvedStayJoined(w, h, s, s', carved, e);
    MergeJoinedKeepsSets(w, h, s, s', Lower(e), Upper(e));
    assert SetsLinked(w, h, s') by {
      forall x, y | InBounds(w, h, x) && InBounds(w, h, y) && RootOf(w, h, s', x) == RootOf(w, h, s', y)
        ensures Linked(w, h, s'.grid, x, y)
      {
        assert RootOf(w, h, s, x) == RootOf(w, h, s, y);
      }
    }
  }

  /** An edge between two sets is carved: the carved set gains exactly that edge. */
  lemma CarveKeepsInv(w: int, h: int, s: KState, carved: set<Edge>, e: Edge)
    requires KInv(w, h, s, carved) && ValidWall(w, h, e)
    requires !Joined(w, h, s, e)
    ensures KInv(w, h, ProcessEdge(w, h, s, e), carved + {e})
  {
    var s' := ProcessEdge(w, h, s, e);
    var a, d := Lower(e), Toward(e.orientation);
    var c' := carved + {e};
    EdgeOfValidWall(w, h, e);
    CarveKeepsMatch(w, h, s.grid, carved, a, d);
    assert WallsMatch(w, h, s'.grid, c');
    assert e !in carved;
    CarvedStayJoined(w, h, s, s', carved, e);
    MoreCarvedNoWallAdded(w, h, s.grid, carved, s'.grid, c');
    MatchedIsPaired(w, h, s'.grid, c');
    LinkedStep(w, h, s'.grid, a, d);
    MergeKeepsLinked(w, h, s, s', a, Upper(e));
    AddFresh(carved, e);
  }

  lemma AddFresh(c: set<Edge>, e: Edge)
    requires e !in c
    ensures |c + {e}| == |c| + 1
  {
  }

  /** One edge keeps the invariant; the carved set grows by that edge exactly when it was carved. */
  lemma ProcessEdgeKeepsInv(w: int, h: int, s: KState, carved: set<Edge>, e: Edge)
    requires KInv(w, h, s, carved) && ValidWall(w, h, e)
    ensures KInv(w, h, ProcessEdge(w, h, s, e),
                 if Joined(w, h, s, e) then carved else carved + {e})
  {
    if Joined(w, h, s, e) {
      SkipKeepsInv(w, h, s, carved, e);
    } else {
      CarveKeepsInv(w, h, s, carved, e);
    }
  }

  /** If every internal wall joins two cells of one set, all cells are in one set. */
  lemma {:induction false} OneSetAt(w: int, h: int, s: KState, p: Pos)
    requires Sound(w, h, s) && InBounds(w, h, p)
    requires forall e | ValidWall(w, h, e) :: Joined(w, h, s, e)
    ensures RootOf(w, h, s, p) == RootOf(w, h, s, Pos(0, 0))
    decreases p.x + p.y
  {
    if p.y > 0 {
      var e := MkEdge(w, Pos(p.x, p.y - 1), Vertical);
      assert ValidWall(w, h, e);
      OneSetAt(w, h, s, Pos(p.x, p.y - 1));
    } else if p.x > 0 {
      var e := MkEdge(w, Pos(p.x - 1, p.y), Horizontal);
      assert ValidWall(w, h, e);
      OneSetAt(w, h, s, Pos(p.x - 1, p.y));
    }
  }

  lemma KruskalFinish(w: int, h: int, s: KState, carved: set<Edge>)
    requires KInv(w, h, s, carved)
    requires forall e | ValidWall(w, h, e) :: Joined(w, h, s, e)
    ensures |carved| == Area(w, h) - 1
    ensures Connected(w, h, s.grid)
  {
    var r0 := RootOf(w, h, s, Pos(0, 0));
    forall p | InBounds(w, h, p) ensures RootOf(w, h, s, p) == r0 {
      OneSetAt(w, h, s, p);
    }
    IdBijection(w, h);
    forall r | r in Roots(s.parent) ensures r == r0 {
      var p := CellOf(w, r);
      assert RootOf(w, h, s, p) == r;
    }
    assert r0 in Roots(s.parent);
    assert Roots(s.parent) == {r0};
  }

  /** Marks every cell visited and leaves every wall as it is. */
  function MarkAllVisited(w: int, h: int, g: Grid): (r: Grid)
    requires WellFormed(g, w, h)
    ensures WellFormed(r, w, h)
    ensures forall p, d | InBounds(w, h, p) :: At(r, p).Wall(d) == At(g, p).Wall(d)
    ensures forall p | InBounds(w, h, p) :: At(r, p).visited
  {
    var r := seq(|g|, x requires 0 <= x < |g| => seq(|g[x]|, y requires 0 <= y < |g[x]| => g[x][y].(visited := true)));
    assert forall p | InBounds(w, h, p) :: At(r, p) == At(g, p).(visited := true);
    r
  }

  /** Once every listed edge has been processed, every internal wall lies inside one set. */
  lemma AllWallsJoined(w: int, h: int, s: KState, edges: seq<Edge>, perm: seq<nat>)
    requires Sound(w, h, s)
    requires forall k | 0 <= k < |edges| :: ValidWall(w, h, edges[k])
    requires forall e | ValidWall(w, h, e) :: e in edges
    requires IsPermutation(perm, |edges|)
    requires forall k | 0 <= k < |edges| ::
      perm[k] < |edges| && Joined(w, h, s, edges[perm[k]])
    ensures forall e | ValidWall(w, h, e) :: Joined(w, h, s, e)
  {
    PermutationCovers(perm, |edges|);
    forall e | ValidWall(w, h, e) ensures Joined(w, h, s, e) {
      var j :| 0 <= j < |edges| && edges[j] == e;
      assert j in perm;
      var k :| 0 <= k < |perm| && perm[k] == j;
    }
  }

  /** The finished grid, with every cell marked visited, is a perfect maze. */
  lemma KruskalMaze(w: int, h: int, s: KState, carved: set<Edge>)
    requires KInv(w, h, s, carved)
    requires forall e | ValidWall(w, h, e) :: Joined(w, h, s, e)
    ensures PerfectMaze(w, h, Maze(w, h, MarkAllVisited(w, h, s.grid), Pos(0, 0), Pos(w - 1, h - 1), Pos(0, 0)))
  {
    KruskalFinish(w, h, s, carved);
    var g := MarkAllVisited(w, h, s.grid);
    MoreCarvedNoWallAdded(w, h, s.grid, carved, g, carved);
    forall a, b | InBounds(w, h, a) && InBounds(w, h, b) ensures Linked(w, h, g, a, b) {
      LinkedMonotone(w, h, s.grid, g, a, b);
    }
    CarvedTreeIsPerfect(w, h, g, carved);
  }

  /** Processing the i-th edge of the shuffled order keeps every earlier edge
      inside one set and puts the i-th one inside one set too. */
  lemma PrefixStaysJoined(w: int, h: int, s: KState, edges: seq<Edge>, perm: seq<nat>, i: int)
    requires Sound(w, h, s) && 0 <= i < |perm| <= |edges|
    requires forall k | 0 <= k < |edges| :: ValidWall(w, h, edges[k])
    requires forall k | 0 <= k < |perm| :: perm[k] < |edges|
    requires forall k | 0 <= k < i :: Joined(w, h, s, edges[perm[k]])
    ensures forall k | 0 <= k <= i :: Joined(w, h, ProcessEdge(w, h, s, edges[perm[i]]), edges[perm[k]])
  {
    var e := edges[perm[i]];
    var s' := ProcessEdge(w, h, s, e);
    forall k | 0 <= k < i ensures Joined(w, h, s', edges[perm[k]]) {
      var f := edges[perm[k]];
      MergeKeepsJoined(w, h, s, s', Lower(e), Upper(e), Lower(f), Upper(f));
    }
  }

  /** The main loop: every edge in the shuffled order goes through `ProcessEdge`. */
  method ProcessAll(w: int, h: int, edges: seq<Edge>, perm: seq<nat>) returns (s: KState, ghost carved: set<Edge>)
    requires w >= 1 && h >= 1
    requires forall k | 0 <= k < |edges| :: ValidWall(w, h, edges[k])
    requires forall e | ValidWall(w, h, e) :: e in edges
    requires IsPermutation(perm, |edges|)
    ensures KInv(w, h, s, carved)
    ensures forall e | ValidWall(w, h, e) :: Joined(w, h, s, e)
  {
    PermutationCovers(perm, |edges|);
    var n := Area(w, h);
    s := KState(Reset(w, h).grid, Iota(n), Zeros(n));
    carved := {};
    KStart(w, h);
    var i := 0;
    while i < |edges|
      invariant 0 <= i <= |edges|
      invariant KInv(w, h, s, carved)
      invariant forall k | 0 <= k < i :: Joined(w, h, s, edges[perm[k]])
    {
      var e := edges[perm[i]];
      ProcessEdgeKeepsInv(w, h, s, carved, e);
      if !Joined(w, h, s, e) {
        carved := carved + {e};
      }
      PrefixStaysJoined(w, h, s, edges, perm, i);
      s := ProcessEdge(w, h, s, e);
      i := i + 1;
    }
    AllWallsJoined(w, h, s, edges, perm);
  }

  /** Builds a perfect maze: the edges are taken in the order `perm` gives them. */
  method GenerateKruskals(w: int, h: int, perm: seq<nat>) returns (m: Maze)
    requires w >= 1 && h >= 1
    requires IsPermutation(perm, WallCount(w, h))
    ensures PerfectMaze(w, h, m)
  {
    var edges := EnumerateWalls(w, h);
    var s;
    ghost var carved;
    s, carved := ProcessAll(w, h, edges, perm);
    KruskalMaze(w, h, s, carved);
    m := Maze(w, h, MarkAllVisited(w, h, s.grid), Pos(0, 0), Pos(w - 1, h - 1), Pos(0, 0));
  }
}
