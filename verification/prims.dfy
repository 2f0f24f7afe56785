/** Randomized Prim's generation. A visited region grows from a random seed
    cell; the frontier lists (target, parent, direction) entries for unvisited
    neighbours of visited cells. A random entry is popped each step: if its
    target is still unvisited the wall to its parent is carved, the target is
    visited and its unvisited neighbours join the frontier; otherwise the entry
    is stale and dropped. Randomness is the function `rand`: `rand(k, n)` is the
    k-th draw, in [0, n). */
module Prims {
  import opened MazeGrid
  import opened Paths

  /** Frontier entry: `cell` can be reached from the visited cell `parent` through its side `dir`. */
  datatype Entry = Entry(cell: Pos, parent: Pos, dir: Dir)

  /** `r` lists, in order, entries with parent `p` for some of the neighbours of `ns`: it is a
      subsequence of `ns` read as entries. */
  ghost predicate Embeds(p: Pos, r: seq<Entry>, ns: seq<Neighbor>)
    decreases |ns|
  {
    if |r| == 0 then true
    else if |ns| == 0 then false
    else if r[0] == Entry(ns[0].pos, p, ns[0].dir) then Embeds(p, r[1..], ns[1..])
    else Embeds(p, r, ns[1..])
  }

  /** Entries, in order and with parent `p`, for the neighbours in `ns` not yet visited. */
  function Unvisited(g: Grid, p: Pos, ns: seq<Neighbor>): (r: seq<Entry>)
    requires forall n | n in ns :: InGrid(g, n.pos)
    ensures |r| <= |ns|
    ensures forall en | en in r ::
      en.parent == p && Neighbor(en.cell, en.dir) in ns && !At(g, en.cell).visited
    ensures forall n | n in ns && !At(g, n.pos).visited :: Entry(n.pos, p, n.dir) in r
    ensures Embeds(p, r, ns)
  {
    if |ns| == 0 then []
    else
      var rest := Unvisited(g, p, ns[1..]);
      if At(g, ns[0].pos).visited then
        assert |rest| > 0 ==> rest[0] in rest && rest[0] != Entry(ns[0].pos, p, ns[0].dir);
        rest
      else
        var r := [Entry(ns[0].pos, p, ns[0].dir)] + rest;
        assert r[1..] == rest;
        r
  }

  /** A subsequence of neighbours listed in strict scan order is itself in strict scan order. */
  lemma {:induction false} EmbedsKeepsOrder(p: Pos, r: seq<Entry>, ns: seq<Neighbor>)
    requires Embeds(p, r, ns)
    requires forall i, j | 0 <= i < j < |ns| :: ScanOrder(ns[i].dir) < ScanOrder(ns[j].dir)
    ensures forall en | en in r :: Neighbor(en.cell, en.dir) in ns
    ensures forall i, j | 0 <= i < j < |r| :: ScanOrder(r[i].dir) < ScanOrder(r[j].dir)
    decreases |ns|
  {
    if |r| > 0 {
      if r[0] == Entry(ns[0].pos, p, ns[0].dir) {
        EmbedsKeepsOrder(p, r[1..], ns[1..]);
        forall j | 0 < j < |r|
          ensures ScanOrder(r[0].dir) < ScanOrder(r[j].dir)
        {
          assert r[j] in r[1..];
          var k :| 0 <= k < |ns[1..]| && ns[1..][k] == Neighbor(r[j].cell, r[j].dir);
          assert ns[k + 1] == ns[1..][k];
        }
        forall i, j | 0 < i < j < |r|
          ensures ScanOrder(r[i].dir) < ScanOrder(r[j].dir)
        {
          assert r[i] == r[1..][i - 1] && r[j] == r[1..][j - 1];
        }
        forall en | en in r
          ensures Neighbor(en.cell, en.dir) in ns
        {
          if en != r[0] {
            assert en in r[1..];
          }
        }
      } else {
        EmbedsKeepsOrder(p, r, ns[1..]);
      }
    }
  }

  /** What `p` adds to the frontier: an entry for each unvisited in-bounds neighbour, once each,
      in the scan order left, right, top, bottom. */
  function Expand(w: int, h: int, g: Grid, p: Pos): (r: seq<Entry>)
    requires WellFormed(g, w, h) && InBounds(w, h, p)
    ensures |r| <= 4
    ensures forall en | en in r ::
      en.parent == p && InBounds(w, h, en.cell) && en.cell == Step(p, en.dir) && !At(g, en.cell).visited
    ensures forall d | InBounds(w, h, Step(p, d)) && !At(g, Step(p, d)).visited :: Entry(Step(p, d), p, d) in r
    ensures forall i, j | 0 <= i < j < |r| :: ScanOrder(r[i].dir) < ScanOrder(r[j].dir)
  {
    var ns := Neighbors(w, h, p);
    assert forall n | n in ns :: InBounds(w, h, n.pos) && n.pos == Step(p, n.dir);
    var r := Unvisited(g, p, ns);
    EmbedsKeepsOrder(p, r, ns);
    r
  }

  /** The entry points from a visited in-bounds cell to the adjacent in-bounds cell behind `dir`. */
  ghost predicate EntryOk(w: int, h: int, g: Grid, en: Entry)
    requires WellFormed(g, w, h)
  {
    InBounds(w, h, en.parent) && At(g, en.parent).visited
    && InBounds(w, h, en.cell) && en.cell == Step(en.parent, en.dir)
  }

  /** Every unvisited neighbour of a visited cell is waiting in the frontier. */
  ghost predicate Covered(w: int, h: int, g: Grid, fr: seq<Entry>)
    requires WellFormed(g, w, h)
  {
    forall p, d | InBounds(w, h, p) && At(g, p).visited && InBounds(w, h, Step(p, d)) && !At(g, Step(p, d)).visited ::
      Entry(Step(p, d), p, d) in fr
  }

  /** The frontier's entries are sound and it covers the visited region's border. */
  ghost predicate FrontierOk(w: int, h: int, g: Grid, fr: seq<Entry>)
    requires WellFormed(g, w, h)
  {
    (forall k | 0 <= k < |fr| :: EntryOk(w, h, g, fr[k])) && Covered(w, h, g, fr)
  }

  /** The visited region: the carved walls are exactly the open ones, `vis` holds
      the visited cells including the seed, each carved wall lies between two
      visited cells, there is one carved wall fewer than visited cells, and the
      seed reaches every visited cell. */
  ghost predicate RegionInv(w: int, h: int, seed: Pos, g: Grid, vis: set<Pos>, carved: set<Edge>) {
    && InBounds(w, h, seed) && WallsMatch(w, h, g, carved)
    && (forall p | p in vis :: InBounds(w, h, p))
    && (forall p | InBounds(w, h, p) :: At(g, p).visited <==> p in vis)
    && seed in vis
    && (forall e | e in carved :: Lower(e) in vis && Upper(e) in vis)
    && |carved| + 1 == |vis|
    && (forall p | p in vis :: Linked(w, h, g, seed, p))
  }

  /** The frontier with its i-th entry popped, order kept. */
  function Pop(fr: seq<Entry>, i: int): (r: seq<Entry>)
    requires 0 <= i < |fr|
    ensures |r| == |fr| - 1
    ensures forall k | 0 <= k < |r| :: r[k] == fr[if k < i then k else k + 1]
    ensures forall x | x in fr && x != fr[i] :: x in r
  {
    fr[..i] + fr[i + 1..]
  }

  lemma PrimStart(w: int, h: int, seed: Pos)
    requires w >= 1 && h >= 1 && InBounds(w, h, seed)
    ensures var g := Visit(Reset(w, h).grid, seed);
      RegionInv(w, h, seed, g, {seed}, {}) && FrontierOk(w, h, g, Expand(w, h, g, seed))
  {
    var g0 := Reset(w, h).grid;
    var g := Visit(g0, seed);
    ResetHasNoPassages(w, h);
    VisitKeepsMatch(w, h, g0, {}, seed);
    LinkedRefl(w, h, g, seed);
    assert RegionInv(w, h, seed, g, {seed}, {});
    StartFrontier(w, h, g, seed);
  }

  /** With only the seed visited, the seed's expansion is a sound, covering frontier. */
  lemma StartFrontier(w: int, h: int, g: Grid, seed: Pos)
    requires WellFormed(g, w, h) && InBounds(w, h, seed)
    requires forall p | InBounds(w, h, p) :: At(g, p).visited <==> p == seed
    ensures FrontierOk(w, h, g, Expand(w, h, g, seed))
  {
    var fr := Expand(w, h, g, seed);
    assert forall k | 0 <= k < |fr| :: fr[k] in fr;
  }

  /** Dropping a stale entry, whose target is already visited, keeps the frontier sound and covering. */
  lemma PrimSkip(w: int, h: int, g: Grid, fr: seq<Entry>, i: int)
    requires WellFormed(g, w, h) && FrontierOk(w, h, g, fr) && 0 <= i < |fr|
    requires InGrid(g, fr[i].cell) && At(g, fr[i].cell).visited
    ensures FrontierOk(w, h, g, Pop(fr, i))
  {
    var r := Pop(fr, i);
    forall p, d | InBounds(w, h, p) && At(g, p).visited && InBounds(w, h, Step(p, d)) && !At(g, Step(p, d)).visited
      ensures Entry(Step(p, d), p, d) in r
    {
      assert Entry(Step(p, d), p, d) in fr;
    }
  }

  /** The grid after carving from the entry's parent into its target and visiting the target. */
  function CarveInto(g: Grid, en: Entry): (r: Grid)
    requires InGrid(g, en.parent) && InGrid(g, en.cell)
    ensures SameShape(g, r)
    ensures forall q, s | InGrid(g, q) ::
      At(r, q).Wall(s) == (At(g, q).Wall(s) && !((q == en.parent && s == en.dir) || (q == en.cell && s == Opposite(en.dir))))
    ensures forall q | InGrid(g, q) :: At(r, q).visited == (q == en.cell || At(g, q).visited)
  {
    Visit(RemoveWall(g, en.parent, en.cell, en.dir), en.cell)
  }

  /** Carving into an unvisited target keeps the walls matched to the carved set plus that wall,
      and that wall is new. */
  lemma CarveWalls(w: int, h: int, g: Grid, carved: set<Edge>, vis: set<Pos>, en: Entry)
    requires WallsMatch(w, h, g, carved) && EntryOk(w, h, g, en)
    requires en.cell !in vis
    requires forall e | e in carved :: Lower(e) in vis && Upper(e) in vis
    ensures WallsMatch(w, h, CarveInto(g, en), carved + {EdgeBetween(w, en.parent, en.dir)})
    ensures EdgeBetween(w, en.parent, en.dir) !in carved
  {
    var e := EdgeBetween(w, en.parent, en.dir);
    var g1 := RemoveWall(g, en.parent, en.cell, en.dir);
    CarveKeepsMatch(w, h, g, carved, en.parent, en.dir);
    VisitKeepsMatch(w, h, g1, carved + {e}, en.cell);
    EdgeBetweenEnds(w, en.parent, en.dir);
  }

  /** The carved wall joins the entry's parent, already visited, to its target, visited now. */
  lemma CarveEnds(w: int, h: int, carved: set<Edge>, vis: set<Pos>, en: Entry)
    requires en.parent in vis && en.cell == Step(en.parent, en.dir)
    requires forall e | e in carved :: Lower(e) in vis && Upper(e) in vis
    ensures forall e | e in carved + {EdgeBetween(w, en.parent, en.dir)} ::
      Lower(e) in vis + {en.cell} && Upper(e) in vis + {en.cell}
  {
    EdgeBetweenEnds(w, en.parent, en.dir);
  }

  /** One new carved wall and one new visited cell keep the count in step. */
  lemma CarveCount(carved: set<Edge>, e: Edge, vis: set<Pos>, c: Pos)
    requires e !in carved && c !in vis && |carved| + 1 == |vis|
    ensures |carved + {e}| + 1 == |vis + {c}|
  {
    assert carved * {e} == {};
    assert vis * {c} == {};
  }

  /** After carving, the old frontier minus the popped entry plus the target's expansion is sound and covering. */
  lemma CarveFrontier(w: int, h: int, g: Grid, fr: seq<Entry>, i: int)
    requires WellFormed(g, w, h) && FrontierOk(w, h, g, fr) && 0 <= i < |fr|
    requires InGrid(g, fr[i].cell) && !At(g, fr[i].cell).visited
    ensures var g' := CarveInto(g, fr[i]);
      FrontierOk(w, h, g', Pop(fr, i) + Expand(w, h, g', fr[i].cell))
  {
    var en := fr[i];
    assert EntryOk(w, h, g, en);
    var g' := CarveInto(g, en);
    var r := Pop(fr, i);
    var x := Expand(w, h, g', en.cell);
    forall p, d | InBounds(w, h, p) && At(g', p).visited && InBounds(w, h, Step(p, d)) && !At(g', Step(p, d)).visited
      ensures Entry(Step(p, d), p, d) in r + x
    {
      if p != en.cell {
        assert Entry(Step(p, d), p, d) in fr;
      }
    }
    forall k | 0 <= k < |r + x| ensures EntryOk(w, h, g', (r + x)[k]) {
      if k >= |r| {
        assert (r + x)[k] in x;
      }
    }
  }

  /** After carving, the seed still reaches every visited cell, the new one included. */
  lemma CarveLinked(w: int, h: int, seed: Pos, g: Grid, vis: set<Pos>, carved: set<Edge>, en: Entry)
    requires WallsMatch(w, h, g, carved) && EntryOk(w, h, g, en) && en.parent in vis
    requires forall p | p in vis :: InBounds(w, h, p) && Linked(w, h, g, seed, p)
    requires WallsMatch(w, h, CarveInto(g, en), carved + {EdgeBetween(w, en.parent, en.dir)})
    ensures forall p | p in vis + {en.cell} :: Linked(w, h, CarveInto(g, en), seed, p)
  {
    var g' := CarveInto(g, en);
    MoreCarvedNoWallAdded(w, h, g, carved, g', carved + {EdgeBetween(w, en.parent, en.dir)});
    forall p | p in vis ensures Linked(w, h, g', seed, p) {
      LinkedMonotone(w, h, g, g', seed, p);
    }
    assert CanStep(w, h, g', en.parent, en.dir);
    LinkedStep(w, h, g', en.parent, en.dir);
    LinkedTrans(w, h, g', seed, en.parent, en.cell);
  }

  /** Carving into an unvisited target grows the region by that cell and that wall. */
  lemma PrimCarve(w: int, h: int, seed: Pos, g: Grid, vis: set<Pos>, carved: set<Edge>, en: Entry)
    requires RegionInv(w, h, seed, g, vis, carved)
    requires EntryOk(w, h, g, en) && !At(g, en.cell).visited
    ensures en.cell in Cells(w, h) - vis
    ensures RegionInv(w, h, seed, CarveInto(g, en), vis + {en.cell}, carved + {EdgeBetween(w, en.parent, en.dir)})
  {
    var e := EdgeBetween(w, en.parent, en.dir);
    InCells(w, h, en.cell);
    CarveWalls(w, h, g, carved, vis, en);
    CarveEnds(w, h, carved, vis, en);
    CarveCount(carved, e, vis, en.cell);
    CarveLinked(w, h, seed, g, vis, carved, en);
    CarveVisits(w, h, g, vis, en);
  }

  /** Carving into `en` visits exactly its target. */
  lemma CarveVisits(w: int, h: int, g: Grid, vis: set<Pos>, en: Entry)
    requires WellFormed(g, w, h) && EntryOk(w, h, g, en)
    requires forall p | p in vis :: InBounds(w, h, p)
    requires forall p | InBounds(w, h, p) :: At(g, p).visited <==> p in vis
    ensures forall p | p in vis + {en.cell} :: InBounds(w, h, p)
    ensures forall p | InBounds(w, h, p) :: At(CarveInto(g, en), p).visited <==> p in vis + {en.cell}
  {
  }

  /** In a grid where every in-bounds neighbour of a visited cell is visited, every
      cell is visited once the seed is. */
  lemma {:induction false} ClosedReachesAll(w: int, h: int, g: Grid, seed: Pos, p: Pos)
    requires WellFormed(g, w, h) && InBounds(w, h, seed) && InBounds(w, h, p) && At(g, seed).visited
    requires forall q, d | InBounds(w, h, q) && At(g, q).visited && InBounds(w, h, Step(q, d)) ::
      At(g, Step(q, d)).visited
    ensures At(g, p).visited
    decreases (if p.x < seed.x then seed.x - p.x else p.x - seed.x) + (if p.y < seed.y then seed.y - p.y else p.y - seed.y)
  {
    if p.x < seed.x {
      ClosedReachesAll(w, h, g, seed, Step(p, Right));
      assert Step(Step(p, Right), Left) == p;
    } else if p.x > seed.x {
      ClosedReachesAll(w, h, g, seed, Step(p, Left));
      assert Step(Step(p, Left), Right) == p;
    } else if p.y < seed.y {
      ClosedReachesAll(w, h, g, seed, Step(p, Bottom));
      assert Step(Step(p, Bottom), Top) == p;
    } else if p.y > seed.y {
      ClosedReachesAll(w, h, g, seed, Step(p, Top));
      assert Step(Step(p, Top), Bottom) == p;
    }
  }

  /** An empty covering frontier means the region has no border left: every cell is visited. */
  lemma EmptyFrontierAllVisited(w: int, h: int, seed: Pos, g: Grid, vis: set<Pos>)
    requires WellFormed(g, w, h) && InBounds(w, h, seed) && At(g, seed).visited
    requires Covered(w, h, g, [])
    requires forall p | p in vis :: InBounds(w, h, p)
    requires forall p | InBounds(w, h, p) :: At(g, p).visited <==> p in vis
    ensures forall p | InBounds(w, h, p) :: At(g, p).visited
    ensures vis == Cells(w, h)
  {
    assert forall q, d | InBounds(w, h, q) && At(g, q).visited && InBounds(w, h, Step(q, d)) ::
      At(g, Step(q, d)).visited;
    forall p | InBounds(w, h, p) ensures At(g, p).visited {
      ClosedReachesAll(w, h, g, seed, p);
    }
    AllCells(w, h, vis);
  }

  /** With the frontier empty the grid is a perfect maze. */
  lemma PrimFinish(w: int, h: int, seed: Pos, g: Grid, vis: set<Pos>, carved: set<Edge>)
    requires w >= 1 && h >= 1
    requires RegionInv(w, h, seed, g, vis, carved) && FrontierOk(w, h, g, [])
    ensures PerfectMaze(w, h, Maze(w, h, g, Pos(0, 0), Pos(w - 1, h - 1), Pos(0, 0)))
  {
    EmptyFrontierAllVisited(w, h, seed, g, vis);
    CellsSize(w, h);
    assert |carved| == Area(w, h) - 1;
    MatchedIsPaired(w, h, g, carved);
    HubConnected(w, h, g, seed);
    CarvedTreeIsPerfect(w, h, g, carved);
  }

  /** Builds a perfect maze by randomized Prim's: the seed cell is (rand(0, W), rand(1, H))
      and the k-th frontier pick, k = 2, 3, ..., is rand(k, |frontier|). */
  method GeneratePrims(w: int, h: int, rand: (nat, nat) -> nat) returns (m: Maze)
    requires w >= 1 && h >= 1
    requires forall k: nat, n: nat | n > 0 :: rand(k, n) < n
    ensures PerfectMaze(w, h, m)
  {
    var g := Reset(w, h).grid;
    var seed := Pos(rand(0, w), rand(1, h));
    g := Visit(g, seed);
    var frontier := Expand(w, h, g, seed);
    ghost var vis := {seed};
    ghost var carved: set<Edge> := {};
    PrimStart(w, h, seed);
    var k := 2;
    while |frontier| > 0
      invariant RegionInv(w, h, seed, g, vis, carved)
      invariant FrontierOk(w, h, g, frontier)
      decreases Cells(w, h) - vis, |frontier|
    {
      var index := rand(k, |frontier|);
      k := k + 1;
      var en := frontier[index];
      assert EntryOk(w, h, g, en);
      if !At(g, en.cell).visited {
        CarveFrontier(w, h, g, frontier, index);
        PrimCarve(w, h, seed, g, vis, carved, en);
        g := CarveInto(g, en);
        carved := carved + {EdgeBetween(w, en.parent, en.dir)};
        vis := vis + {en.cell};
        frontier := Pop(frontier, index) + Expand(w, h, g, en.cell);
      } else {
        PrimSkip(w, h, g, frontier, index);
        frontier := Pop(frontier, index);
      }
    }
    PrimFinish(w, h, seed, g, vis, carved);
    m := Maze(w, h, g, Pos(0, 0), Pos(w - 1, h - 1), Pos(0, 0));
  }
}
