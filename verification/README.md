# Maze engine model

A Dafny model of the maze engine in `mazegame.py`: the `Maze` class without its
drawing code. The model has six modules:

- `MazeGrid` (`grid.dfy`): cells with four wall flags and a visited flag, the
  W x H grid indexed `g[x][y]`, the maze record (grid, start, end, player),
  `reset`, `get_neighbors` and `remove_wall`. Internal walls are also named as
  edges between row-major cell ids `y*W+x`, the way the Kruskal generator lists
  them.
- `Paths` (`paths.dfy`): walks through open walls, and what makes a maze
  connected and perfect. `Walk`, `Linked` and `Connected` are the reference
  definitions of reachability. `PerfectMaze` states what both generators leave
  behind:
  - every cell visited;
  - wall flags paired between neighbours and closed on the border;
  - exactly W*H-1 open internal walls;
  - every cell reachable from every other;
  - the player on (0, 0).
- `UnionFind` (`union_find.dfy`): `find` with path compression and `union` by
  rank. The ghost function `Root` follows parent links and serves as the
  reference definition. Recursion terminates because a non-root's rank is
  strictly below its parent's.
- `Kruskals` (`kruskals.dfy`): the edge enumeration, the shuffled pass over the
  edges with union-find, and marking every cell visited.
- `Prims` (`prims.dfy`): the frontier-based generator. Entries are
  (target, parent, direction) triples, and stale entries are skipped.
- `Player` (`player.dfy`): `move_player` and its win flag, plus replays of
  key presses.

Randomness is a parameter:
- `random.shuffle` becomes a permutation `perm` of the edge indices, and edge
  `edges[perm[i]]` is the i-th one processed.
- `random.randint` becomes a function `rand(k, n)`, the k-th draw in `[0, n)`.
  Draws 0 and 1 pick the seed column and row. Draw k >= 2 picks the frontier
  index at the (k-1)-th loop iteration.

Every property is proved for every choice. The grid size is a parameter
`W, H >= 1` in place of the module constants.

## Model

| member | source | states |
|---|---|---|
| MazeGrid.Reset | mazegame.py:58-62 | every cell of the W x H grid has all four walls and is unvisited; start is (0,0), end is (W-1,H-1), the player is on (0,0) |
| MazeGrid.Neighbors | mazegame.py:64-78 | at most four neighbours, each in bounds and one step away in its recorded direction; every in-bounds neighbour is listed; directions come strictly in the order left, right, top, bottom |
| MazeGrid.RemoveWall | mazegame.py:80-92 | exactly the first cell's wall on side d and the second cell's opposite wall are cleared; every other flag and every visited flag is unchanged |
| MazeGrid.RemoveWallKeepsPairing | mazegame.py:80-92 | removing the wall between two adjacent cells keeps "A's wall toward B is present iff B's wall toward A is present" for all cells |
| MazeGrid.CarveKeepsMatch | mazegame.py:80-92 | if the wall flags are a sealed grid minus a set of carved edges, then after remove_wall they are the sealed grid minus that set plus the removed edge |
| MazeGrid.IdBijection | mazegame.py:164-174 | the cell id y*W+x maps the in-bounds cells one-to-one onto [0, W*H), with inverse (i mod W, i div W) |
| MazeGrid.Visit | mazegame.py:100 | exactly the given cell becomes visited; every other cell's visited flag and every wall flag is unchanged |
| MazeGrid.ResetHasNoPassages | mazegame.py:58-62 | a reset grid has no open internal wall |
| MazeGrid.OpenWallsAreCarved | mazegame.py:191-196 | the open internal walls of a grid whose flags match a carved set are exactly that set |
| UnionFind.Find | mazegame.py:135-138 | returns the root of i's tree, which is its own parent; i now points at it; every element keeps its root and the set of roots is unchanged |
| UnionFind.Link | mazegame.py:144-153 | linking two roots makes them share a root that is one of the two; every other set keeps its root; one set fewer unless the roots were equal; a rank grows only on a tie, and only the surviving root's, by one |
| UnionFind.Union | mazegame.py:140-153 | afterwards x and y share a root that is the old root of x or of y; exactly the two sets of x and y are merged; the number of sets drops by one iff they differed; a rank grows only when two equal-rank roots merge |
| UnionFind.InitialSingletons | mazegame.py:180-181 | the initial parent and rank arrays are valid, every element is its own root, and there are n sets |
| Kruskals.WallCountIsProduct | mazegame.py:160-174 | the wall count used to bound the shuffle, right-hand walls plus bottom walls, is (W-1)*H + W*(H-1) |
| Kruskals.AddColumn | mazegame.py:162-174 | after one column the list holds, in increasing order, exactly the internal walls whose upper-left cell is in an earlier column |
| Kruskals.EnumerateWalls | mazegame.py:160-174 | the edge list has (W-1)*H + W*(H-1) entries; each is a valid internal wall from id y*W+x to its right or bottom neighbour; every internal wall is listed; entries come in increasing (x, y) order, the right wall of a cell before its bottom wall; no entry repeats |
| Kruskals.PermutationCovers | mazegame.py:177 | a shuffle as an index permutation reaches every edge index and only those |
| Kruskals.ProcessEdge | mazegame.py:184-196 | after an edge, its two cells share a set and exactly their two sets were merged; if they already shared a set the grid and the set count are unchanged, otherwise that wall is removed and there is one set fewer |
| Kruskals.ProcessEdgeKeepsInv | mazegame.py:184-196 | each edge step keeps the invariant: flags match the carved walls; each carved wall lies inside one set; carved walls plus sets equal W*H; cells of one set are linked through open walls |
| Kruskals.KruskalFinish | mazegame.py:184-196 | once every internal wall lies inside one set, exactly W*H-1 walls have been carved and every cell reaches every other |
| Kruskals.MarkAllVisited | mazegame.py:199-201 | every cell is visited afterwards and no wall flag changes |
| Kruskals.ProcessAll | mazegame.py:184-196 | after the whole shuffled pass, the invariant holds and every internal wall joins two cells of one set |
| Kruskals.GenerateKruskals | mazegame.py:155-206 | for every shuffle the result is a perfect W x H maze: all cells visited, paired walls, closed border, W*H-1 passages, connected, player on (0,0) |
| Prims.Unvisited | mazegame.py:107-109 | the entries appended are exactly the listed neighbours that are not yet visited, each with the given parent, and they form a subsequence of the neighbour list: same order, each neighbour at most once |
| Prims.EmbedsKeepsOrder | mazegame.py:107-109 | entries taken as a subsequence of a neighbour list in strict left, right, top, bottom order come from that list and keep that strict order |
| Prims.Expand | mazegame.py:126-128 | what a cell adds to the frontier: an entry for each unvisited in-bounds neighbour one step away, with that cell as parent, and nothing else; the entries come once each, in strict left, right, top, bottom order, which fixes the index a later draw picks |
| Prims.Pop | mazegame.py:115 | popping index i keeps the order of the others and every entry other than the popped one |
| Prims.CarveInto | mazegame.py:120-123 | carving from the entry's parent clears exactly the parent's wall toward the target and the target's wall back; the target, and only it, becomes visited; every other flag is unchanged |
| Prims.PrimStart | mazegame.py:96-109 | after visiting the seed and adding its neighbours, the invariants hold: one visited cell, no carved wall, a sound covering frontier |
| Prims.PrimSkip | mazegame.py:115-118 | dropping a popped entry whose target is already visited keeps every frontier entry sound and keeps every unvisited neighbour of the visited region in the frontier |
| Prims.CarveFrontier | mazegame.py:115-128 | after carving, the rest of the frontier plus the new cell's unvisited neighbours is sound and covers the region's border |
| Prims.PrimCarve | mazegame.py:118-128 | carving into an unvisited target adds one visited cell and one new carved wall between a visited and the new cell; walls still match; the seed reaches the new cell |
| Prims.EmptyFrontierAllVisited | mazegame.py:112 | when the covering frontier is empty every cell of the grid is visited |
| Prims.PrimFinish | mazegame.py:112-133 | at loop exit the grid is a perfect maze with exactly W*H-1 carved walls |
| Prims.GeneratePrims | mazegame.py:94-133 | for every sequence of in-range draws the loop terminates and the result is a perfect W x H maze with the player on (0,0) |
| Player.MovePlayer | mazegame.py:237-253 | the player moves one step in d iff the current cell has no wall there and the target is on the grid, and otherwise stays; nothing else changes; the position stays in bounds; the flag is true iff the player is on (W-1,H-1) |
| Player.MoveUndo | mazegame.py:241-248 | with paired walls, a move that happened is undone by the opposite move |
| Player.ReplayFollowsWalk | mazegame.py:241-248 | pressing the moves of any walk through open walls takes the player to the walk's end |
| Player.ReplayStaysLinked | mazegame.py:241-248 | whatever is pressed, the player only reaches cells linked to its start through open walls |
| Player.PerfectMazeWinnable | mazegame.py:250-253 | in a perfect maze some sequence of moves puts the player on the end cell |

## Left out

- Drawing, pygame set-up, the colour and pixel constants and the `main` event
  loop are input/output and are not modelled. That includes the `game_won`
  latch, which stops calling `move_player` once the game is won.
- `random.randint` and `random.shuffle` are parameters (`rand`, `perm`). No
  distribution is modelled. `GeneratePrims` requires every draw `rand(k, n)`
  to lie in `[0, n)`, as `randint(0, n-1)` does.
- Directions are the closed datatype `Dir`, not strings. An unknown direction
  string, a no-op in the source, cannot occur.
- The grid size is a parameter `W, H >= 1`, not the 40 x 30 of the constants.
- `Cell.x`/`Cell.y` are not stored: a cell's position is its index in the grid.
- Kruskals.GenerateKruskals: acyclicity is stated as "connected with exactly
  W*H-1 open walls", which holds only for a spanning tree. No separate
  no-cycle predicate over paths is defined.
- Prims.GeneratePrims: acyclicity is stated the same way, as connected with
  W*H-1 open walls.
- `UnionFind.Find` recurses like `find` (mazegame.py:135-138), and `Prims.Pop`
  keeps order like `list.pop(index)` (mazegame.py:115).
- The wall count and cell count are written with a repeated-addition `Mul`
  that keeps the solver off non-linear arithmetic. `MazeGrid.AreaIsProduct`
  and `Kruskals.WallCountIsProduct` tie them to `*`.
- Kruskal's clears the wall flags inline (lines 191-196). That has the same
  effect as `remove_wall(lower cell, upper cell, right/bottom)`, so
  `RemoveWall` models it.
