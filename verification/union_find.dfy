/** Disjoint sets over 0 .. n-1 as used by the Kruskal generator: a parent
    array and a rank array, `find` with path compression and `union` by rank.
    `Root` is the reference definition: the end of the parent chain, followed
    without changing anything. */
module UnionFind {

  /** An upper bound on every rank; bounds the climb towards a root. */
  function MaxRank(rk: seq<nat>): (m: nat)
    ensures forall i | 0 <= i < |rk| :: rk[i] <= m
  {
    if |rk| == 0 then 0
    else
      var t := MaxRank(rk[1..]);
      if rk[0] > t then rk[0] else t
  }

  /** Parents stay in range and every non-root has a strictly smaller rank than its parent. */
  ghost predicate Valid(p: seq<nat>, rk: seq<nat>) {
    |p| == |rk| && forall i | 0 <= i < |p| :: p[i] < |p| && (p[i] != i ==> rk[i] < rk[p[i]])
  }

  /** The root of `i`'s tree, reached by following parents. */
  ghost function Root(p: seq<nat>, rk: seq<nat>, i: nat): (r: nat)
    requires Valid(p, rk) && i < |p|
    ensures r < |p| && p[r] == r
    ensures p[i] == i ==> r == i
    ensures p[i] != i ==> rk[i] < rk[r]
    decreases MaxRank(rk) - rk[i]
  {
    if p[i] == i then i else Root(p, rk, p[i])
  }

  ghost function Roots(p: seq<nat>): set<nat> {
    set i | 0 <= i < |p| && p[i] == i
  }

  /** Result of `find`: the root and the parent array after path compression. */
  datatype Found = Found(root: nat, parent: seq<nat>)

  /** Pointing `i` straight at its root keeps the structure valid and every root unchanged. */
  lemma CompressKeepsRoots(p: seq<nat>, rk: seq<nat>, i: nat)
    requires Valid(p, rk) && i < |p|
    ensures Valid(p[i := Root(p, rk, i)], rk)
    ensures forall j | 0 <= j < |p| :: Root(p[i := Root(p, rk, i)], rk, j) == Root(p, rk, j)
    ensures Roots(p[i := Root(p, rk, i)]) == Roots(p)
  {
    var q := p[i := Root(p, rk, i)];
    forall j | 0 <= j < |p| ensures Root(q, rk, j) == Root(p, rk, j) {
      CompressRootAt(p, rk, i, j);
    }
  }

  lemma {:induction false} CompressRootAt(p: seq<nat>, rk: seq<nat>, i: nat, j: nat)
    requires Valid(p, rk) && i < |p| && j < |p|
    requires Valid(p[i := Root(p, rk, i)], rk)
    ensures Root(p[i := Root(p, rk, i)], rk, j) == Root(p, rk, j)
    decreases MaxRank(rk) - rk[j]
  {
    var r := Root(p, rk, i);
    var q := p[i := r];
    if j == i {
      if r != i {
        assert q[r] == r;
        assert Root(q, rk, r) == r;
      }
    } else if p[j] != j {
      CompressRootAt(p, rk, i, p[j]);
    }
  }

  /** Path-compressing find: returns `i`'s root and points `i` (and, recursively,
      every node on its path) directly at that root. */
  function Find(p: seq<nat>, rk: seq<nat>, i: nat): (f: Found)
    requires Valid(p, rk) && i < |p|
    ensures |f.parent| == |p| && Valid(f.parent, rk)
    ensures f.root == Root(p, rk, i)
    ensures f.parent[i] == f.root
    ensures forall j {:trigger Root(f.parent, rk, j)} | 0 <= j < |p| :: Root(f.parent, rk, j) == Root(p, rk, j)
    ensures Roots(f.parent) == Roots(p)
    decreases MaxRank(rk) - rk[i]
  {
    if p[i] != i then
      var sub := Find(p, rk, p[i]);
      CompressKeepsRoots(sub.parent, rk, i);
      var q := sub.parent[i := sub.root];
      assert forall j | 0 <= j < |p| :: Root(q, rk, j) == Root(sub.parent, rk, j) == Root(p, rk, j);
      Found(sub.root, q)
    else
      Found(i, p)
  }

  /** Hanging root `c` under root `t` merges `c`'s set into `t`'s and nothing else. */
  lemma LinkRoots(p: seq<nat>, rk: seq<nat>, rk': seq<nat>, c: nat, t: nat)
    requires Valid(p, rk) && c < |p| && t < |p| && p[c] == c && p[t] == t && c != t
    requires rk' == rk || rk' == rk[t := rk[t] + 1]
    requires rk[c] < rk'[t]
    ensures Valid(p[c := t], rk')
    ensures forall j | 0 <= j < |p| ::
      Root(p[c := t], rk', j) == (if Root(p, rk, j) == c then t else Root(p, rk, j))
    ensures Roots(p[c := t]) == Roots(p) - {c}
  {
    forall j | 0 <= j < |p|
      ensures Root(p[c := t], rk', j) == (if Root(p, rk, j) == c then t else Root(p, rk, j))
    {
      LinkRootAt(p, rk, rk', c, t, j);
    }
  }

  lemma {:induction false} LinkRootAt(p: seq<nat>, rk: seq<nat>, rk': seq<nat>, c: nat, t: nat, j: nat)
    requires Valid(p, rk) && c < |p| && t < |p| && p[c] == c && p[t] == t && c != t
    requires Valid(p[c := t], rk') && j < |p|
    ensures Root(p[c := t], rk', j) == (if Root(p, rk, j) == c then t else Root(p, rk, j))
    decreases MaxRank(rk) - rk[j]
  {
    var q := p[c := t];
    if j == c {
      assert Root(q, rk', t) == t;
    } else if p[j] != j {
      LinkRootAt(p, rk, rk', c, t, p[j]);
    }
  }

  /** Result of `union`: the parent and rank arrays afterwards. */
  datatype Merged = Merged(parent: seq<nat>, rank: seq<nat>)

  /** Links two roots by rank: the lower-ranked root goes under the other; on a
      tie `b` goes under `a` and `a`'s rank grows by one. */
  function Link(q: seq<nat>, rk: seq<nat>, a: nat, b: nat): (m: Merged)
    requires Valid(q, rk) && a < |q| && b < |q| && q[a] == a && q[b] == b
    ensures |m.parent| == |q| && Valid(m.parent, m.rank)
    ensures Root(m.parent, m.rank, a) == Root(m.parent, m.rank, b)
    ensures Root(m.parent, m.rank, a) == a || Root(m.parent, m.rank, a) == b
    ensures forall j {:trigger Root(m.parent, m.rank, j)} | 0 <= j < |q| ::
      Root(m.parent, m.rank, j) ==
        (if Root(q, rk, j) == a || Root(q, rk, j) == b then Root(m.parent, m.rank, a) else Root(q, rk, j))
    ensures |Roots(m.parent)| == |Roots(q)| - (if a == b then 0 else 1)
    ensures forall j {:trigger m.rank[j]} | 0 <= j < |q| ::
      m.rank[j] == rk[j] || (j == a && a != b && rk[a] == rk[b] && m.rank[j] == rk[j] + 1)
  {
    if a == b then
      Merged(q, rk)
    else if rk[a] < rk[b] then
      LinkRoots(q, rk, rk, a, b);
      Merged(q[a := b], rk)
    else if rk[a] > rk[b] then
      LinkRoots(q, rk, rk, b, a);
      Merged(q[b := a], rk)
    else
      LinkRoots(q, rk, rk[a := rk[a] + 1], b, a);
      Merged(q[b := a], rk[a := rk[a] + 1])
  }

  /** Union by rank of the sets holding `x` and `y`. */
  function Union(p: seq<nat>, rk: seq<nat>, x: nat, y: nat): (m: Merged)
    requires Valid(p, rk) && x < |p| && y < |p|
    ensures |m.parent| == |p| && Valid(m.parent, m.rank)
    ensures Root(m.parent, m.rank, x) == Root(m.parent, m.rank, y)
    ensures Root(m.parent, m.rank, x) == Root(p, rk, x) || Root(m.parent, m.rank, x) == Root(p, rk, y)
    ensures forall j {:trigger Root(m.parent, m.rank, j)} | 0 <= j < |p| ::
      Root(m.parent, m.rank, j) ==
        (if Root(p, rk, j) == Root(p, rk, x) || Root(p, rk, j) == Root(p, rk, y)
         then Root(m.parent, m.rank, x) else Root(p, rk, j))
    ensures |Roots(m.parent)| == |Roots(p)| - (if Root(p, rk, x) == Root(p, rk, y) then 0 else 1)
    ensures forall j {:trigger m.rank[j]} | 0 <= j < |p| ::
      m.rank[j] == rk[j] ||
      (j == Root(p, rk, x) && Root(p, rk, x) != Root(p, rk, y)
       && rk[j] == rk[Root(p, rk, y)] && m.rank[j] == rk[j] + 1)
  {
    var fx := Find(p, rk, x);
    var fy := Find(fx.parent, rk, y);
    var rx, ry, q := fx.root, fy.root, fy.parent;
    FindsKeep(p, rk, fx.parent, q);
    assert Root(q, rk, x) == rx;
    Link(q, rk, rx, ry)
  }

  /** Two parent arrays with the same roots as `p`, one after the other, still have `p`'s roots. */
  lemma FindsKeep(p: seq<nat>, rk: seq<nat>, p1: seq<nat>, p2: seq<nat>)
    requires Valid(p, rk) && Valid(p1, rk) && Valid(p2, rk) && |p1| == |p| && |p2| == |p|
    requires forall j {:trigger Root(p1, rk, j)} | 0 <= j < |p| :: Root(p1, rk, j) == Root(p, rk, j)
    requires forall j {:trigger Root(p2, rk, j)} | 0 <= j < |p| :: Root(p2, rk, j) == Root(p1, rk, j)
    ensures forall j | 0 <= j < |p| :: Root(p2, rk, j) == Root(p, rk, j)
  {
  }

  function Iota(n: nat): (r: seq<nat>)
    ensures |r| == n && forall i | 0 <= i < n :: r[i] == i
  {
    seq(n, i => i)
  }

  function Zeros(n: nat): (r: seq<nat>)
    ensures |r| == n && forall i | 0 <= i < n :: r[i] == 0
  {
    seq(n, _ => 0)
  }

  /** The initial forest: every element its own root, every rank zero. */
  lemma InitialSingletons(n: nat)
    ensures Valid(Iota(n), Zeros(n))
    ensures forall j | 0 <= j < n :: Root(Iota(n), Zeros(n), j) == j
    ensures |Roots(Iota(n))| == n
  {
    IotaRoots(n);
  }

  lemma {:induction false} IotaRoots(n: nat)
    ensures |Roots(Iota(n))| == n
  {
    if n > 0 {
      IotaRoots(n - 1);
      var a, b := Roots(Iota(n)), Roots(Iota(n - 1));
      forall i | i in a ensures i in b + {n - 1} {
        if i < n - 1 { assert Iota(n - 1)[i] == i; }
      }
      forall i | i in b + {n - 1} ensures i in a {
        assert Iota(n)[i] == i;
      }
      assert a == b + {n - 1};
    } else {
      assert Roots(Iota(n)) == {};
    }
  }
}
