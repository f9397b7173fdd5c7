/**
 * The elimination game behind `triangulate`: the triangulation edges as neighbour sets, the
 * removal of one node after its neighbours have been made pairwise adjacent, and the fill-in
 * the game leaves behind.
 */
module Elimination {
  /** Neighbour sets of an undirected graph, one entry per node. */
  type Adjacency<L> = map<L, set<L>>

  ghost function Nbrs<L(!new)>(t: Adjacency<L>, x: L): set<L> {
    if x in t then t[x] else {}
  }

  /** Every neighbour is a node. */
  ghost predicate SelfContained<L(!new)>(t: Adjacency<L>) {
    forall y, z :: y in t && z in t[y] ==> z in t
  }

  /** Makes every two distinct members of `n` neighbours. */
  ghost function Fill<L(!new)>(t: Adjacency<L>, n: set<L>): Adjacency<L> {
    map y | y in t :: if y in n then t[y] + (n - {y}) else t[y]
  }

  /** Removes node `x` and every edge at `x`. */
  ghost function Eliminate<L(!new)>(t: Adjacency<L>, x: L): Adjacency<L> {
    map y | y in t && y != x :: t[y] - {x}
  }

  /** One move of the game: the neighbours of `x` become a clique, then `x` leaves. */
  ghost function Step<L(!new)>(t: Adjacency<L>, x: L): Adjacency<L> {
    Eliminate(Fill(t, Nbrs(t, x)), x)
  }

  /** The graph left after eliminating the first `n` nodes of `xs` in order. */
  ghost function Work<L(!new)>(t: Adjacency<L>, xs: seq<L>, n: nat): Adjacency<L>
    requires n <= |xs|
  {
    if n == 0 then t else Step(Work(t, xs, n - 1), xs[n - 1])
  }

  /** The graph after each of the first `n` sets of `cs` has been made a clique in turn. */
  ghost function FillAll<L(!new)>(t: Adjacency<L>, cs: seq<set<L>>, n: nat): Adjacency<L>
    requires n <= |cs|
  {
    if n == 0 then t else Fill(FillAll(t, cs, n - 1), cs[n - 1])
  }

  /** `xs` lists each node of `t` exactly once. */
  ghost predicate Permutes<L(!new)>(t: Adjacency<L>, xs: seq<L>) {
    (forall i, j :: 0 <= i < j < |xs| ==> xs[i] != xs[j]) &&
    (forall x :: x in xs <==> x in t)
  }

  /** The neighbourhood `xs[i]` has when its turn comes. */
  ghost function Turn<L(!new)>(t: Adjacency<L>, xs: seq<L>, i: nat): set<L>
    requires i < |xs|
  {
    Nbrs(Work(t, xs, i), xs[i])
  }

  /** `cs` lists the neighbourhood each node of `xs` has at its turn. */
  ghost predicate Cliques<L(!new)>(t: Adjacency<L>, xs: seq<L>, cs: seq<set<L>>) {
    |cs| == |xs| && forall i :: 0 <= i < |xs| ==> cs[i] == Turn(t, xs, i)
  }

  /**
   * `xs` is a perfect elimination ordering of `h`: the neighbours of each node that come after
   * it in `xs` are pairwise adjacent, so `h` has no chordless cycle longer than three.
   */
  ghost predicate PerfectElimination<L(!new)>(h: Adjacency<L>, xs: seq<L>) {
    forall i, j, k ::
      (0 <= i < j < |xs| && i < k < |xs| && j != k && xs[i] in h &&
       xs[j] in h[xs[i]] && xs[k] in h[xs[i]]) ==> xs[j] in h && xs[k] in h[xs[j]]
  }

  /** The game on a sequence depends only on the prefix it has played. */
  lemma {:induction false} WorkPrefix<L(!new)>(t: Adjacency<L>, xs: seq<L>, ys: seq<L>, n: nat)
    requires n <= |xs| && n <= |ys| && forall m :: 0 <= m < n ==> xs[m] == ys[m]
    ensures Work(t, xs, n) == Work(t, ys, n)
  {
    if n > 0 {
      WorkPrefix(t, xs, ys, n - 1);
    }
  }

  /** The fill-in depends only on the cliques made so far. */
  lemma {:induction false} FillAllPrefix<L(!new)>(t: Adjacency<L>, cs: seq<set<L>>, ds: seq<set<L>>, n: nat)
    requires n <= |cs| && n <= |ds| && forall m :: 0 <= m < n ==> cs[m] == ds[m]
    ensures FillAll(t, cs, n) == FillAll(t, ds, n)
  {
    if n > 0 {
      FillAllPrefix(t, cs, ds, n - 1);
    }
  }

  /** One more move of the game. */
  lemma WorkExtend<L(!new)>(t: Adjacency<L>, xs: seq<L>, x: L)
    ensures Work(t, xs + [x], |xs| + 1) == Step(Work(t, xs, |xs|), x)
  {
    WorkPrefix(t, xs + [x], xs, |xs|);
  }

  /** One more clique made. */
  lemma FillAllExtend<L(!new)>(t: Adjacency<L>, cs: seq<set<L>>, c: set<L>)
    ensures FillAll(t, cs + [c], |cs| + 1) == Fill(FillAll(t, cs, |cs|), c)
  {
    FillAllPrefix(t, cs + [c], cs, |cs|);
  }

  /** One more move of the game, recorded with the neighbourhood the moved node had. */
  lemma CliquesExtend<L(!new)>(t: Adjacency<L>, xs: seq<L>, cs: seq<set<L>>, x: L)
    requires Cliques(t, xs, cs)
    ensures Cliques(t, xs + [x], cs + [Nbrs(Work(t, xs, |xs|), x)])
  {
    var ys, ds := xs + [x], cs + [Nbrs(Work(t, xs, |xs|), x)];
    forall i | 0 <= i < |ys| ensures ds[i] == Turn(t, ys, i) {
      WorkPrefix(t, ys, xs, i);
    }
  }

  /** The nodes left are those not yet eliminated, and no edge leaves them. */
  lemma {:induction false} WorkNodes<L(!new)>(t: Adjacency<L>, xs: seq<L>, n: nat)
    requires SelfContained(t) && n <= |xs|
    ensures forall y :: y in Work(t, xs, n) <==> y in t && forall m :: 0 <= m < n ==> xs[m] != y
    ensures SelfContained(Work(t, xs, n))
  {
    if n > 0 {
      WorkNodes(t, xs, n - 1);
      var w, x := Work(t, xs, n - 1), xs[n - 1];
      var f := Fill(w, Nbrs(w, x));
      assert SelfContained(f) by {
        forall y, z | y in f && z in f[y] ensures z in f {
          if z !in w[y] {
            assert z in Nbrs(w, x);
          }
        }
      }
    }
  }

  /**
   * An edge between two nodes keeps existing from the turn of `xs[k]` to the turn of `xs[i]`
   * when neither end is eliminated in between.
   */
  lemma {:induction false} Persist<L(!new)>(t: Adjacency<L>, xs: seq<L>, k: nat, i: nat, v: L, w: L)
    requires k <= i <= |xs|
    requires v in Work(t, xs, k) && w in Work(t, xs, k)[v]
    requires forall m :: k <= m < i ==> xs[m] != v && xs[m] != w
    ensures v in Work(t, xs, i) && w in Work(t, xs, i)[v]
    decreases i - k
  {
    if k < i {
      Persist(t, xs, k, i - 1, v, w);
    }
  }

  /** Filling only adds neighbours. */
  lemma {:induction false} FillAllGrows<L(!new)>(t: Adjacency<L>, cs: seq<set<L>>, n: nat)
    requires n <= |cs|
    ensures FillAll(t, cs, n).Keys == t.Keys
    ensures forall y :: y in t ==> t[y] <= FillAll(t, cs, n)[y]
  {
    if n > 0 {
      FillAllGrows(t, cs, n - 1);
    }
  }

  /** Every neighbour the fill-in has was a neighbour before or shares one of the cliques with the node. */
  lemma {:induction false} FillAllSource<L(!new)>(t: Adjacency<L>, cs: seq<set<L>>, n: nat, v: L, w: L)
    requires n <= |cs| && v in t && v in FillAll(t, cs, n) && w in FillAll(t, cs, n)[v]
    ensures w in t[v] || exists k :: 0 <= k < n && v in cs[k] && w in cs[k] && w != v
  {
    if n > 0 {
      FillAllGrows(t, cs, n - 1);
      if w in FillAll(t, cs, n - 1)[v] {
        FillAllSource(t, cs, n - 1, v, w);
      }
    }
  }

  /** Any two distinct members of one of the cliques are neighbours in the fill-in. */
  lemma {:induction false} FillAllClique<L(!new)>(t: Adjacency<L>, cs: seq<set<L>>, n: nat, k: nat, f: L, s: L)
    requires k < n <= |cs| && f in t && f in cs[k] && s in cs[k] && f != s
    ensures f in FillAll(t, cs, n) && s in FillAll(t, cs, n)[f]
  {
    FillAllGrows(t, cs, n - 1);
    if k < n - 1 {
      FillAllClique(t, cs, n - 1, k, f, s);
    }
  }

  /** The neighbourhood a node has at its turn holds only nodes not yet eliminated. */
  lemma CliqueAhead<L(!new)>(t: Adjacency<L>, xs: seq<L>, cs: seq<set<L>>, i: nat, y: L)
    requires SelfContained(t) && Permutes(t, xs) && Cliques(t, xs, cs)
    requires i < |xs| && y in cs[i]
    ensures y in t && exists m :: i <= m < |xs| && xs[m] == y
  {
    WorkNodes(t, xs, i);
    assert y in Work(t, xs, i) && y in xs;
    var m :| 0 <= m < |xs| && xs[m] == y;
  }

  /** An edge made at the turn of `xs[k]` is still there at the turn of `xs[i]` when both its ends remain. */
  lemma FillCarried<L(!new)>(t: Adjacency<L>, xs: seq<L>, cs: seq<set<L>>, k: nat, i: nat, v: L, w: L)
    requires SelfContained(t) && Cliques(t, xs, cs)
    requires k < i < |xs| && v in cs[k] && w in cs[k] && v != w
    requires forall m :: k <= m < i ==> xs[m] != v && xs[m] != w
    ensures v in Work(t, xs, i) && w in Work(t, xs, i)[v]
  {
    WorkNodes(t, xs, k);
    var g := Work(t, xs, k);
    assert v in g && w in Fill(g, cs[k])[v];
    Persist(t, xs, k + 1, i, v, w);
  }

  /** A later neighbour of `xs[i]` in the fill-in lies in the neighbourhood `xs[i]` had at its turn. */
  lemma LaterNeighbour<L(!new)>(t: Adjacency<L>, xs: seq<L>, cs: seq<set<L>>, i: nat, j: nat)
    requires SelfContained(t) && Permutes(t, xs) && Cliques(t, xs, cs)
    requires i < j < |xs| && xs[i] in t && xs[i] in FillAll(t, cs, |cs|)
    requires xs[j] in FillAll(t, cs, |cs|)[xs[i]]
    ensures xs[j] in cs[i]
  {
    var v, w := xs[i], xs[j];
    FillAllSource(t, cs, |cs|, v, w);
    if w in t[v] {
      Persist(t, xs, 0, i, v, w);
    } else {
      var k :| 0 <= k < |cs| && v in cs[k] && w in cs[k] && w != v;
      if k > i {
        CliqueAhead(t, xs, cs, k, v);
      } else if k < i {
        FillCarried(t, xs, cs, k, i, v, w);
      }
    }
  }

  /**
   * The elimination game triangulates: the order of elimination is a perfect elimination
   * ordering of the graph with all its fill-in edges.
   */
  lemma FillAllTriangulates<L(!new)>(t: Adjacency<L>, xs: seq<L>, cs: seq<set<L>>)
    requires SelfContained(t) && Permutes(t, xs) && Cliques(t, xs, cs)
    ensures PerfectElimination(FillAll(t, cs, |cs|), xs)
  {
    var h := FillAll(t, cs, |cs|);
    FillAllGrows(t, cs, |cs|);
    forall i, j, k | 0 <= i < j < |xs| && i < k < |xs| && j != k && xs[i] in h &&
      xs[j] in h[xs[i]] && xs[k] in h[xs[i]]
      ensures xs[j] in h && xs[k] in h[xs[j]]
    {
      LaterNeighbour(t, xs, cs, i, j);
      LaterNeighbour(t, xs, cs, i, k);
      CliqueAhead(t, xs, cs, i, xs[j]);
      FillAllClique(t, cs, |cs|, i, xs[j], xs[k]);
    }
  }
}
