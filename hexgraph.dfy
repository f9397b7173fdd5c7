/**
 * The HEX graph: labels with hierarchy (parent to child), exclusion and triangulation edges,
 * together with the name table that gives each label its global index. The node objects of
 * the graph are identified by their labels, so the graph is modelled as a map from labels to
 * node values whose adjacency sets hold labels.
 */
module Graphs {
  import opened Wrappers
  import opened Hierarchy
  import opened Names
  import opened GraphNodes
  import opened Elimination

  /** The labels that reach `x` by hierarchy edges. */
  ghost function AncestorsOf<L(!new)>(g: Nodes<L>, x: L): set<L> {
    set y | y in g && Reaches(ChildMap(g), y, x)
  }

  /** `y` is neither an ancestor nor a descendant of `x`, nor excluded by it. */
  ghost predicate Unrelated<L(!new)>(g: Nodes<L>, x: L, y: L)
    requires x in g
  {
    !Reaches(ChildMap(g), y, x) && !Reaches(ChildMap(g), x, y) && y !in g[x].excluded
  }

  /** `edgeRemovalHelper`: walks the set and drops every element equal to `head`. */
  method RemoveMatching<L(==)>(selected: set<L>, head: L) returns (kept: set<L>)
    ensures kept == selected - {head}
  {
    kept := selected;
    var todo := selected;
    while todo != {}
      invariant todo <= selected
      invariant forall x :: x in kept <==> x in selected && (x in todo || x != head)
      decreases |todo|
    {
      var curr := Pick(todo);
      todo := todo - {curr};
      if curr == head {
        kept := kept - {curr};
      }
    }
  }

  /** `GraphNode.checkInvariant`: fails when a direct child is also excluded. */
  method CheckNode<L(==)>(n: GraphNode<L>) returns (out: Outcome)
    ensures out == Pass <==> forall c :: c in n.hierarchy ==> c !in n.excluded
    ensures out.Fail? ==> out.error == IllegalState
  {
    var todo := n.hierarchy;
    while todo != {}
      invariant todo <= n.hierarchy
      invariant forall c :: c in n.hierarchy - todo ==> c !in n.excluded
      decreases |todo|
    {
      var node := Pick(todo);
      todo := todo - {node};
      if node in n.excluded {
        return Fail(IllegalState);
      }
    }
    return Pass;
  }

  /**
   * Deletes from `sub`, a copy of `g`, every label that `drop` selects, visiting the labels
   * in the order of `sub`'s node list.
   */
  method DeleteSelected<L(==,!new)>(sub: HEXGraph<L>, ghost g: Nodes<L>, drop: set<L>)
    requires sub.Valid() && sub.nodes == g
    modifies sub
    ensures sub.Valid() && sub.nodes == Minus(g, drop * g.Keys)
  {
    var todo := sub.GetNodeSet();
    MinusAbsent(g, {});
    assert (g.Keys - todo) * drop == {};
    while todo != {}
      invariant todo <= g.Keys
      invariant sub.Valid() && sub.nodes == Minus(g, (g.Keys - todo) * drop)
      decreases |todo|
    {
      var x := Pick(todo);
      if x in drop {
        sub.DeleteNode(x);
        MinusMinus(g, (g.Keys - todo) * drop, {x});
        assert (g.Keys - todo) * drop + {x} == (g.Keys - (todo - {x})) * drop;
      } else {
        assert (g.Keys - todo) * drop == (g.Keys - (todo - {x})) * drop;
      }
      todo := todo - {x};
    }
    assert (g.Keys - todo) * drop == drop * g.Keys;
  }

  /** Every label of `done` has each `g0`-descendant as a direct child in `g`. */
  ghost predicate ChildrenClosed<L(!new)>(g0: Nodes<L>, g: Nodes<L>, done: set<L>)
    requires done <= g.Keys
  {
    forall l, y :: l in done && Reaches(ChildMap(g0), l, y) ==> y in g[l].hierarchy
  }

  /** Every label of `done` excludes in `g` what each of its `g0`-ancestors excludes in `g0`. */
  ghost predicate ExclusionsInherited<L(!new)>(g0: Nodes<L>, g: Nodes<L>, done: set<L>)
    requires done <= g.Keys
  {
    forall l, a :: l in done && a in AncestorsOf(g0, l) ==> g0[a].excluded <= g[l].excluded
  }

  /** Every hierarchy edge of `g` stands for a descendant relation of `g0`. */
  ghost predicate EdgesImplied<L(!new)>(g0: Nodes<L>, g: Nodes<L>) {
    forall l, y :: l in g && y in g[l].hierarchy ==> Reaches(ChildMap(g0), l, y)
  }

  /**
   * What holds between the graph `g0` that `densify` starts from and any graph `g` it passes
   * through, once it is done with the labels of `done`.
   */
  ghost predicate Densifying<L(!new)>(g0: Nodes<L>, g: Nodes<L>, done: set<L>) {
    done <= g.Keys && Closed(g) && Grown(g0, g) && EdgesImplied(g0, g) &&
    ChildrenClosed(g0, g, done) && ExclusionsInherited(g0, g, done) &&
    (SymmetricExclusion(g0) ==> SymmetricExclusion(g))
  }

  /** A graph grown from `g0` by edges that `g0` already implies has the descendant relation of `g0`. */
  lemma DensifyingReach<L(!new)>(g0: Nodes<L>, g: Nodes<L>, done: set<L>)
    requires Densifying(g0, g, done)
    ensures ReachAgrees(ChildMap(g), ChildMap(g0))
  {
    var r, s := ChildMap(g), ChildMap(g0);
    forall u, v | v in Succ(r, u) ensures Reaches(s, u, v) {
      assert v in g[u].hierarchy;
    }
    forall u, v | v in Succ(s, u) ensures Reaches(r, u, v) {
      assert v in g[u].hierarchy;
      Edge(r, u, v);
    }
    SameReach(r, s);
  }

  /** Direct children established for `done` survive later insertions. */
  lemma ChildrenGrowth<L(!new)>(g0: Nodes<L>, g: Nodes<L>, h: Nodes<L>, done: set<L>)
    requires done <= g.Keys && Grown(g, h) && ChildrenClosed(g0, g, done)
    ensures ChildrenClosed(g0, h, done)
  {
    forall l, y | l in done && Reaches(ChildMap(g0), l, y) ensures y in h[l].hierarchy {
      assert y in g[l].hierarchy;
    }
  }

  /** Inherited exclusions established for `done` survive later insertions. */
  lemma ExclusionsGrowth<L(!new)>(g0: Nodes<L>, g: Nodes<L>, h: Nodes<L>, done: set<L>)
    requires done <= g.Keys && Grown(g, h) && ExclusionsInherited(g0, g, done)
    ensures ExclusionsInherited(g0, h, done)
  {
    forall l, a | l in done && a in AncestorsOf(g0, l) ensures g0[a].excluded <= h[l].excluded {
      assert g0[a].excluded <= g[l].excluded;
    }
  }

  /** One `addExclusion` of `densify` keeps what `densify` has established. */
  lemma ExclusionStep<L(!new)>(g0: Nodes<L>, g: Nodes<L>, f: L, s: L, done: set<L>)
    requires f in g && s in g && Densifying(g0, g, done)
    ensures var h := ExclusionLinked(g, f, s);
      Densifying(g0, h, done) && Grown(g, h) && s in h[f].excluded
  {
    var h := ExclusionLinked(g, f, s);
    ExclusionLinkedFacts(g, f, s);
    GrownTrans(g0, g, h);
    ChildrenGrowth(g0, g, h, done);
    ExclusionsGrowth(g0, g, h, done);
    if SymmetricExclusion(g) {
      ExclusionLinkedSymmetric(g, f, s);
    }
  }

  /** One `addHierarchy` of `densify`, along a descendant relation, keeps what `densify` has established. */
  lemma HierarchyStep<L(!new)>(g0: Nodes<L>, g: Nodes<L>, p: L, d: L, done: set<L>)
    requires p in g && d in g && Densifying(g0, g, done) && Reaches(ChildMap(g0), p, d)
    ensures var h := HierarchyLinked(g, p, d);
      Densifying(g0, h, done) && Grown(g, h) && d in h[p].hierarchy
  {
    var h := HierarchyLinked(g, p, d);
    HierarchyLinkedFacts(g, p, d);
    GrownTrans(g0, g, h);
    ChildrenGrowth(g0, g, h, done);
    ExclusionsGrowth(g0, g, h, done);
    assert Succ(ChildMap(h), p) == g[p].hierarchy + {d};
  }

  /** Finishing a label keeps what `densify` has established. */
  lemma DensifyingDone<L(!new)>(g0: Nodes<L>, g: Nodes<L>, h: Nodes<L>, name: L, done: set<L>)
    requires name in g && name in h && Densifying(g0, h, done) && g[name].excluded <= h[name].excluded
    requires ExclusionsInherited(g0, g, {name}) && ChildrenClosed(g0, h, {name})
    ensures Densifying(g0, h, done + {name})
  {
  }

  /** Before `densify` has done anything, the graph it starts from has what it keeps. */
  lemma DensifyingStart<L(!new)>(g0: Nodes<L>)
    requires Closed(g0)
    ensures Densifying(g0, g0, {})
  {
    forall l, y | l in g0 && y in g0[l].hierarchy ensures Reaches(ChildMap(g0), l, y) {
      Edge(ChildMap(g0), l, y);
    }
  }

  /** The ancestors of a label depend only on the descendant relation. */
  lemma AncestorsAgree<L(!new)>(g0: Nodes<L>, g: Nodes<L>, x: L)
    requires g.Keys == g0.Keys && ReachAgrees(ChildMap(g), ChildMap(g0))
    ensures AncestorsOf(g, x) == AncestorsOf(g0, x)
  {
  }

  /** Once `densify` is done with every label, each node's children are exactly its old descendants. */
  lemma DensifyResult<L(!new)>(g0: Nodes<L>, g: Nodes<L>)
    requires Densifying(g0, g, g0.Keys)
    ensures forall l :: l in g ==> g[l].hierarchy == Descendants(ChildMap(g0), l)
  {
    forall l | l in g ensures g[l].hierarchy == Descendants(ChildMap(g0), l) {
      forall y | y in g[l].hierarchy ensures Reaches(ChildMap(g0), l, y) {
        Edge(ChildMap(g), l, y);
      }
    }
  }

  /** Only triangulation edges differ between the two graphs. */
  ghost predicate SameButTriangulation<L(!new)>(g0: Nodes<L>, g: Nodes<L>) {
    g.Keys == g0.Keys &&
    forall l :: l in g ==> g[l].hierarchy == g0[l].hierarchy && g[l].excluded == g0[l].excluded
  }

  /** Every neighbour set of `t` lies between that of `ts` and that of `ts` with `n` made a clique. */
  ghost predicate Within<L(!new)>(ts: Adjacency<L>, t: Adjacency<L>, n: set<L>) {
    t.Keys == ts.Keys && forall y :: y in t ==> ts[y] <= t[y] <= Fill(ts, n)[y]
  }

  /** The triangulation edges of a closed graph stay inside the graph. */
  lemma TriMapClosed<L(!new)>(g: Nodes<L>)
    requires Closed(g)
    ensures SelfContained(TriMap(g))
  {
    var t := TriMap(g);
    forall y, z | y in t && z in t[y] ensures z in t {
      assert z in g[y].Targets();
    }
  }

  /** Deleting a node from the graph eliminates it from the triangulation edges. */
  lemma TriMapMinus<L(!new)>(g: Nodes<L>, x: L)
    ensures TriMap(Minus(g, {x})) == Eliminate(TriMap(g), x)
  {
    var h := Minus(g, {x});
    forall y | y in h ensures h[y].triangulated == g[y].triangulated - {x} {
      assert h[y].triangulated == h[y].Edges(Triangle);
    }
  }

  /** One `addTriangulationRelationship` of `triangulate` between two members of `n`. */
  lemma TriLinkedWithin<L(!new)>(g: Nodes<L>, f: L, s: L, ts: Adjacency<L>, n: set<L>)
    requires f in g && s in g && f in n && s in n && f != s && Within(ts, TriMap(g), n)
    ensures var h := TriLinked(g, f, s);
      Within(ts, TriMap(h), n) && SameButTriangulation(g, h) && s in h[f].triangulated &&
      (forall l :: l in h ==> TriMap(g)[l] <= TriMap(h)[l]) &&
      (Closed(g) ==> Closed(h))
  {
    var h := TriLinked(g, f, s);
    TriLinkedFacts(g, f, s);
    forall l | l in h ensures h[l].hierarchy == g[l].hierarchy {
      assert Succ(ChildMap(h), l) == Succ(ChildMap(g), l);
    }
    forall y | y in h ensures h[y].triangulated <= Fill(ts, n)[y] {
      if y == f || y == s {
        assert h[y].triangulated <= g[y].triangulated + {f, s};
      } else {
        assert h[y] == g[y];
      }
    }
  }

  /** Once every pair of distinct members of `n` is joined, the bounds meet. */
  lemma FillBounds<L(!new)>(ts: Adjacency<L>, t: Adjacency<L>, n: set<L>, x: L)
    requires n <= ts.Keys && Within(ts, t, n) && Joined(t, n, n, x, {})
    ensures t == Fill(ts, n)
  {
    forall y | y in t ensures t[y] == Fill(ts, n)[y] {
      if y in n {
        assert n - {y} <= t[y];
      }
    }
  }

  /** The edges of `ts` lie within their own bounds. */
  lemma WithinStart<L(!new)>(ts: Adjacency<L>, n: set<L>)
    ensures Within(ts, ts, n)
  {
    forall y | y in ts ensures ts[y] <= Fill(ts, n)[y] {
    }
  }

  /** The neighbourhood being joined does not change while it is joined. */
  lemma WithinNeighbours<L(!new)>(ts: Adjacency<L>, t: Adjacency<L>, n: set<L>, x: L)
    requires x in ts && n == ts[x] && Within(ts, t, n)
    ensures t[x] == n
  {
    assert Fill(ts, n)[x] == n;
  }

  /** `SameButTriangulation` is transitive. */
  lemma SameButTrans<L(!new)>(a: Nodes<L>, b: Nodes<L>, c: Nodes<L>)
    requires SameButTriangulation(a, b) && SameButTriangulation(b, c)
    ensures SameButTriangulation(a, c)
  {
  }

  /**
   * Progress of `triangulate` on one neighbourhood `n`: every label in `done` is joined by a
   * triangulation edge to every other member of `n`, and `first` to every other member of `seconds`.
   */
  ghost predicate Joined<L(!new)>(t: Adjacency<L>, n: set<L>, done: set<L>, first: L, seconds: set<L>) {
    done <= t.Keys && first in t &&
    (forall f, s :: f in done && s in n && f != s ==> s in t[f]) &&
    (forall s :: s in seconds && s != first ==> s in t[first])
  }

  /** Starting on a new `first`. */
  lemma JoinedFirst<L(!new)>(t: Adjacency<L>, n: set<L>, done: set<L>, x: L, first: L)
    requires Joined(t, n, done, x, {}) && first in t
    ensures Joined(t, n, done, first, {})
  {
  }

  /** Adding edges keeps the pairs joined so far, and joins `first` to `second`. */
  lemma JoinedStep<L(!new)>(t: Adjacency<L>, h: Adjacency<L>, n: set<L>, done: set<L>, first: L, seconds: set<L>, second: L)
    requires Joined(t, n, done, first, seconds) && h.Keys == t.Keys
    requires forall y :: y in t ==> t[y] <= h[y]
    requires first != second ==> second in h[first]
    ensures Joined(h, n, done, first, seconds + {second})
  {
  }

  /** Once `first` is joined to all of `n`, it counts as done. */
  lemma JoinedNext<L(!new)>(t: Adjacency<L>, n: set<L>, done: set<L>, first: L, x: L)
    requires Joined(t, n, done, first, n) && x in t
    ensures Joined(t, n, done + {first}, x, {})
  {
  }

  /**
   * Progress of `triangulate`: `c`, the working copy's triangulation edges, is the position of
   * the elimination game on `t0` after the moves `order`; `cliques` records the neighbourhoods
   * joined; and `t`, this graph's triangulation edges, is `t0` with them made cliques.
   */
  ghost predicate Eliminating<L(!new)>(t0: Adjacency<L>, c: Adjacency<L>, t: Adjacency<L>, order: seq<L>, cliques: seq<set<L>>) {
    SelfContained(t0) &&
    (forall i, j :: 0 <= i < j < |order| ==> order[i] != order[j]) &&
    (forall y :: y in order ==> y in t0) &&
    Cliques(t0, order, cliques) && c == Work(t0, order, |order|) && t == FillAll(t0, cliques, |cliques|)
  }

  /** The labels left in the working copy are those not yet eliminated. */
  lemma EliminatingKeys<L(!new)>(t0: Adjacency<L>, c: Adjacency<L>, t: Adjacency<L>, order: seq<L>, cliques: seq<set<L>>)
    requires Eliminating(t0, c, t, order, cliques)
    ensures forall y :: y in c <==> y in t0 && y !in order
  {
    WorkNodes(t0, order, |order|);
  }

  /** One move of the game keeps `Eliminating`. */
  lemma EliminatingStep<L(!new)>(t0: Adjacency<L>, c: Adjacency<L>, t: Adjacency<L>, order: seq<L>, cliques: seq<set<L>>, x: L)
    requires Eliminating(t0, c, t, order, cliques) && x in c
    ensures Eliminating(t0, Step(c, x), Fill(t, Nbrs(c, x)), order + [x], cliques + [Nbrs(c, x)])
  {
    EliminatingKeys(t0, c, t, order, cliques);
    WorkExtend(t0, order, x);
    FillAllExtend(t0, cliques, Nbrs(c, x));
    CliquesExtend(t0, order, cliques, x);
  }

  /** When no label is left, `order` is a perfect elimination ordering of the filled edges. */
  lemma EliminatingDone<L(!new)>(t0: Adjacency<L>, c: Adjacency<L>, t: Adjacency<L>, order: seq<L>, cliques: seq<set<L>>)
    requires Eliminating(t0, c, t, order, cliques) && c.Keys == {}
    ensures Permutes(t0, order) && PerfectElimination(t, order)
  {
    EliminatingKeys(t0, c, t, order, cliques);
    FillAllTriangulates(t0, order, cliques);
  }

  /** How many triangulation neighbours of `y` are already marked, that is, outside `unmarked`. */
  ghost function Marked<L(!new)>(t: Adjacency<L>, y: L, unmarked: set<L>): nat {
    |Nbrs(t, y) - unmarked|
  }

  /** The members of the first `n` places of `s`. */
  ghost function Earlier<L(!new)>(s: seq<L>, n: nat): set<L>
    requires n <= |s|
  {
    set i | 0 <= i < n :: s[i]
  }

  /** The members of `s` from place `k` on. */
  ghost function Later<L(!new)>(s: seq<L>, k: nat): set<L>
    requires k <= |s|
  {
    set i | k <= i < |s| :: s[i]
  }

  /** No label of `unmarked` has more marked neighbours than `x`. */
  ghost predicate MostMarked<L(!new)>(t: Adjacency<L>, x: L, unmarked: set<L>) {
    forall y {:trigger Marked(t, y, unmarked)} :: y in unmarked ==> Marked(t, y, unmarked) <= Marked(t, x, unmarked)
  }

  /**
   * `ordering` read backwards is a maximum cardinality search: each label, when it was
   * chosen, had at least as many marked neighbours as any label still unmarked.
   */
  ghost predicate MaximumCardinalityOrder<L(!new)>(t: Adjacency<L>, ordering: seq<L>) {
    forall j :: 0 <= j < |ordering| ==> MostMarked(t, ordering[j], Earlier(ordering, j + 1))
  }

  /** `Collections.reverse` on a list, as a value. */
  function Reverse<T>(s: seq<T>): (r: seq<T>)
    ensures |r| == |s| && forall i :: 0 <= i < |s| ==> r[i] == s[|s| - 1 - i]
  {
    if s == [] then [] else Reverse(s[1..]) + [s[0]]
  }

  /** What was unmarked at a choice equals what the reversed ordering puts first. */
  lemma LaterReversed<L(!new)>(s: seq<L>, k: nat)
    requires k <= |s|
    ensures Later(s, k) == Earlier(Reverse(s), |s| - k)
  {
    var r := Reverse(s);
    forall y ensures y in Later(s, k) <==> y in Earlier(r, |s| - k) {
      if y in Later(s, k) {
        var i :| k <= i < |s| && s[i] == y;
        assert r[|s| - 1 - i] == y;
      }
      if y in Earlier(r, |s| - k) {
        var i :| 0 <= i < |s| - k && r[i] == y;
        assert s[|s| - 1 - i] == y;
      }
    }
  }

  /** Appending a choice to `s`. */
  lemma LaterExtend<L(!new)>(s: seq<L>, x: L, k: nat)
    requires k <= |s|
    ensures Later(s + [x], k) == Later(s, k) + {x}
  {
    var s' := s + [x];
    assert s'[|s|] == x;
    forall y | y in Later(s, k) ensures y in Later(s', k) {
      var i :| k <= i < |s| && s[i] == y;
      assert s'[i] == y;
    }
  }

  /**
   * Progress of `getEliminationOrdering`: `picks` are the labels of `keys` marked so far, in
   * order, and `unmarked` the rest.
   */
  ghost predicate Marks<L(!new)>(keys: set<L>, unmarked: set<L>, picks: seq<L>) {
    unmarked <= keys && Distinct(picks) &&
    (forall y :: y in keys <==> y in unmarked || y in picks) &&
    (forall y :: y in picks ==> y !in unmarked)
  }

  /** Marking one more label. */
  lemma MarksStep<L(!new)>(keys: set<L>, unmarked: set<L>, picks: seq<L>, x: L)
    requires Marks(keys, unmarked, picks) && x in unmarked
    ensures Marks(keys, unmarked - {x}, picks + [x])
  {
  }

  /** With every label marked, the reversed picks list every label exactly once. */
  lemma MarksDone<L(!new)>(keys: set<L>, picks: seq<L>)
    requires Marks(keys, {}, picks)
    ensures var r := Reverse(picks); Distinct(r) && forall y :: y in r <==> y in keys
  {
    var r := Reverse(picks);
    var n := |picks|;
    forall y | y in keys ensures y in r {
      var i :| 0 <= i < n && picks[i] == y;
      assert r[n - 1 - i] == y;
    }
  }

  /** As `Marks`, and each label marked had the most marked neighbours when it was chosen. */
  ghost predicate Marking<L(!new)>(t: Adjacency<L>, keys: set<L>, unmarked: set<L>, picks: seq<L>) {
    Marks(keys, unmarked, picks) &&
    forall k :: 0 <= k < |picks| ==> MostMarked(t, picks[k], unmarked + Later(picks, k))
  }

  /** Marking one more label with the most marked neighbours. */
  lemma MarkingStep<L(!new)>(t: Adjacency<L>, keys: set<L>, unmarked: set<L>, picks: seq<L>, x: L)
    requires Marking(t, keys, unmarked, picks) && x in unmarked && MostMarked(t, x, unmarked)
    ensures Marking(t, keys, unmarked - {x}, picks + [x])
  {
    MarksStep(keys, unmarked, picks, x);
    MarkingStepChoices(t, unmarked, picks, x);
  }

  /** The choices made so far saw the same unmarked sets after one more label is marked. */
  lemma MarkingStepChoices<L(!new)>(t: Adjacency<L>, unmarked: set<L>, picks: seq<L>, x: L)
    requires forall k :: 0 <= k < |picks| ==> MostMarked(t, picks[k], unmarked + Later(picks, k))
    requires x in unmarked && MostMarked(t, x, unmarked)
    ensures var ps := picks + [x];
      forall k :: 0 <= k < |ps| ==> MostMarked(t, ps[k], (unmarked - {x}) + Later(ps, k))
  {
    var ps := picks + [x];
    forall k | 0 <= k < |ps| ensures MostMarked(t, ps[k], (unmarked - {x}) + Later(ps, k)) {
      LaterExtend(picks, x, k);
      if k < |picks| {
        assert (unmarked - {x}) + Later(ps, k) == unmarked + Later(picks, k);
        assert ps[k] == picks[k];
      } else {
        assert Later(picks, k) == {};
        assert (unmarked - {x}) + Later(ps, k) == unmarked;
      }
    }
  }

  /** With every label marked, the reversed picks are a maximum cardinality ordering. */
  lemma MarkingDone<L(!new)>(t: Adjacency<L>, keys: set<L>, picks: seq<L>)
    requires Marking(t, keys, {}, picks)
    ensures var r := Reverse(picks);
      Distinct(r) && (forall y :: y in r <==> y in keys) && MaximumCardinalityOrder(t, r)
  {
    MarksDone(keys, picks);
    var r := Reverse(picks);
    var n := |picks|;
    forall j | 0 <= j < n ensures MostMarked(t, r[j], Earlier(r, j + 1)) {
      LaterReversed(picks, n - 1 - j);
      assert {} + Later(picks, n - 1 - j) == Earlier(r, j + 1);
    }
  }

  /** Visiting one more neighbour `x` counts it once if it is marked. */
  lemma CountStep<L(!new)>(neighbours: set<L>, pending: set<L>, unmarked: set<L>, x: L)
    requires x in pending && pending <= neighbours
    ensures |(neighbours - (pending - {x})) - unmarked| ==
      |(neighbours - pending) - unmarked| + if x in unmarked then 0 else 1
  {
    var before := (neighbours - pending) - unmarked;
    if x in unmarked {
      assert (neighbours - (pending - {x})) - unmarked == before;
    } else {
      assert (neighbours - (pending - {x})) - unmarked == before + {x};
    }
  }

  /**
   * The selection loop of `getEliminationOrdering` as written, over the unmarked labels in
   * iteration order, each with its count of marked neighbours: `maxMarked` is compared but
   * never updated.
   */
  function ChooseAsWritten<L>(visits: seq<(L, int)>, maxMarked: int, current: Option<L>): (r: Option<L>)
    ensures r == current || exists i :: 0 <= i < |visits| && visits[i].1 > maxMarked && r == Some(visits[i].0)
  {
    if visits == [] then current
    else
      var next := if visits[0].1 > maxMarked then Some(visits[0].0) else current;
      var chosen := ChooseAsWritten(visits[1..], maxMarked, next);
      assert chosen != next ==> exists i :: 0 <= i < |visits| && visits[i].1 > maxMarked && chosen == Some(visits[i].0) by {
        if chosen != next {
          var j :| 0 <= j < |visits| - 1 && visits[1..][j].1 > maxMarked && chosen == Some(visits[1..][j].0);
          assert visits[j + 1] == visits[1..][j];
        }
      }
      chosen
  }

  /** Visiting one more label, as written. */
  lemma {:induction false} ChooseAsWrittenSnoc<L>(visits: seq<(L, int)>, maxMarked: int, current: Option<L>, v: (L, int))
    ensures ChooseAsWritten(visits + [v], maxMarked, current) ==
      if v.1 > maxMarked then Some(v.0) else ChooseAsWritten(visits, maxMarked, current)
  {
    if visits != [] {
      assert (visits + [v])[1..] == visits[1..] + [v];
      ChooseAsWrittenSnoc(visits[1..], maxMarked, if visits[0].1 > maxMarked then Some(visits[0].0) else current, v);
    }
  }

  /** As written, the choice is the last label visited, whatever the counts. */
  lemma {:induction false} ChooseAsWrittenLast<L>(visits: seq<(L, int)>, current: Option<L>)
    requires visits != [] && forall i :: 0 <= i < |visits| ==> visits[i].1 >= 0
    ensures ChooseAsWritten(visits, -1, current) == Some(visits[|visits| - 1].0)
  {
    if |visits| > 1 {
      ChooseAsWrittenLast(visits[1..], Some(visits[0].0));
    }
  }

  /** Two unmarked labels, 1 with one marked neighbour and 2 with none: as written, 2 is chosen. */
  lemma ChooseAsWrittenMissesMaximum()
    ensures ChooseAsWritten([(1, 1), (2, 0)], -1, None) == Some(2)
  {
    ChooseAsWrittenLast([(1, 1), (2, 0)], None);
  }

  class HEXGraph<L(==,!new)> {
    var nodes: Nodes<L>
    const nameSpace: NameSpace<L>

    /** Every edge stays inside the graph: deleting a node deletes every edge to it. */
    ghost predicate Valid()
      reads this
    {
      Closed(nodes)
    }

    constructor (ns: NameSpace<L>)
      ensures nodes == map[] && nameSpace == ns && Valid()
    {
      nodes := map[];
      nameSpace := ns;
    }

    function Size(): (r: nat)
      reads this
      ensures forall s: set<L> :: (forall l :: l in s <==> HasNode(l)) ==> r == |s|
    {
      KeysCard(nodes);
      |nodes|
    }

    predicate HasNode(name: L)
      reads this
    {
      name in nodes
    }

    /** Adds an edgeless node when the label is new; an existing node is left alone. */
    method AddNode(name: L) returns (added: bool)
      requires Valid()
      modifies this
      ensures Valid()
      ensures added <==> name !in old(nodes)
      ensures nodes == if added then old(nodes)[name := Edgeless()] else old(nodes)
    {
      if !HasNode(name) {
        nodes := nodes[name := Edgeless()];
        return true;
      }
      return false;
    }

    /** The node-level `add...Edge` insertions: reports whether `b` was new in that set. */
    method AttachEdge(k: EdgeKind, a: L, b: L) returns (added: bool)
      requires a in nodes
      modifies this
      ensures nodes == Link(old(nodes), k, a, b)
      ensures added <==> b !in old(nodes)[a].Edges(k)
    {
      added := b !in nodes[a].Edges(k);
      nodes := Link(nodes, k, a, b);
    }

    method AddTriangulationRelationship(first: L, second: L) returns (r: bool)
      requires Valid()
      modifies this
      ensures Valid()
      ensures !(first in old(nodes) && second in old(nodes)) ==> !r && nodes == old(nodes)
      ensures first in old(nodes) && second in old(nodes) ==>
        nodes == TriLinked(old(nodes), first, second) && (r <==> TriLinkAdds(old(nodes), first, second))
    {
      if !(first in nodes && second in nodes) {
        return false;
      }
      ghost var g := nodes;
      r := AttachEdge(Triangle, first, second);
      if r {
        r := AttachEdge(Triangle, second, first);
      } else {
        assert g[first].With(Triangle, second) == g[first];
      }
      TriLinkedFacts(g, first, second);
    }

    method AddHierarchy(parent: L, child: L) returns (r: bool)
      requires Valid()
      modifies this
      ensures Valid()
      ensures !(parent in old(nodes) && child in old(nodes)) ==> !r && nodes == old(nodes)
      ensures parent in old(nodes) && child in old(nodes) ==>
        nodes == HierarchyLinked(old(nodes), parent, child) &&
        (r <==> child !in old(nodes)[parent].hierarchy && TriLinkAdds(old(nodes), parent, child))
    {
      if !(parent in nodes && child in nodes) {
        return false;
      }
      ghost var g := nodes;
      r := AttachEdge(Child, parent, child);
      if r {
        LinkClosed(g, Child, parent, child);
        r := AddTriangulationRelationship(parent, child);
      } else {
        assert g[parent].With(Child, child) == g[parent];
      }
    }

    method AddExclusion(first: L, second: L) returns (r: bool)
      requires Valid()
      modifies this
      ensures Valid()
      ensures !(first in old(nodes) && second in old(nodes)) ==> !r && nodes == old(nodes)
      ensures first in old(nodes) && second in old(nodes) ==>
        nodes == ExclusionLinked(old(nodes), first, second) &&
        (r <==> second !in old(nodes)[first].excluded && first !in old(nodes)[second].excluded &&
                TriLinkAdds(old(nodes), first, second))
    {
      if !(first in nodes && second in nodes) {
        return false;
      }
      ghost var g := nodes;
      r := AttachEdge(Exclusion, first, second);
      if !r {
        assert g[first].With(Exclusion, second) == g[first];
        return;
      }
      ghost var g1 := nodes;
      LinkClosed(g, Exclusion, first, second);
      r := AttachEdge(Exclusion, second, first);
      if !r {
        assert g1[second].With(Exclusion, first) == g1[second];
        return;
      }
      LinkClosed(g1, Exclusion, second, first);
      r := AddTriangulationRelationship(first, second);
    }

    /** `GraphNode.removeEdges`: strips every kind of edge from `a` to `head`. */
    method RemoveEdges(a: L, head: L) returns (r: bool)
      requires a in nodes
      modifies this
      ensures nodes == Unlinked(old(nodes), a, head) && r
    {
      var n := nodes[a];
      var h := RemoveMatching(n.hierarchy, head);
      var e := RemoveMatching(n.excluded, head);
      var t := RemoveMatching(n.triangulated, head);
      nodes := nodes[a := GraphNode(h, e, t)];
      if head in t || head in h || head in e {
        // "Node not actually removed" cannot be thrown
        assert false;
      }
      r := head !in e && head !in t;
    }

    /** Removes the node and, from every remaining node, every edge to it. */
    method DeleteNode(name: L)
      requires Valid()
      modifies this
      ensures Valid()
      ensures nodes == Minus(old(nodes), {name})
      ensures name !in old(nodes) ==> nodes == old(nodes)
    {
      ghost var g := nodes;
      nodes := nodes - {name};
      var todo := nodes.Keys;
      while todo != {}
        invariant todo <= nodes.Keys && nodes.Keys == g.Keys - {name}
        invariant forall v :: v in nodes ==> nodes[v] == if v in todo then g[v] else g[v].Minus({name})
        decreases |todo|
      {
        var v := Pick(todo);
        todo := todo - {v};
        var _ := RemoveEdges(v, name);
      }
      MinusClosed(g, {name});
      if name !in g {
        MinusAbsent(g, {name});
      }
    }

    /** `deleteHierarchyEdge` and `deleteExclusion`: a missing first label fails on the null node. */
    method Unlink(a: L, b: L) returns (r: Result<bool>)
      requires Valid()
      modifies this
      ensures Valid()
      ensures a !in old(nodes) ==> r == Err(NullPointer) && nodes == old(nodes)
      ensures a in old(nodes) ==> r == Ok(true) && nodes == Unlinked(old(nodes), a, b)
    {
      if a !in nodes {
        return Err(NullPointer);
      }
      UnlinkedFacts(nodes, a, b);
      var removed := RemoveEdges(a, b);
      return Ok(removed);
    }

    /** Strips every edge from `parent` to `child`; `child`'s own edges are kept. */
    method DeleteHierarchyEdge(parent: L, child: L) returns (r: Result<bool>)
      requires Valid()
      modifies this
      ensures Valid()
      ensures parent !in old(nodes) ==> r == Err(NullPointer) && nodes == old(nodes)
      ensures parent in old(nodes) ==> r == Ok(true) && nodes == Unlinked(old(nodes), parent, child)
    {
      r := Unlink(parent, child);
    }

    /** Strips every edge from `first` to `second`, in that direction only. */
    method DeleteExclusion(first: L, second: L) returns (r: Result<bool>)
      requires Valid()
      modifies this
      ensures Valid()
      ensures first !in old(nodes) ==> r == Err(NullPointer) && nodes == old(nodes)
      ensures first in old(nodes) ==> r == Ok(true) && nodes == Unlinked(old(nodes), first, second)
    {
      r := Unlink(first, second);
    }

    function IsDescendant(parent: L, child: L): (r: Result<bool>)
      reads this
      ensures r.Ok? <==> parent in nodes
      ensures r.Ok? ==> (r.value <==> child in nodes && Reaches(ChildMap(nodes), parent, child))
    {
      if parent !in nodes then Err(NullPointer)
      else Ok(child in nodes && child in Descendants(ChildMap(nodes), parent))
    }

    function HasExclusion(first: L, second: L): (r: Result<bool>)
      reads this
      ensures r.Ok? <==> first in nodes
      ensures r.Ok? ==> (r.value <==> second in nodes && second in nodes[first].excluded)
    {
      if first !in nodes then Err(NullPointer)
      else Ok(second in nodes && second in nodes[first].excluded)
    }

    /** The descendant closure, recomputed from the direct children on every call. */
    function GetDescendants(name: L): (r: Option<set<L>>)
      reads this
      ensures r.Some? <==> name in nodes
      ensures r.Some? ==> forall y :: y in r.value <==> Reaches(ChildMap(nodes), name, y)
    {
      if name in nodes then Some(Descendants(ChildMap(nodes), name)) else None
    }

    function GetExcluded(name: L): (r: Option<set<L>>)
      requires Valid()
      reads this
      ensures r.Some? <==> name in nodes
      ensures r.Some? ==> forall y :: y in r.value <==> HasExclusion(name, y) == Ok(true)
    {
      if name in nodes then Some(nodes[name].excluded) else None
    }

    function GetTriangulatedNeighbors(name: L): (r: Option<set<L>>)
      reads this
      ensures r.Some? <==> name in nodes
      ensures r.Some? ==> r.value == TriMap(nodes)[name]
    {
      if name in nodes then Some(nodes[name].triangulated) else None
    }

    /** `getNodeSet`: a copy of the key set, i.e. exactly the labels `hasNode` accepts. */
    function GetNodeSet(): (r: set<L>)
      reads this
      ensures forall l :: l in r <==> HasNode(l)
    {
      nodes.Keys
    }

    /** The labels in iteration order of the key set. */
    method GetNodeList() returns (list: seq<L>)
      ensures forall x :: x in list <==> x in nodes
      ensures Distinct(list) && |list| == |nodes|
    {
      list := [];
      var todo := nodes.Keys;
      while todo != {}
        invariant todo <= nodes.Keys
        invariant forall x :: x in list <==> x in nodes.Keys - todo
        invariant Distinct(list) && |list| + |todo| == |nodes.Keys|
        decreases |todo|
      {
        var n := Pick(todo);
        assert n !in list;
        todo := todo - {n};
        list := list + [n];
      }
    }

    /** Scans every label and keeps those whose closure holds `label`. */
    method GetAncestors(name: L) returns (r: Option<set<L>>)
      ensures r.Some? <==> name in nodes
      ensures r.Some? ==> r.value == AncestorsOf(nodes, name)
    {
      if !HasNode(name) {
        return None;
      }
      var found: set<L> := {};
      var todo := nodes.Keys;
      while todo != {}
        invariant todo <= nodes.Keys
        invariant forall y :: y in found <==> y in nodes.Keys - todo && Reaches(ChildMap(nodes), y, name)
        decreases |todo|
      {
        var node := Pick(todo);
        todo := todo - {node};
        if name in Descendants(ChildMap(nodes), node) {
          found := found + {node};
        }
      }
      return Some(found);
    }

    /**
     * For every label unrelated to `label`, inserts `label` itself (not the unrelated label),
     * so the answer is `{label}` or empty.
     */
    method GetOverlapping(name: L) returns (r: Option<set<L>>)
      requires Valid()
      ensures r.Some? <==> name in nodes
      ensures r.Some? ==> r.value <= {name}
      ensures r.Some? ==> (name in r.value <==> exists y :: y in nodes && Unrelated(nodes, name, y))
      ensures r.Some? && !Reaches(ChildMap(nodes), name, name) && name !in nodes[name].excluded ==> r.value == {name}
    {
      if !HasNode(name) {
        return None;
      }
      var overlapping: set<L> := {};
      var ancestors := GetAncestors(name);
      var descendants := GetDescendants(name).value;
      var excluded := GetExcluded(name).value;
      var list := GetNodeList();
      var i := 0;
      while i < |list|
        invariant 0 <= i <= |list|
        invariant overlapping <= {name}
        invariant name in overlapping <==> exists j :: 0 <= j < i && Unrelated(nodes, name, list[j])
      {
        var node := list[i];
        if node !in ancestors.value && node !in descendants && node !in excluded {
          overlapping := overlapping + {name};
        }
        i := i + 1;
      }
      assert !Reaches(ChildMap(nodes), name, name) && name !in nodes[name].excluded ==> Unrelated(nodes, name, name);
      return Some(overlapping);
    }

    /** `checkInvariant`: fails when some node excludes one of its direct children. */
    method CheckInvariant() returns (out: Outcome)
      ensures out == Pass <==> NoExcludedChild(nodes)
      ensures out.Fail? ==> out.error == IllegalState
    {
      var todo := nodes.Keys;
      while todo != {}
        invariant todo <= nodes.Keys
        invariant forall l, c :: l in nodes.Keys - todo && c in nodes[l].hierarchy ==> c !in nodes[l].excluded
        decreases |todo|
      {
        var name := Pick(todo);
        todo := todo - {name};
        out := CheckNode(nodes[name]);
        if out.Fail? {
          return;
        }
      }
      return Pass;
    }

    /**
     * The first inner loop of `sparsify` for label `name` and one of its ancestors: deletes the
     * hierarchy edge to `name` from every ancestor of `ancestor` that `name`'s ancestor set holds.
     */
    method SparsifyAncestor(name: L, ancestor: L, ancestors: set<L>, ghost g0: Nodes<L>, ghost h: bool)
      requires Valid() && name in nodes && ancestor in nodes && Shrunk(g0, nodes)
      requires h ==> Acyclic(ChildMap(g0)) && NoExcludedChild(g0) && ReachAgrees(ChildMap(nodes), ChildMap(g0))
      requires h ==> Reaches(ChildMap(g0), ancestor, name)
      modifies this
      ensures Valid() && name in nodes && ancestor in nodes && Shrunk(g0, nodes)
      ensures h ==> ReachAgrees(ChildMap(nodes), ChildMap(g0))
    {
      var above := GetAncestors(ancestor);
      assert h ==> forall y :: y in above.value ==> Reaches(ChildMap(g0), y, ancestor);
      var pending := above.value;
      while pending != {}
        invariant pending <= above.value
        invariant name in nodes && ancestor in nodes && Valid() && Shrunk(g0, nodes)
        invariant h ==> ReachAgrees(ChildMap(nodes), ChildMap(g0))
        decreases |pending|
      {
        var ancestorAncestor := Pick(pending);
        pending := pending - {ancestorAncestor};
        if ancestorAncestor in ancestors {
          ghost var g := nodes;
          if h {
            PruneKeepsReach(g0, g, ancestorAncestor, ancestor, name);
          }
          UnlinkedFacts(g, ancestorAncestor, name);
          var _ := DeleteHierarchyEdge(ancestorAncestor, name);
          ShrunkTrans(g0, g, nodes);
        }
      }
    }

    /**
     * The second inner loop of `sparsify` for label `name` and one of its ancestors: deletes the
     * exclusions of `name` that `ancestor` also has.
     */
    method SparsifyExclusions(name: L, ancestor: L, excluded: set<L>, ghost g0: Nodes<L>, ghost h: bool)
      requires Valid() && name in nodes && ancestor in nodes && Shrunk(g0, nodes)
      requires excluded <= g0[name].excluded
      requires h ==> Acyclic(ChildMap(g0)) && NoExcludedChild(g0) && ReachAgrees(ChildMap(nodes), ChildMap(g0))
      modifies this
      ensures Valid() && name in nodes && Shrunk(g0, nodes)
      ensures h ==> ReachAgrees(ChildMap(nodes), ChildMap(g0))
    {
      var ancestorExclusions := GetExcluded(ancestor).value;
      var pending := ancestorExclusions;
      while pending != {}
        invariant pending <= ancestorExclusions
        invariant name in nodes && Valid() && Shrunk(g0, nodes)
        invariant h ==> ReachAgrees(ChildMap(nodes), ChildMap(g0))
        decreases |pending|
      {
        var ancestorExcluded := Pick(pending);
        pending := pending - {ancestorExcluded};
        if ancestorExcluded in excluded {
          ghost var g := nodes;
          if h {
            assert ancestorExcluded !in g[name].hierarchy;
            UnlinkedKeepsHierarchy(g, name, ancestorExcluded);
          }
          UnlinkedFacts(g, name, ancestorExcluded);
          var _ := DeleteExclusion(name, ancestorExcluded);
          ShrunkTrans(g0, g, nodes);
        }
      }
    }

    /** The body of `sparsify` for one label; its ancestor and exclusion sets are taken once, up front. */
    method SparsifyNode(name: L, ghost g0: Nodes<L>, ghost h: bool)
      requires Valid() && name in nodes && Shrunk(g0, nodes)
      requires h ==> Acyclic(ChildMap(g0)) && NoExcludedChild(g0) && ReachAgrees(ChildMap(nodes), ChildMap(g0))
      modifies this
      ensures Valid() && Shrunk(g0, nodes)
      ensures h ==> ReachAgrees(ChildMap(nodes), ChildMap(g0))
    {
      var ancestors := GetAncestors(name);
      var excluded := GetExcluded(name).value;
      assert h ==> forall y :: y in ancestors.value ==> Reaches(ChildMap(g0), y, name);
      var todo := ancestors.value;
      while todo != {}
        invariant todo <= ancestors.value <= nodes.Keys
        invariant Valid() && Shrunk(g0, nodes)
        invariant h ==> ReachAgrees(ChildMap(nodes), ChildMap(g0))
        decreases |todo|
      {
        var ancestor := Pick(todo);
        todo := todo - {ancestor};
        SparsifyAncestor(name, ancestor, ancestors.value, g0, h);
        SparsifyExclusions(name, ancestor, excluded, g0, h);
      }
    }

    /**
     * Deletes the hierarchy edges and exclusions implied by others, then checks the invariant.
     * On an acyclic hierarchy in which no node excludes a child, every descendant relation is kept.
     */
    method Sparsify() returns (out: Outcome)
      requires Valid()
      modifies this
      ensures Valid() && Shrunk(old(nodes), nodes)
      ensures Acyclic(ChildMap(old(nodes))) && NoExcludedChild(old(nodes)) ==>
        ReachAgrees(ChildMap(nodes), ChildMap(old(nodes))) && out == Pass
      ensures out == Pass <==> NoExcludedChild(nodes)
      ensures out.Fail? ==> out.error == IllegalState
    {
      ghost var g0 := nodes;
      ghost var h := Acyclic(ChildMap(g0)) && NoExcludedChild(g0);
      var names := GetNodeSet();
      while names != {}
        invariant names <= g0.Keys
        invariant Valid() && Shrunk(g0, nodes)
        invariant h ==> ReachAgrees(ChildMap(nodes), ChildMap(g0))
        decreases |names|
      {
        var name := Pick(names);
        names := names - {name};
        SparsifyNode(name, g0, h);
      }
      if h {
        ShrunkNoExcludedChild(g0, nodes);
      }
      out := CheckInvariant();
    }

    /** One `addExclusion` of `densify`, seen through what `densify` keeps. */
    method DensifyExclusion(first: L, second: L, ghost g0: Nodes<L>, ghost done: set<L>)
      requires first in nodes && second in nodes && Densifying(g0, nodes, done)
      modifies this
      ensures Densifying(g0, nodes, done) && first in nodes
      ensures old(nodes)[first].excluded + {second} <= nodes[first].excluded
    {
      ExclusionStep(g0, nodes, first, second, done);
      var _ := AddExclusion(first, second);
    }

    /** One `addHierarchy` of `densify`, seen through what `densify` keeps. */
    method DensifyChild(parent: L, child: L, ghost g0: Nodes<L>, ghost done: set<L>)
      requires parent in nodes && child in nodes && Densifying(g0, nodes, done)
      requires Reaches(ChildMap(g0), parent, child)
      modifies this
      ensures Densifying(g0, nodes, done) && parent in nodes
      ensures old(nodes)[parent].hierarchy + {child} <= nodes[parent].hierarchy
      ensures old(nodes)[parent].excluded <= nodes[parent].excluded
    {
      HierarchyStep(g0, nodes, parent, child, done);
      var _ := AddHierarchy(parent, child);
    }

    /** The innermost loop of `densify`: `name` excludes everything `ancestor` excludes. */
    method DensifyAncestor(name: L, ancestor: L, ghost g0: Nodes<L>, ghost done: set<L>)
      requires name in nodes && ancestor in nodes && Densifying(g0, nodes, done)
      modifies this
      ensures Densifying(g0, nodes, done) && name in nodes
      ensures g0[ancestor].excluded + old(nodes)[name].excluded <= nodes[name].excluded
    {
      ghost var start := nodes[name].excluded;
      var exclusions := GetExcluded(ancestor).value;
      var pending := exclusions;
      while pending != {}
        invariant pending <= exclusions <= nodes.Keys && name in nodes
        invariant Densifying(g0, nodes, done)
        invariant forall x :: x in start || (x in exclusions && x !in pending) ==> x in nodes[name].excluded
        decreases |pending|
      {
        var ex;
        ex, pending := Take(pending);
        DensifyExclusion(name, ex, g0, done);
      }
    }

    /** The first inner loop of `densify`: `name` excludes everything each of its ancestors excludes. */
    method DensifyExclusions(name: L, ghost g0: Nodes<L>, ghost done: set<L>)
      requires name in nodes && Densifying(g0, nodes, done)
      modifies this
      ensures Densifying(g0, nodes, done) && name in nodes && ExclusionsInherited(g0, nodes, {name})
    {
      var ancestors := GetAncestors(name);
      var todo := ancestors.value;
      DensifyingReach(g0, nodes, done);
      AncestorsAgree(g0, nodes, name);
      while todo != {}
        invariant todo <= ancestors.value == AncestorsOf(g0, name) <= nodes.Keys
        invariant name in nodes && Densifying(g0, nodes, done)
        invariant forall a :: a in ancestors.value && a !in todo ==> g0[a].excluded <= nodes[name].excluded
        decreases |todo|
      {
        var ancestor;
        ancestor, todo := Take(todo);
        ghost var before := nodes[name].excluded;
        DensifyAncestor(name, ancestor, g0, done);
        forall a | a in ancestors.value && a !in todo ensures g0[a].excluded <= nodes[name].excluded {
          if a != ancestor {
            assert g0[a].excluded <= before;
          }
        }
      }
    }

    /** The second inner loop of `densify`: every descendant of `name` becomes a direct child. */
    method DensifyHierarchy(name: L, ghost g0: Nodes<L>, ghost done: set<L>)
      requires name in nodes && Densifying(g0, nodes, done)
      modifies this
      ensures Densifying(g0, nodes, done) && name in nodes && ChildrenClosed(g0, nodes, {name})
      ensures old(nodes)[name].excluded <= nodes[name].excluded
    {
      ghost var start := nodes[name].excluded;
      DensifyingReach(g0, nodes, done);
      var descendants := GetDescendants(name).value;
      forall y | y in descendants ensures y in nodes {
        ReachedInside(nodes, name, y);
      }
      var todo := descendants;
      while todo != {}
        invariant todo <= descendants <= nodes.Keys && name in nodes
        invariant Densifying(g0, nodes, done) && start <= nodes[name].excluded
        invariant forall y :: y in descendants && y !in todo ==> y in nodes[name].hierarchy
        decreases |todo|
      {
        var descendant;
        descendant, todo := Take(todo);
        DensifyChild(name, descendant, g0, done);
      }
    }

    /** The body of `densify` for one label. */
    method DensifyNode(name: L, ghost g0: Nodes<L>, ghost done: set<L>)
      requires name in nodes && Densifying(g0, nodes, done)
      modifies this
      ensures Densifying(g0, nodes, done + {name})
    {
      DensifyExclusions(name, g0, done);
      ghost var g := nodes;
      DensifyHierarchy(name, g0, done);
      DensifyingDone(g0, g, nodes, name, done);
    }

    /**
     * Makes every descendant a direct child and every ancestor's exclusion an exclusion of the
     * node as well, then checks the invariant.
     */
    method Densify() returns (out: Outcome)
      requires Valid()
      modifies this
      ensures Valid() && Grown(old(nodes), nodes)
      ensures ReachAgrees(ChildMap(nodes), ChildMap(old(nodes)))
      ensures forall l :: l in nodes ==> nodes[l].hierarchy == Descendants(ChildMap(old(nodes)), l)
      ensures forall l, a :: l in nodes && a in AncestorsOf(old(nodes), l) ==> old(nodes)[a].excluded <= nodes[l].excluded
      ensures SymmetricExclusion(old(nodes)) ==> SymmetricExclusion(nodes)
      ensures out == Pass <==> NoExcludedChild(nodes)
      ensures out.Fail? ==> out.error == IllegalState
    {
      ghost var g0 := nodes;
      ghost var done: set<L> := {};
      DensifyingStart(g0);
      var names := GetNodeSet();
      while names != {}
        invariant names <= g0.Keys && done == g0.Keys - names
        invariant Densifying(g0, nodes, done)
        decreases |names|
      {
        var name;
        name, names := Take(names);
        DensifyNode(name, g0, done);
        done := done + {name};
      }
      DensifyResult(g0, nodes);
      DensifyingReach(g0, nodes, g0.Keys);
      out := CheckInvariant();
    }

    /**
     * Progress of the two inner loops of `triangulate` over the neighbourhood `n`, in the working
     * copy (whose triangulation edges started as `ts`) and in this graph (started as `us`).
     */
    ghost predicate Pairing(copy: HEXGraph<L>, n: set<L>, ts: Adjacency<L>, us: Adjacency<L>,
                            done: set<L>, first: L, seconds: set<L>)
      reads this, copy
    {
      copy != this && Valid() && copy.Valid() && copy.nodes.Keys == ts.Keys <= nodes.Keys == us.Keys &&
      Within(ts, TriMap(copy.nodes), n) && Within(us, TriMap(nodes), n) &&
      Joined(TriMap(copy.nodes), n, done, first, seconds) && Joined(TriMap(nodes), n, done, first, seconds)
    }

    /**
     * One turn of the innermost loop of `triangulate`: unless the two labels are equal, a
     * triangulation edge between them, first in the working copy and then in this graph.
     */
    method TriangulatePair(copy: HEXGraph<L>, first: L, second: L, ghost n: set<L>,
                           ghost ts: Adjacency<L>, ghost us: Adjacency<L>, ghost done: set<L>, ghost seconds: set<L>)
      requires first in n && second in n && n <= ts.Keys
      requires Pairing(copy, n, ts, us, done, first, seconds)
      modifies this, copy
      ensures Pairing(copy, n, ts, us, done, first, seconds + {second})
      ensures SameButTriangulation(old(nodes), nodes)
    {
      ghost var c, g := copy.nodes, nodes;
      if first != second {
        TriLinkedWithin(c, first, second, ts, n);
        TriLinkedWithin(g, first, second, us, n);
        var _ := copy.AddTriangulationRelationship(first, second);
        var _ := AddTriangulationRelationship(first, second);
      }
      JoinedStep(TriMap(c), TriMap(copy.nodes), n, done, first, seconds, second);
      JoinedStep(TriMap(g), TriMap(nodes), n, done, first, seconds, second);
    }

    /** The middle loop of `triangulate`: `first` is joined to every other neighbour of `name`. */
    method TriangulateFirst(copy: HEXGraph<L>, name: L, first: L, ghost n: set<L>,
                            ghost ts: Adjacency<L>, ghost us: Adjacency<L>, ghost done: set<L>)
      requires name in ts && n == ts[name] && first in n && n <= ts.Keys
      requires Pairing(copy, n, ts, us, done, name, {})
      modifies this, copy
      ensures Pairing(copy, n, ts, us, done + {first}, name, {})
      ensures SameButTriangulation(old(nodes), nodes)
    {
      ghost var g0 := nodes;
      WithinNeighbours(ts, TriMap(copy.nodes), n, name);
      var seconds := copy.GetTriangulatedNeighbors(name).value;
      JoinedFirst(TriMap(copy.nodes), n, done, name, first);
      JoinedFirst(TriMap(nodes), n, done, name, first);
      var pendingS := seconds;
      while pendingS != {}
        invariant pendingS <= n
        invariant Pairing(copy, n, ts, us, done, first, n - pendingS)
        invariant SameButTriangulation(g0, nodes)
        decreases |pendingS|
      {
        var second;
        ghost var g := nodes;
        second, pendingS := Take(pendingS);
        TriangulatePair(copy, first, second, n, ts, us, done, n - pendingS - {second});
        SameButTrans(g0, g, nodes);
      }
      JoinedNext(TriMap(copy.nodes), n, done, first, name);
      JoinedNext(TriMap(nodes), n, done, first, name);
    }

    /**
     * The body of `triangulate` for one label: its neighbours in the working copy become a
     * clique in the copy and in this graph, and the label leaves the copy.
     */
    method TriangulateNode(copy: HEXGraph<L>, name: L)
      requires copy != this && Valid() && copy.Valid() && name in copy.nodes && copy.nodes.Keys <= nodes.Keys
      modifies this, copy
      ensures Valid() && copy.Valid() && copy.nodes.Keys == old(copy.nodes).Keys - {name}
      ensures SameButTriangulation(old(nodes), nodes)
      ensures TriMap(copy.nodes) == Step(TriMap(old(copy.nodes)), name)
      ensures TriMap(nodes) == Fill(TriMap(old(nodes)), Nbrs(TriMap(old(copy.nodes)), name))
    {
      ghost var g0 := nodes;
      ghost var ts, us := TriMap(copy.nodes), TriMap(nodes);
      var firsts := copy.GetTriangulatedNeighbors(name).value;
      ghost var n := firsts;
      forall y | y in n ensures y in copy.nodes {
        assert y in copy.nodes[name].Targets();
      }
      WithinStart(ts, n);
      WithinStart(us, n);
      var pendingF := firsts;
      while pendingF != {}
        invariant pendingF <= n
        invariant Pairing(copy, n, ts, us, n - pendingF, name, {})
        invariant SameButTriangulation(g0, nodes)
        decreases |pendingF|
      {
        var first;
        ghost var g := nodes;
        first, pendingF := Take(pendingF);
        TriangulateFirst(copy, name, first, n, ts, us, n - pendingF - {first});
        SameButTrans(g0, g, nodes);
      }
      FillBounds(ts, TriMap(copy.nodes), n, name);
      FillBounds(us, TriMap(nodes), n, name);
      TriMapMinus(copy.nodes, name);
      copy.DeleteNode(name);
    }

    /**
     * Triangulates the graph by the elimination game: it eliminates the labels of a working
     * copy one by one, and before each elimination joins the label's remaining neighbours
     * pairwise, in the copy and in this graph. `order` is the order of elimination and
     * `cliques` the neighbourhoods joined; `order` is then a perfect elimination ordering of
     * the triangulation edges.
     */
    method Triangulate() returns (ghost order: seq<L>, ghost cliques: seq<set<L>>)
      requires Valid()
      modifies this
      ensures Valid() && SameButTriangulation(old(nodes), nodes)
      ensures Permutes(TriMap(old(nodes)), order) && Cliques(TriMap(old(nodes)), order, cliques)
      ensures TriMap(nodes) == FillAll(TriMap(old(nodes)), cliques, |cliques|)
      ensures PerfectElimination(TriMap(nodes), order)
    {
      ghost var g0 := nodes;
      ghost var t0 := TriMap(nodes);
      TriMapClosed(g0);
      order, cliques := [], [];
      var copy := GetDeepCopy();
      var names := copy.GetNodeSet();
      while names != {}
        invariant fresh(copy) && Valid() && copy.Valid() && SameButTriangulation(g0, nodes)
        invariant names == copy.nodes.Keys && names <= g0.Keys
        invariant Eliminating(t0, TriMap(copy.nodes), TriMap(nodes), order, cliques)
        decreases |names|
      {
        var name;
        ghost var g, c := nodes, TriMap(copy.nodes);
        name, names := Take(names);
        EliminatingStep(t0, c, TriMap(nodes), order, cliques, name);
        TriangulateNode(copy, name);
        SameButTrans(g0, g, nodes);
        order, cliques := order + [name], cliques + [Nbrs(c, name)];
      }
      EliminatingDone(t0, TriMap(copy.nodes), TriMap(nodes), order, cliques);
    }

    /** The count of triangulation neighbours of `node` that are not in `unmarked`. */
    method CountMarked(node: L, unmarked: set<L>) returns (k: nat)
      requires node in nodes
      ensures k == Marked(TriMap(nodes), node, unmarked)
    {
      var neighbours := GetTriangulatedNeighbors(node).value;
      k := 0;
      var pending := neighbours;
      while pending != {}
        invariant pending <= neighbours
        invariant k == |(neighbours - pending) - unmarked|
        decreases |pending|
      {
        var neighbour;
        ghost var before := pending;
        neighbour, pending := Take(pending);
        CountStep(neighbours, before, unmarked, neighbour);
        if neighbour !in unmarked {
          k := k + 1;
        }
      }
    }

    /**
     * The selection loop of `getEliminationOrdering` as written: every label visited beats
     * `maxMarked`, which stays -1, so the choice is the last label of the iteration
     * (`visits`, each with its count of marked neighbours).
     */
    method SelectAsWritten(unmarked: set<L>) returns (current: L, ghost visits: seq<(L, int)>)
      requires unmarked != {} && unmarked <= nodes.Keys
      ensures current in unmarked && visits != []
      ensures forall i :: 0 <= i < |visits| ==> visits[i].0 in unmarked && visits[i].1 == Marked(TriMap(nodes), visits[i].0, unmarked)
      ensures Some(current) == ChooseAsWritten(visits, -1, None) && current == visits[|visits| - 1].0
    {
      var chosen: Option<L> := None;
      var maxMarked: int := -1;
      var pending := unmarked;
      visits := [];
      while pending != {}
        invariant pending <= unmarked
        invariant chosen.None? <==> visits == []
        invariant visits == [] ==> pending == unmarked
        invariant chosen == ChooseAsWritten(visits, maxMarked, None) && maxMarked == -1
        invariant chosen.Some? ==> chosen.value in unmarked && chosen.value == visits[|visits| - 1].0
        invariant forall i :: 0 <= i < |visits| ==> visits[i].0 in unmarked && visits[i].1 == Marked(TriMap(nodes), visits[i].0, unmarked)
        decreases |pending|
      {
        var node;
        node, pending := Take(pending);
        var markedNeighbours := CountMarked(node, unmarked);
        ChooseAsWrittenSnoc(visits, maxMarked, None, (node, markedNeighbours));
        visits := visits + [(node, markedNeighbours)];
        if markedNeighbours > maxMarked {
          chosen := Some(node);
        }
      }
      current := chosen.value;
    }

    /**
     * `getEliminationOrdering` as written: marks the labels one at a time, each time taking
     * the last unmarked label of the iteration, and returns them in the reverse order of marking.
     * The result lists every label exactly once.
     */
    method GetEliminationOrdering() returns (ordering: seq<L>)
      ensures |ordering| == |nodes| && Distinct(ordering)
      ensures forall y :: y in ordering <==> y in nodes
    {
      var unmarked := GetNodeSet();
      var picks: seq<L> := [];
      var i := Size() - 1;
      while i >= 0
        invariant -1 <= i && i + 1 == |unmarked| && |picks| + |unmarked| == |nodes|
        invariant Marks(nodes.Keys, unmarked, picks)
        decreases i
      {
        var current, _ := SelectAsWritten(unmarked);
        MarksStep(nodes.Keys, unmarked, picks, current);
        picks := picks + [current];
        unmarked := unmarked - {current};
        i := i - 1;
      }
      ordering := Reverse(picks);
      MarksDone(nodes.Keys, picks);
    }

    /**
     * The selection loop of `getEliminationOrdering` with `maxMarked` raised to each new
     * maximum, as its comparison intends: it chooses an unmarked label with the most marked
     * neighbours.
     */
    method SelectNext(unmarked: set<L>) returns (current: L)
      requires unmarked != {} && unmarked <= nodes.Keys
      ensures current in unmarked
      ensures MostMarked(TriMap(nodes), current, unmarked)
    {
      var chosen: Option<L> := None;
      var maxMarked: int := -1;
      var pending := unmarked;
      while pending != {}
        invariant pending <= unmarked
        invariant chosen.None? ==> pending == unmarked && maxMarked == -1
        invariant chosen.Some? ==> chosen.value in unmarked && maxMarked == Marked(TriMap(nodes), chosen.value, unmarked)
        invariant forall y :: y in unmarked && y !in pending ==> Marked(TriMap(nodes), y, unmarked) <= maxMarked
        decreases |pending|
      {
        var node;
        node, pending := Take(pending);
        var markedNeighbours := CountMarked(node, unmarked);
        if markedNeighbours > maxMarked {
          chosen := Some(node);
          maxMarked := markedNeighbours;
        }
      }
      current := chosen.value;
    }

    /**
     * `getEliminationOrdering` with the corrected selection: marks the labels one at a time,
     * each time choosing an unmarked label with the most marked neighbours, and returns them in
     * the reverse order of marking.
     */
    method GetMaximumCardinalityOrdering() returns (ordering: seq<L>)
      ensures |ordering| == |nodes| && Distinct(ordering)
      ensures forall y :: y in ordering <==> y in nodes
      ensures MaximumCardinalityOrder(TriMap(nodes), ordering)
    {
      var unmarked := GetNodeSet();
      var picks: seq<L> := [];
      var i := Size() - 1;
      while i >= 0
        invariant -1 <= i && i + 1 == |unmarked| && |picks| + |unmarked| == |nodes|
        invariant Marking(TriMap(nodes), nodes.Keys, unmarked, picks)
        decreases i
      {
        var current := SelectNext(unmarked);
        MarkingStep(TriMap(nodes), nodes.Keys, unmarked, picks, current);
        picks := picks + [current];
        unmarked := unmarked - {current};
        i := i - 1;
      }
      ordering := Reverse(picks);
      MarkingDone(TriMap(nodes), nodes.Keys, picks);
    }

    /** A new graph over the same name table, with copies of every node and edge. */
    method GetDeepCopy() returns (copy: HEXGraph<L>)
      requires Valid()
      ensures fresh(copy) && copy.nameSpace == nameSpace
      ensures copy.nodes == nodes && copy.Valid()
    {
      copy := new HEXGraph(nameSpace);
      var todo := nodes.Keys;
      while todo != {}
        invariant todo <= nodes.Keys
        invariant fresh(copy) && copy.nameSpace == nameSpace
        invariant copy.nodes == map l | l in nodes && l !in todo :: nodes[l]
        decreases |todo|
      {
        var name := Pick(todo);
        todo := todo - {name};
        copy.nodes := copy.nodes[name := nodes[name]];
      }
    }

    /** The subgraph induced by `subset`, built on a copy; an empty subset gives an empty graph. */
    method GetSubgraph(subset: set<L>) returns (sub: HEXGraph<L>)
      requires Valid()
      ensures fresh(sub) && sub.nameSpace == nameSpace && sub.Valid()
      ensures sub.nodes == Induced(nodes, subset)
    {
      if subset == {} {
        sub := new HEXGraph(nameSpace);
        assert Induced(nodes, subset) == map[];
        return;
      }
      sub := GetDeepCopy();
      DeleteSelected(sub, nodes, nodes.Keys - subset);
      assert (nodes.Keys - subset) * nodes.Keys == nodes.Keys - subset;
      MinusComplement(nodes, subset);
    }

    /** The labels whose index is in `bits`. */
    ghost function Selected(bits: set<nat>): set<L>
      reads this
      requires nameSpace.Valid()
    {
      set l | l in nodes && nameSpace.GetIndex(l).Ok? && nameSpace.GetIndex(l).value in bits
    }

    /**
     * The subgraph induced by the labels whose index is set in `bits`. Looking up the index of
     * a label missing from the name table fails, unless no bit is set.
     */
    method GetSubgraphBits(bits: set<nat>) returns (r: Result<HEXGraph<L>>)
      requires Valid() && nameSpace.Valid()
      ensures r.Ok? ==> fresh(r.value) && r.value.nameSpace == nameSpace && r.value.Valid()
      ensures bits == {} ==> r.Ok? && r.value.nodes == map[]
      ensures bits != {} ==> (r.Ok? <==> forall l :: l in nodes ==> l in nameSpace.names)
      ensures bits != {} && r.Ok? ==> r.value.nodes == Induced(nodes, Selected(bits))
      ensures r.Err? ==> r.error == NullPointer
    {
      if bits == {} {
        var empty := new HEXGraph(nameSpace);
        return Ok(empty);
      }
      var sub := GetDeepCopy();
      var list := sub.GetNodeList();
      var drop: set<L> := {};
      var i := 0;
      while i < |list|
        invariant 0 <= i <= |list|
        invariant forall x :: x in list[..i] ==> x in nameSpace.names
        invariant forall x :: x in drop <==> x in list[..i] && nameSpace.GetIndex(x).value !in bits
      {
        var index := nameSpace.GetIndex(list[i]);
        if index.Err? {
          return Err(index.error);
        }
        if index.value !in bits {
          drop := drop + {list[i]};
        }
        assert list[..i + 1] == list[..i] + [list[i]];
        i := i + 1;
      }
      assert list[..i] == list;
      DeleteSelected(sub, nodes, drop);
      assert drop * nodes.Keys == nodes.Keys - Selected(bits);
      MinusComplement(nodes, Selected(bits));
      return Ok(sub);
    }

    /** A copy without the labels of `subset` and every edge to them. */
    method GetSubgraphMinus(subset: set<L>) returns (sub: HEXGraph<L>)
      requires Valid()
      ensures fresh(sub) && sub.nameSpace == nameSpace && sub.Valid()
      ensures sub.nodes == Minus(nodes, subset)
    {
      sub := GetDeepCopy();
      if subset == {} {
        MinusAbsent(nodes, subset);
        return;
      }
      DeleteSelected(sub, nodes, subset);
      MinusAbsent(Minus(nodes, subset * nodes.Keys), subset - nodes.Keys);
      MinusMinus(nodes, subset * nodes.Keys, subset - nodes.Keys);
      assert subset * nodes.Keys + (subset - nodes.Keys) == subset;
    }
  }
}
