/**
 * The nodes of a HEX graph, as values. A node is identified by its label, so each of its
 * three adjacency sets holds the labels of the adjacent nodes: the direct children
 * (hierarchy edges), the excluded labels and the triangulation neighbours. A whole graph
 * is a map from each label to its node.
 */
module GraphNodes {
  import opened Hierarchy

  datatype EdgeKind = Child | Exclusion | Triangle

  datatype GraphNode<L(==)> = GraphNode(hierarchy: set<L>, excluded: set<L>, triangulated: set<L>)
  {
    function Edges(k: EdgeKind): set<L> {
      match k
      case Child => hierarchy
      case Exclusion => excluded
      case Triangle => triangulated
    }

    /** The node with `b` added to its adjacency set of kind `k`. */
    function With(k: EdgeKind, b: L): (n: GraphNode<L>)
      ensures n.Edges(k) == Edges(k) + {b}
      ensures forall j :: j != k ==> n.Edges(j) == Edges(j)
    {
      match k
      case Child => this.(hierarchy := hierarchy + {b})
      case Exclusion => this.(excluded := excluded + {b})
      case Triangle => this.(triangulated := triangulated + {b})
    }

    /** The node with every edge of every kind to a label of `d` removed. */
    function Minus(d: set<L>): (n: GraphNode<L>)
      ensures forall k :: n.Edges(k) == Edges(k) - d
    {
      GraphNode(hierarchy - d, excluded - d, triangulated - d)
    }

    function Targets(): set<L> {
      hierarchy + excluded + triangulated
    }
  }

  function Edgeless<L(==)>(): GraphNode<L> {
    GraphNode({}, {}, {})
  }

  type Nodes<L(==)> = map<L, GraphNode<L>>

  /** Every edge of every node leads to a node of the graph. */
  ghost predicate Closed<L(!new)>(g: Nodes<L>) {
    forall l, x :: l in g && x in g[l].Targets() ==> x in g
  }

  /** The hierarchy edges as a relation. */
  function ChildMap<L(==,!new)>(g: Nodes<L>): (r: Rel<L>)
    ensures r.Keys == g.Keys
    ensures forall l :: l in g ==> Succ(r, l) == g[l].hierarchy
  {
    map l | l in g :: g[l].hierarchy
  }

  /** The triangulation edges as a relation. */
  function TriMap<L(==,!new)>(g: Nodes<L>): (t: map<L, set<L>>)
    ensures t.Keys == g.Keys
    ensures forall l :: l in g ==> t[l] == g[l].triangulated
  {
    map l | l in g :: g[l].triangulated
  }

  /** Exclusion edges come in pairs. */
  ghost predicate SymmetricExclusion<L(!new)>(g: Nodes<L>) {
    forall a, b :: a in g && b in g[a].excluded ==> b in g && a in g[b].excluded
  }

  /** No node excludes one of its direct children: the invariant `checkInvariant` tests. */
  ghost predicate NoExcludedChild<L(!new)>(g: Nodes<L>) {
    forall l, c :: l in g && c in g[l].hierarchy ==> c !in g[l].excluded
  }

  /** Every node has, of every kind, at most the edges it has in `g0`. */
  ghost predicate Shrunk<L(!new)>(g0: Nodes<L>, g: Nodes<L>) {
    g.Keys == g0.Keys &&
    forall l :: l in g ==>
      g[l].hierarchy <= g0[l].hierarchy && g[l].excluded <= g0[l].excluded &&
      g[l].triangulated <= g0[l].triangulated
  }

  /** Every node has, of every kind, at least the edges it has in `g0`. */
  ghost predicate Grown<L(!new)>(g0: Nodes<L>, g: Nodes<L>) {
    g.Keys == g0.Keys &&
    forall l :: l in g ==>
      g0[l].hierarchy <= g[l].hierarchy && g0[l].excluded <= g[l].excluded &&
      g0[l].triangulated <= g[l].triangulated
  }

  /** Two relations with the same descendant relation. */
  ghost predicate ReachAgrees<L(!new)>(r: Rel<L>, s: Rel<L>) {
    forall x, y :: Reaches(r, x, y) <==> Reaches(s, x, y)
  }

  /** Adds an edge of kind `k` from `a` to `b`. */
  function Link<L(==,!new)>(g: Nodes<L>, k: EdgeKind, a: L, b: L): (h: Nodes<L>)
    requires a in g
    ensures h.Keys == g.Keys
  {
    g[a := g[a].With(k, b)]
  }

  /**
   * The state after `f.addTriangulationEdge(s) && s.addTriangulationEdge(f)`: when `f`
   * already has `s` the second call is never made.
   */
  function TriLinked<L(==,!new)>(g: Nodes<L>, f: L, s: L): (h: Nodes<L>)
    requires f in g && s in g
    ensures h.Keys == g.Keys
  {
    if s in g[f].triangulated then g else Link(Link(g, Triangle, f, s), Triangle, s, f)
  }

  /** Both triangulation insertions of `TriLinked` report a new element. */
  predicate TriLinkAdds<L(==)>(g: Nodes<L>, f: L, s: L)
    requires f in g && s in g
  {
    s !in g[f].triangulated && f !in g[s].triangulated && f != s
  }

  /**
   * The state after `addExclusion(f, s)` on present labels: the chain of `&&` stops at the
   * first insertion that finds its element already there.
   */
  function ExclusionLinked<L(==,!new)>(g: Nodes<L>, f: L, s: L): (h: Nodes<L>)
    requires f in g && s in g
    ensures h.Keys == g.Keys
  {
    if s in g[f].excluded then g
    else
      var g1 := Link(g, Exclusion, f, s);
      if f in g1[s].excluded then g1 else TriLinked(Link(g1, Exclusion, s, f), f, s)
  }

  /** The state after `addHierarchy(p, c)` on present labels. */
  function HierarchyLinked<L(==,!new)>(g: Nodes<L>, p: L, c: L): (h: Nodes<L>)
    requires p in g && c in g
    ensures h.Keys == g.Keys
  {
    if c in g[p].hierarchy then g else TriLinked(Link(g, Child, p, c), p, c)
  }

  /** The graph with the labels of `d` and every edge to them removed. */
  function Minus<L(==,!new)>(g: Nodes<L>, d: set<L>): (h: Nodes<L>)
    ensures h.Keys == g.Keys - d
    ensures forall l :: l in h ==> h[l] == g[l].Minus(d)
  {
    map l | l in g && l !in d :: g[l].Minus(d)
  }

  /** The subgraph induced by `s`: its labels, and the edges between them. */
  function Induced<L(==,!new)>(g: Nodes<L>, s: set<L>): (h: Nodes<L>)
    ensures h.Keys == g.Keys * s
    ensures forall l, k :: l in h ==> h[l].Edges(k) == g[l].Edges(k) * s
  {
    map l | l in g && l in s :: GraphNode(g[l].hierarchy * s, g[l].excluded * s, g[l].triangulated * s)
  }

  // Facts about the edge operations.

  /** In a closed graph every descendant of a node is a node. */
  lemma ReachedInside<L(!new)>(g: Nodes<L>, x: L, y: L)
    requires Closed(g) && Reaches(ChildMap(g), x, y)
    ensures y in g
  {
    var p :| IsPath(ChildMap(g), p) && p[0] == x && p[|p| - 1] == y;
    assert p[|p| - 1] in Succ(ChildMap(g), p[|p| - 2]);
  }

  lemma LinkClosed<L(!new)>(g: Nodes<L>, k: EdgeKind, a: L, b: L)
    requires Closed(g) && a in g && b in g
    ensures Closed(Link(g, k, a, b))
  {
  }

  /** A triangulation link keeps the graph closed, keeps the other relations and only adds edges. */
  lemma TriLinkedFacts<L(!new)>(g: Nodes<L>, f: L, s: L)
    requires f in g && s in g
    ensures var h := TriLinked(g, f, s);
      ChildMap(h) == ChildMap(g) && Grown(g, h) && s in h[f].triangulated &&
      (forall l :: l in h ==> h[l].excluded == g[l].excluded) &&
      (Closed(g) ==> Closed(h))
  {
    var h := TriLinked(g, f, s);
    if s !in g[f].triangulated {
      var g1 := Link(g, Triangle, f, s);
      assert ChildMap(h) == ChildMap(g);
    }
  }

  /** A link upholds symmetric triangulation whenever the `&&` chain leaves `f` and `s` adjacent both ways. */
  lemma TriLinkedSymmetric<L(!new)>(g: Nodes<L>, f: L, s: L)
    requires f in g && s in g
    requires forall a, b :: a in g && b in g[a].triangulated ==> b in g && a in g[b].triangulated
    ensures var h := TriLinked(g, f, s);
      forall a, b :: a in h && b in h[a].triangulated ==> b in h && a in h[b].triangulated
  {
  }

  /** `addExclusion` keeps the hierarchy and the closure of the graph, only adds edges, and makes `f` exclude `s`. */
  lemma ExclusionLinkedFacts<L(!new)>(g: Nodes<L>, f: L, s: L)
    requires f in g && s in g
    ensures var h := ExclusionLinked(g, f, s);
      ChildMap(h) == ChildMap(g) && Grown(g, h) && s in h[f].excluded &&
      (Closed(g) ==> Closed(h))
  {
    if s !in g[f].excluded {
      var g1 := Link(g, Exclusion, f, s);
      assert ChildMap(g1) == ChildMap(g);
      if f !in g1[s].excluded {
        var g2 := Link(g1, Exclusion, s, f);
        assert ChildMap(g2) == ChildMap(g);
        TriLinkedFacts(g2, f, s);
      }
    }
  }

  /** On a graph whose exclusions come in pairs, `addExclusion` adds exactly the pair. */
  lemma ExclusionLinkedSymmetric<L(!new)>(g: Nodes<L>, f: L, s: L)
    requires f in g && s in g && SymmetricExclusion(g)
    ensures var h := ExclusionLinked(g, f, s);
      SymmetricExclusion(h) &&
      forall l :: l in h ==> h[l].excluded == g[l].excluded + (if l == f then {s} else {}) + (if l == s then {f} else {})
  {
    var h := ExclusionLinked(g, f, s);
    if s !in g[f].excluded {
      var g1 := Link(g, Exclusion, f, s);
      if f !in g1[s].excluded {
        var g2 := Link(g1, Exclusion, s, f);
        TriLinkedFacts(g2, f, s);
      }
    }
  }

  /** `addHierarchy` keeps the exclusions and the closure of the graph, only adds edges, and makes `c` a child of `p`. */
  lemma HierarchyLinkedFacts<L(!new)>(g: Nodes<L>, p: L, c: L)
    requires p in g && c in g
    ensures var h := HierarchyLinked(g, p, c);
      ChildMap(h) == ChildMap(g)[p := g[p].hierarchy + {c}] && Grown(g, h) &&
      (forall l :: l in h ==> h[l].excluded == g[l].excluded) &&
      (Closed(g) ==> Closed(h))
  {
    var h := HierarchyLinked(g, p, c);
    if c !in g[p].hierarchy {
      var g1 := Link(g, Child, p, c);
      assert ChildMap(g1) == ChildMap(g)[p := g[p].hierarchy + {c}];
      TriLinkedFacts(g1, p, c);
    } else {
      assert g[p].hierarchy + {c} == g[p].hierarchy;
      assert ChildMap(g)[p := g[p].hierarchy + {c}] == ChildMap(g);
    }
  }

  // Facts about node removal.

  /** Removing labels the graph does not hold changes nothing. */
  lemma MinusAbsent<L(!new)>(g: Nodes<L>, d: set<L>)
    requires Closed(g) && forall x :: x in d ==> x !in g
    ensures Minus(g, d) == g
  {
    var h := Minus(g, d);
    assert h.Keys == g.Keys;
    forall l | l in g ensures h[l] == g[l] {
      var n := g[l];
      assert n.Targets() <= g.Keys;
      assert n.hierarchy - d == n.hierarchy;
      assert n.excluded - d == n.excluded;
      assert n.triangulated - d == n.triangulated;
    }
  }

  lemma MinusClosed<L(!new)>(g: Nodes<L>, d: set<L>)
    requires Closed(g)
    ensures Closed(Minus(g, d))
  {
  }

  /** Removing labels one set after another is removing their union. */
  lemma MinusMinus<L(!new)>(g: Nodes<L>, d: set<L>, e: set<L>)
    ensures Minus(Minus(g, d), e) == Minus(g, d + e)
  {
    var h := Minus(Minus(g, d), e);
    forall l | l in h ensures h[l] == Minus(g, d + e)[l] {
      assert g[l].Minus(d).Minus(e) == g[l].Minus(d + e);
    }
  }

  /** On a closed graph, removing all labels outside `s` leaves the subgraph induced by `s`. */
  lemma MinusComplement<L(!new)>(g: Nodes<L>, s: set<L>)
    requires Closed(g)
    ensures Minus(g, g.Keys - s) == Induced(g, s)
  {
    var d := g.Keys - s;
    var h := Minus(g, d);
    var i := Induced(g, s);
    forall l | l in h ensures h[l] == i[l] {
      assert g[l].hierarchy - d == g[l].hierarchy * s;
      assert g[l].excluded - d == g[l].excluded * s;
      assert g[l].triangulated - d == g[l].triangulated * s;
    }
  }

  /** Removing one label from one node's adjacency sets. */
  function Unlinked<L(==,!new)>(g: Nodes<L>, a: L, b: L): (h: Nodes<L>)
    requires a in g
    ensures h.Keys == g.Keys
  {
    g[a := g[a].Minus({b})]
  }

  /** Unlinking keeps closure, only removes edges and removes `a -> b` from the hierarchy relation. */
  lemma UnlinkedFacts<L(!new)>(g: Nodes<L>, a: L, b: L)
    requires a in g
    ensures var h := Unlinked(g, a, b);
      Shrunk(g, h) && (Closed(g) ==> Closed(h)) &&
      ChildMap(h) == ChildMap(g)[a := Succ(ChildMap(g), a) - {b}]
  {
  }

  /** Unlinking a label that is not a hierarchy target of `a` keeps the hierarchy. */
  lemma UnlinkedKeepsHierarchy<L(!new)>(g: Nodes<L>, a: L, b: L)
    requires a in g && b !in g[a].hierarchy
    ensures ChildMap(Unlinked(g, a, b)) == ChildMap(g)
  {
    assert g[a].hierarchy - {b} == g[a].hierarchy;
  }

  // Facts used by the in-place transforms.

  lemma ShrunkTrans<L(!new)>(g0: Nodes<L>, g1: Nodes<L>, g2: Nodes<L>)
    requires Shrunk(g0, g1) && Shrunk(g1, g2)
    ensures Shrunk(g0, g2)
  {
  }

  lemma GrownTrans<L(!new)>(g0: Nodes<L>, g1: Nodes<L>, g2: Nodes<L>)
    requires Grown(g0, g1) && Grown(g1, g2)
    ensures Grown(g0, g2)
  {
  }

  /** Removing edges cannot make a node exclude one of its children. */
  lemma ShrunkNoExcludedChild<L(!new)>(g0: Nodes<L>, g: Nodes<L>)
    requires Shrunk(g0, g) && NoExcludedChild(g0)
    ensures NoExcludedChild(g)
  {
    forall l, c | l in g && c in g[l].hierarchy ensures c !in g[l].excluded {
      assert c in g0[l].hierarchy;
    }
  }

  /**
   * Deleting the hierarchy edge `a -> n` of an acyclic graph keeps every descendant relation
   * when `a` reaches `n` also through `m`.
   */
  lemma PruneKeepsReach<L(!new)>(g0: Nodes<L>, g: Nodes<L>, a: L, m: L, n: L)
    requires a in g && Acyclic(ChildMap(g0)) && ReachAgrees(ChildMap(g), ChildMap(g0))
    requires Reaches(ChildMap(g0), a, m) && Reaches(ChildMap(g0), m, n)
    ensures ReachAgrees(ChildMap(Unlinked(g, a, n)), ChildMap(g0))
  {
    var r := ChildMap(g);
    assert Acyclic(r) by {
      forall x ensures !Reaches(r, x, x) {
        assert !Reaches(ChildMap(g0), x, x);
      }
    }
    assert Reaches(r, a, m) && Reaches(r, m, n);
    RemoveRedundantEdge(r, a, m, n);
    UnlinkedFacts(g, a, n);
  }

  /** Adding a hierarchy edge along an existing descendant relation keeps every descendant relation. */
  lemma ShortcutKeepsReach<L(!new)>(g0: Nodes<L>, g: Nodes<L>, p: L, d: L)
    requires p in g && d in g && ReachAgrees(ChildMap(g), ChildMap(g0))
    requires Reaches(ChildMap(g), p, d)
    ensures ReachAgrees(ChildMap(HierarchyLinked(g, p, d)), ChildMap(g0))
  {
    HierarchyLinkedFacts(g, p, d);
    AddReachedEdge(ChildMap(g), p, d);
  }
}
