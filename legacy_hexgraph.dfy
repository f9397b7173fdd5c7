/**
 * The earlier, default-package HEX graph: labels with hierarchy (parent to child) and exclusion
 * edges, no triangulation. Its nodes are identified by label, so the graph is a map from each
 * label to a node value whose two adjacency sets hold labels.
 */
module LegacyGraphs {
  import opened Wrappers
  import opened Hierarchy
  import opened Names
  import GraphNodes

  /** The answers of `getRelationship`; the plain `HIERARCHY` constant is never returned. */
  datatype Relationship = HierarchyAny | HierarchySub | HierarchySuper | Exclusion | Overlapping

  datatype GraphNode<V(==)> = GraphNode(hierarchy: set<V>, excluded: set<V>)

  type Nodes<V(==)> = map<V, GraphNode<V>>

  /** Every edge leads to a node of the graph: `deleteNode` deletes every edge to the node. */
  ghost predicate Closed<V(!new)>(g: Nodes<V>) {
    forall l, x :: l in g && (x in g[l].hierarchy || x in g[l].excluded) ==> x in g
  }

  /** The hierarchy edges as a relation. */
  function ChildMap<V(==,!new)>(g: Nodes<V>): (r: Rel<V>)
    ensures r.Keys == g.Keys
    ensures forall l :: l in g ==> Succ(r, l) == g[l].hierarchy
  {
    map l | l in g :: g[l].hierarchy
  }

  ghost predicate SymmetricExclusion<V(!new)>(g: Nodes<V>) {
    forall a, b :: a in g && b in g[a].excluded ==> b in g && a in g[b].excluded
  }

  /** No node excludes one of its direct children: what `checkInvariant` tests. */
  ghost predicate NoExcludedChild<V(!new)>(g: Nodes<V>) {
    forall l, c :: l in g && c in g[l].hierarchy ==> c !in g[l].excluded
  }

  /** The labels whose hierarchy closure holds `x`. */
  ghost function AncestorsOf<V(!new)>(g: Nodes<V>, x: V): set<V> {
    set y | y in g && Reaches(ChildMap(g), y, x)
  }

  /** `a` is `x` or one of its ancestors. */
  ghost predicate AtOrAbove<V(!new)>(g: Nodes<V>, a: V, x: V) {
    a == x || Reaches(ChildMap(g), a, x)
  }

  /**
   * The exclusion that `densify` can derive between `x` and `y` from the graph `g`: some label at
   * or above `x` and some label at or above `y` exclude each other.
   */
  ghost predicate Inherited<V(!new)>(g: Nodes<V>, x: V, y: V) {
    exists a, b :: a in g && b in g && AtOrAbove(g, a, x) && AtOrAbove(g, b, y) &&
      (b in g[a].excluded || a in g[b].excluded)
  }

  /**
   * `getRelationship`: the tests in the order of the source, an ancestor first, then a descendant,
   * then an exclusion; a label that is not in the graph is overlapping.
   */
  ghost function RelationshipOf<V(!new)>(g: Nodes<V>, x: V, y: V): Relationship
    requires x in g
  {
    if y in AncestorsOf(g, x) then HierarchySuper
    else if y in g && Reaches(ChildMap(g), x, y) then HierarchySub
    else if y in g && y in g[x].excluded then Exclusion
    else Overlapping
  }

  /** The relationship seen from the other side. */
  function Converse(r: Relationship): Relationship {
    match r
    case HierarchySuper => HierarchySub
    case HierarchySub => HierarchySuper
    case _ => r
  }

  /** In an acyclic graph with paired exclusions, swapping the arguments gives the converse answer. */
  lemma RelationshipConverse<V(!new)>(g: Nodes<V>, x: V, y: V)
    requires x in g && y in g && Acyclic(ChildMap(g)) && SymmetricExclusion(g)
    ensures RelationshipOf(g, y, x) == Converse(RelationshipOf(g, x, y))
  {
    var r := ChildMap(g);
    if Reaches(r, y, x) {
      assert y in AncestorsOf(g, x);
      if Reaches(r, x, y) {
        ReachesTrans(r, x, y, x);
      }
      assert x !in AncestorsOf(g, y);
    } else if Reaches(r, x, y) {
      assert x in AncestorsOf(g, y);
    } else {
      assert y !in AncestorsOf(g, x) && x !in AncestorsOf(g, y);
    }
  }

  /**
   * The state after `addExclusion(f, s)` on present labels: `s.addExclusionEdge(f)` runs only
   * when `f.addExclusionEdge(s)` inserted something.
   */
  function ExclusionLinked<V(==,!new)>(g: Nodes<V>, f: V, s: V): (h: Nodes<V>)
    requires f in g && s in g
    ensures h.Keys == g.Keys
  {
    if s in g[f].excluded then g
    else
      var g1 := g[f := g[f].(excluded := g[f].excluded + {s})];
      if f in g1[s].excluded then g1 else g1[s := g1[s].(excluded := g1[s].excluded + {f})]
  }

  /** The state after `addHierarchy(p, c)` on present labels. */
  function HierarchyLinked<V(==,!new)>(g: Nodes<V>, p: V, c: V): (h: Nodes<V>)
    requires p in g && c in g
    ensures h.Keys == g.Keys
  {
    g[p := g[p].(hierarchy := g[p].hierarchy + {c})]
  }

  /** `removeEdges`: `a` loses its hierarchy and exclusion edges to `b`. */
  function Unlinked<V(==,!new)>(g: Nodes<V>, a: V, b: V): (h: Nodes<V>)
    requires a in g
    ensures h.Keys == g.Keys
  {
    g[a := GraphNode(g[a].hierarchy - {b}, g[a].excluded - {b})]
  }

  /** The graph without the label `x` and without every edge to it. */
  function Minus<V(==,!new)>(g: Nodes<V>, x: V): (h: Nodes<V>)
    ensures h.Keys == g.Keys - {x}
  {
    map l | l in g && l != x :: GraphNode(g[l].hierarchy - {x}, g[l].excluded - {x})
  }

  /** Every node has at least the edges it has in `g0`. */
  ghost predicate Grown<V(!new)>(g0: Nodes<V>, g: Nodes<V>) {
    g.Keys == g0.Keys &&
    forall l :: l in g ==> g0[l].hierarchy <= g[l].hierarchy && g0[l].excluded <= g[l].excluded
  }

  lemma GrownTrans<V(!new)>(g0: Nodes<V>, g1: Nodes<V>, g2: Nodes<V>)
    requires Grown(g0, g1) && Grown(g1, g2)
    ensures Grown(g0, g2)
  {
  }

  /** Adding an exclusion keeps the hierarchy and the closure, and records `s` at `f` and, unless `f` had it already, `f` at `s`. */
  lemma ExclusionLinkedFacts<V(!new)>(g: Nodes<V>, f: V, s: V)
    requires f in g && s in g
    ensures var h := ExclusionLinked(g, f, s);
      ChildMap(h) == ChildMap(g) && Grown(g, h) && s in h[f].excluded &&
      (s !in g[f].excluded ==> f in h[s].excluded) &&
      h[f].excluded <= g[f].excluded + {s} && h[s].excluded <= g[s].excluded + {f} &&
      (forall l :: l in h && l != f && l != s ==> h[l] == g[l]) &&
      (Closed(g) ==> Closed(h))
  {
    var h := ExclusionLinked(g, f, s);
    assert ChildMap(h) == ChildMap(g);
  }

  /** On a graph whose exclusions come in pairs, `addExclusion` adds exactly the pair. */
  lemma ExclusionLinkedSymmetric<V(!new)>(g: Nodes<V>, f: V, s: V)
    requires f in g && s in g && SymmetricExclusion(g)
    ensures var h := ExclusionLinked(g, f, s);
      SymmetricExclusion(h) &&
      forall l :: l in h ==> h[l].excluded == g[l].excluded + (if l == f then {s} else {}) + (if l == s then {f} else {})
  {
  }

  lemma HierarchyLinkedFacts<V(!new)>(g: Nodes<V>, p: V, c: V)
    requires p in g && c in g
    ensures var h := HierarchyLinked(g, p, c);
      Grown(g, h) && c in h[p].hierarchy &&
      (forall l :: l in h ==> h[l].excluded == g[l].excluded) &&
      (forall l :: l in h && l != p ==> h[l].hierarchy == g[l].hierarchy) &&
      h[p].hierarchy == g[p].hierarchy + {c} &&
      (Closed(g) ==> Closed(h))
  {
  }

  /** Deleting a node leaves a closed graph in which no node mentions it. */
  lemma MinusFacts<V(!new)>(g: Nodes<V>, x: V)
    requires Closed(g)
    ensures var h := Minus(g, x);
      Closed(h) &&
      (forall l :: l in h ==> x !in h[l].hierarchy && x !in h[l].excluded) &&
      (x !in g ==> h == g)
  {
    var h := Minus(g, x);
    if x !in g {
      forall l | l in g ensures h[l] == g[l] {
        assert x !in g[l].hierarchy && x !in g[l].excluded;
      }
    }
  }

  /** `edgeRemovalHelper`: walks the set and drops every element equal to `head`. */
  method RemoveMatching<V(==)>(selected: set<V>, head: V) returns (kept: set<V>)
    ensures kept == selected - {head}
  {
    kept := selected;
    var todo := selected;
    while todo != {}
      invariant todo <= selected
      invariant forall x :: x in kept <==> x in selected && (x in todo || x != head)
      decreases |todo|
    {
      var curr;
      curr, todo := Take(todo);
      if curr == head {
        kept := kept - {curr};
      }
    }
  }

  /** The graph-level copies of a node set into a list, in the set's iteration order. */
  method ListOf<V(==)>(s: set<V>) returns (list: seq<V>)
    ensures Distinct(list) && |list| == |s|
    ensures forall x :: x in list <==> x in s
  {
    list := [];
    var todo := s;
    while todo != {}
      invariant todo <= s
      invariant forall x :: x in list <==> x in s - todo
      invariant Distinct(list) && |list| + |todo| == |s|
      decreases |todo|
    {
      var x;
      x, todo := Take(todo);
      list := list + [x];
    }
  }

  /** `GraphNode.checkInvariant`: fails when a direct child is also excluded. */
  method CheckNode<V(==)>(n: GraphNode<V>) returns (out: Outcome)
    ensures out == Pass <==> forall c :: c in n.hierarchy ==> c !in n.excluded
    ensures out.Fail? ==> out.error == IllegalState
  {
    var todo := n.hierarchy;
    while todo != {}
      invariant todo <= n.hierarchy
      invariant forall c :: c in n.hierarchy - todo ==> c !in n.excluded
      decreases |todo|
    {
      var node;
      node, todo := Take(todo);
      if node in n.excluded {
        return Fail(IllegalState);
      }
    }
    return Pass;
  }

  // What `densify` keeps between the graph `g0` it starts from and the graph `g` it reaches.

  /** `name` excludes in `h` everything that the labels of `above` exclude in `g`. */
  ghost predicate Absorbed<V(!new)>(g: Nodes<V>, h: Nodes<V>, name: V, above: set<V>) {
    forall a :: a in above ==> a in g && name in h && g[a].excluded <= h[name].excluded
  }

  lemma AbsorbedStep<V(!new)>(g: Nodes<V>, before: Nodes<V>, h: Nodes<V>, name: V, above: set<V>, a: V)
    requires Absorbed(g, before, name, above) && Grown(g, before) && a in g
    requires name in h && name in before && a in before && before[name].excluded <= h[name].excluded && before[a].excluded <= h[name].excluded
    ensures Absorbed(g, h, name, above + {a})
  {
  }

  lemma AbsorbedKept<V(!new)>(g: Nodes<V>, h: Nodes<V>, h': Nodes<V>, name: V, above: set<V>)
    requires Absorbed(g, h, name, above) && name in h && name in h' && h[name].excluded <= h'[name].excluded
    ensures Absorbed(g, h', name, above)
  {
  }

  /** Every hierarchy edge of `g` stands for a descendant relation of `g0`. */
  ghost predicate EdgesImplied<V(!new)>(g0: Nodes<V>, g: Nodes<V>) {
    forall l, y :: l in g && y in g[l].hierarchy ==> Reaches(ChildMap(g0), l, y)
  }

  /** Every label of `done` has each `g0`-descendant as a direct child in `g`. */
  ghost predicate ChildrenClosed<V(!new)>(g0: Nodes<V>, g: Nodes<V>, done: set<V>)
    requires done <= g.Keys
  {
    forall l, y :: l in done && Reaches(ChildMap(g0), l, y) ==> y in g[l].hierarchy
  }

  /** Every label of `done` excludes in `g` what each of its `g0`-ancestors excludes in `g0`. */
  ghost predicate ExclusionsInherited<V(!new)>(g0: Nodes<V>, g: Nodes<V>, done: set<V>)
    requires done <= g.Keys
  {
    forall l, a :: l in done && a in AncestorsOf(g0, l) ==> g0[a].excluded <= g[l].excluded
  }

  /** Every exclusion of `g` is one that `g0` implies. */
  ghost predicate ExclusionsBounded<V(!new)>(g0: Nodes<V>, g: Nodes<V>) {
    forall x, y :: x in g && y in g[x].excluded ==> Inherited(g0, x, y)
  }

  /** Any two distinct labels of `done` exclude each other in `g` when `g0` implies it. */
  ghost predicate PairsExcluded<V(!new)>(g0: Nodes<V>, g: Nodes<V>, done: set<V>)
    requires done <= g.Keys
  {
    forall x, y :: x in done && y in done && x != y && Inherited(g0, x, y) ==> y in g[x].excluded
  }

  ghost predicate Densifying<V(!new)>(g0: Nodes<V>, g: Nodes<V>, done: set<V>) {
    done <= g.Keys && Closed(g) && Grown(g0, g) && EdgesImplied(g0, g) &&
    ChildrenClosed(g0, g, done) && ExclusionsInherited(g0, g, done) && ExclusionsBounded(g0, g) &&
    (SymmetricExclusion(g0) ==> SymmetricExclusion(g))
  }

  /** With paired original exclusions, the labels of `done` exclude each other as `g0` implies. */
  ghost predicate Paired<V(!new)>(g0: Nodes<V>, g: Nodes<V>, done: set<V>)
    requires done <= g.Keys
  {
    SymmetricExclusion(g0) ==> PairsExcluded(g0, g, done)
  }

  /**
   * What `densify` achieves: the same labels and descendant relation, every descendant a direct
   * child, every node excluding what its ancestors exclude, no exclusion that the original graph
   * does not imply and, when the original exclusions come in pairs, every implied exclusion between
   * two distinct labels, in both directions.
   */
  ghost predicate Densified<V(!new)>(g0: Nodes<V>, g: Nodes<V>) {
    Closed(g) && Grown(g0, g) && GraphNodes.ReachAgrees(ChildMap(g), ChildMap(g0)) &&
    (forall l :: l in g ==> g[l].hierarchy == Descendants(ChildMap(g0), l)) &&
    ExclusionsInherited(g0, g, g.Keys) && ExclusionsBounded(g0, g) &&
    (SymmetricExclusion(g0) ==> SymmetricExclusion(g) && PairsExcluded(g0, g, g.Keys))
  }

  lemma InheritedSymmetric<V(!new)>(g: Nodes<V>, x: V, y: V)
    requires Inherited(g, x, y)
    ensures Inherited(g, y, x)
  {
    var a, b :| a in g && b in g && AtOrAbove(g, a, x) && AtOrAbove(g, b, y) &&
      (b in g[a].excluded || a in g[b].excluded);
    assert b in g && a in g && AtOrAbove(g, b, y) && AtOrAbove(g, a, x) &&
      (a in g[b].excluded || b in g[a].excluded);
  }

  /** What a label implies, each of its descendants implies as well. */
  lemma InheritedDown<V(!new)>(g: Nodes<V>, a: V, x: V, y: V)
    requires Reaches(ChildMap(g), a, x) && Inherited(g, a, y)
    ensures Inherited(g, x, y)
  {
    var a', b :| a' in g && b in g && AtOrAbove(g, a', a) && AtOrAbove(g, b, y) &&
      (b in g[a'].excluded || a' in g[b].excluded);
    if a' != a {
      ReachesTrans(ChildMap(g), a', a, x);
    }
    assert AtOrAbove(g, a', x);
  }

  lemma DensifyingStart<V(!new)>(g0: Nodes<V>)
    requires Closed(g0)
    ensures Densifying(g0, g0, {}) && Paired(g0, g0, {})
  {
    forall l, y | l in g0 && y in g0[l].hierarchy ensures Reaches(ChildMap(g0), l, y) {
      Edge(ChildMap(g0), l, y);
    }
    forall x, y | x in g0 && y in g0[x].excluded ensures Inherited(g0, x, y) {
      assert AtOrAbove(g0, x, x) && AtOrAbove(g0, y, y);
    }
  }

  /** A graph grown from `g0` by edges that `g0` already implies has the descendant relation of `g0`. */
  lemma DensifyingReach<V(!new)>(g0: Nodes<V>, g: Nodes<V>, done: set<V>)
    requires Densifying(g0, g, done)
    ensures GraphNodes.ReachAgrees(ChildMap(g), ChildMap(g0))
  {
    var r, s := ChildMap(g), ChildMap(g0);
    forall u, v | v in Succ(r, u) ensures Reaches(s, u, v) {
    }
    forall u, v | v in Succ(s, u) ensures Reaches(r, u, v) {
      Edge(r, u, v);
    }
    SameReach(r, s);
  }

  lemma AncestorsAgree<V(!new)>(g0: Nodes<V>, g: Nodes<V>, x: V)
    requires g.Keys == g0.Keys && GraphNodes.ReachAgrees(ChildMap(g), ChildMap(g0))
    ensures AncestorsOf(g, x) == AncestorsOf(g0, x)
  {
  }

  lemma ExclusionStep<V(!new)>(g0: Nodes<V>, g: Nodes<V>, f: V, s: V, done: set<V>)
    requires f in g && s in g && Densifying(g0, g, done) && Inherited(g0, f, s)
    ensures var h := ExclusionLinked(g, f, s);
      Densifying(g0, h, done) && s in h[f].excluded
  {
    var h := ExclusionLinked(g, f, s);
    ExclusionLinkedFacts(g, f, s);
    BoundedStep(g0, g, f, s);
    if SymmetricExclusion(g0) {
      ExclusionLinkedSymmetric(g, f, s);
    }
    assert EdgesImplied(g0, h) by {
      forall l | l in h ensures h[l].hierarchy == g[l].hierarchy {
        assert Succ(ChildMap(h), l) == Succ(ChildMap(g), l);
      }
    }
    DensifyingGrows(g0, g, h, done);
  }

  /** A new exclusion that `g0` implies, at both ends, keeps every exclusion implied. */
  lemma BoundedStep<V(!new)>(g0: Nodes<V>, g: Nodes<V>, f: V, s: V)
    requires f in g && s in g && ExclusionsBounded(g0, g) && Inherited(g0, f, s)
    ensures ExclusionsBounded(g0, ExclusionLinked(g, f, s))
  {
    var h := ExclusionLinked(g, f, s);
    ExclusionLinkedFacts(g, f, s);
    InheritedSymmetric(g0, f, s);
    forall x, y | x in h && y in h[x].excluded ensures Inherited(g0, x, y) {
      if x != f && x != s {
        assert y in g[x].excluded;
      }
    }
  }

  /** A graph that only gained edges keeps what `densify` has done, once its new edges are implied. */
  lemma DensifyingGrows<V(!new)>(g0: Nodes<V>, g: Nodes<V>, h: Nodes<V>, done: set<V>)
    requires Densifying(g0, g, done) && Grown(g, h) && Closed(h) && EdgesImplied(g0, h) && ExclusionsBounded(g0, h)
    requires SymmetricExclusion(g0) ==> SymmetricExclusion(h)
    ensures Densifying(g0, h, done)
  {
  }

  /** `name` already has every label of `seen` as a direct child. */
  ghost predicate Adopted<V(!new)>(g: Nodes<V>, name: V, seen: set<V>) {
    name in g && seen <= g[name].hierarchy
  }

  /** `s` is the set of labels below `name` in the original hierarchy. */
  ghost predicate ReachedFrom<V(!new)>(g0: Nodes<V>, name: V, s: set<V>) {
    forall y :: y in s <==> Reaches(ChildMap(g0), name, y)
  }

  lemma DescendantsFrom<V(!new)>(g0: Nodes<V>, g: Nodes<V>, done: set<V>, name: V)
    requires Densifying(g0, g, done) && name in g
    ensures var s := Descendants(ChildMap(g), name); s <= g.Keys && ReachedFrom(g0, name, s)
  {
    DensifyingReach(g0, g, done);
    forall y | y in Descendants(ChildMap(g), name) ensures y in g {
      ReachedInside(g, name, y);
    }
  }

  lemma AdoptedCloses<V(!new)>(g0: Nodes<V>, h: Nodes<V>, name: V, s: set<V>)
    requires ReachedFrom(g0, name, s) && Adopted(h, name, s)
    ensures ChildrenClosed(g0, h, {name})
  {
  }

  lemma AdoptedStep<V(!new)>(before: Nodes<V>, h: Nodes<V>, name: V, seen: set<V>, d: V)
    requires Adopted(before, name, seen) && Grown(before, h) && name in h && d in h[name].hierarchy
    ensures Adopted(h, name, seen + {d})
  {
  }

  lemma HierarchyStep<V(!new)>(g0: Nodes<V>, g: Nodes<V>, p: V, d: V, done: set<V>)
    requires p in g && d in g && Densifying(g0, g, done) && Reaches(ChildMap(g0), p, d)
    ensures var h := HierarchyLinked(g, p, d);
      Densifying(g0, h, done) && Grown(g, h) && d in h[p].hierarchy
  {
    HierarchyLinkedFacts(g, p, d);
  }

  /**
   * The pair property for `name` once it is done: `h` is the graph after the two inner loops,
   * which started at `g`, and `name` took over everything its ancestors excluded in `g`.
   */
  lemma PairsStep<V(!new)>(g0: Nodes<V>, g: Nodes<V>, h: Nodes<V>, name: V, done: set<V>)
    requires name in g && Densifying(g0, g, done) && Densifying(g0, h, done) && Grown(g, h)
    requires Absorbed(g, h, name, AncestorsOf(g0, name))
    requires SymmetricExclusion(g0) && PairsExcluded(g0, g, done)
    ensures PairsExcluded(g0, h, done + {name})
  {
    forall y | y in done && y != name && Inherited(g0, name, y) ensures y in h[name].excluded {
      var a, b :| a in g0 && b in g0 && AtOrAbove(g0, a, name) && AtOrAbove(g0, b, y) &&
        (b in g0[a].excluded || a in g0[b].excluded);
      assert b in g0[a].excluded && a in g0[b].excluded;
      if a == name {
        if b != y {
          assert b in AncestorsOf(g0, y);
          assert name in g[y].excluded;
        }
      } else {
        assert a in AncestorsOf(g0, name);
        if b != y {
          assert b in AncestorsOf(g0, y);
          assert a in g[y].excluded;
        }
        assert y in g[a].excluded;
      }
    }
    forall x, y | x in done + {name} && y in done + {name} && x != y && Inherited(g0, x, y)
      ensures y in h[x].excluded
    {
      if x == name {
      } else if y == name {
        InheritedSymmetric(g0, x, y);
        assert x in h[name].excluded;
      } else {
        assert y in g[x].excluded;
      }
    }
  }

  lemma DensifyingDone<V(!new)>(g0: Nodes<V>, g: Nodes<V>, h: Nodes<V>, name: V, done: set<V>)
    requires name in g && Densifying(g0, g, done) && Densifying(g0, h, done) && Grown(g, h)
    requires Absorbed(g, h, name, AncestorsOf(g0, name)) && Paired(g0, g, done)
    requires ChildrenClosed(g0, h, {name})
    ensures Densifying(g0, h, done + {name}) && Paired(g0, h, done + {name})
  {
    assert ExclusionsInherited(g0, h, {name}) by {
      forall a | a in AncestorsOf(g0, name) ensures g0[a].excluded <= h[name].excluded {
        assert g0[a].excluded <= g[a].excluded;
      }
    }
    if SymmetricExclusion(g0) {
      PairsStep(g0, g, h, name, done);
    }
  }

  /** Set algebra for the outer densify loop, kept out of its heavy context. */
  lemma DoneNext<V>(keys: set<V>, names: set<V>, name: V)
    requires name in names && names <= keys
    ensures (keys - names) + {name} == keys - (names - {name})
  {
  }

  lemma DoneLast<V>(keys: set<V>)
    ensures keys - {} == keys
  {
  }

  lemma DensifyResult<V(!new)>(g0: Nodes<V>, g: Nodes<V>)
    requires Densifying(g0, g, g0.Keys) && Paired(g0, g, g0.Keys)
    ensures Densified(g0, g)
  {
    DensifyingReach(g0, g, g0.Keys);
    forall l | l in g ensures g[l].hierarchy == Descendants(ChildMap(g0), l) {
      forall y | y in g[l].hierarchy ensures Reaches(ChildMap(g0), l, y) {
      }
    }
  }

  /** The exclusions of a densified graph are exactly the implied ones, away from the diagonal. */
  lemma DensifiedExclusions<V(!new)>(g0: Nodes<V>, g: Nodes<V>, x: V, y: V)
    requires Densified(g0, g) && SymmetricExclusion(g0) && x in g && y in g && x != y
    ensures y in g[x].excluded <==> Inherited(g0, x, y)
    ensures y in g[x].excluded <==> x in g[y].excluded
  {
  }

  class HEXGraph<V(==,!new)> {
    var nodes: Nodes<V>

    ghost predicate Valid()
      reads this
    {
      Closed(nodes)
    }

    constructor ()
      ensures nodes == map[] && Valid()
    {
      nodes := map[];
    }

    function Size(): (r: nat)
      reads this
      ensures forall s: set<V> :: (forall l :: l in s <==> HasNode(l)) ==> r == |s|
    {
      KeysCard(nodes);
      |nodes|
    }

    function IsEmpty(): (r: bool)
      reads this
      ensures r <==> nodes == map[]
    {
      Size() == 0
    }

    predicate HasNode(name: V)
      reads this
    {
      name in nodes
    }

    /** Adds an edgeless node when the label is new; an existing node is left alone. */
    method AddNode(name: V) returns (added: bool)
      requires Valid()
      modifies this
      ensures Valid()
      ensures added <==> name !in old(nodes)
      ensures nodes == if added then old(nodes)[name := GraphNode({}, {})] else old(nodes)
    {
      if !HasNode(name) {
        nodes := nodes[name := GraphNode({}, {})];
        return true;
      }
      return false;
    }

    method AddHierarchy(tail: V, head: V) returns (r: bool)
      requires Valid()
      modifies this
      ensures Valid()
      ensures !(tail in old(nodes) && head in old(nodes)) ==> !r && nodes == old(nodes)
      ensures tail in old(nodes) && head in old(nodes) ==>
        nodes == HierarchyLinked(old(nodes), tail, head) && (r <==> head !in old(nodes)[tail].hierarchy)
    {
      if !(tail in nodes && head in nodes) {
        return false;
      }
      r := head !in nodes[tail].hierarchy;
      nodes := HierarchyLinked(nodes, tail, head);
    }

    method AddExclusion(first: V, second: V) returns (r: bool)
      requires Valid()
      modifies this
      ensures Valid()
      ensures !(first in old(nodes) && second in old(nodes)) ==> !r && nodes == old(nodes)
      ensures first in old(nodes) && second in old(nodes) ==>
        nodes == ExclusionLinked(old(nodes), first, second) &&
        (r <==> second !in old(nodes)[first].excluded && first !in old(nodes)[second].excluded && first != second)
    {
      if !(first in nodes && second in nodes) {
        return false;
      }
      ExclusionLinkedFacts(nodes, first, second);
      r := second !in nodes[first].excluded;
      var g1 := nodes[first := nodes[first].(excluded := nodes[first].excluded + {second})];
      if r {
        r := first !in g1[second].excluded;
      }
      nodes := ExclusionLinked(nodes, first, second);
    }

    /** `GraphNode.removeEdges`: strips both kinds of edge from `a` to `head`; it always reports success. */
    method RemoveEdges(a: V, head: V) returns (r: bool)
      requires a in nodes
      modifies this
      ensures nodes == Unlinked(old(nodes), a, head) && r
    {
      var n := nodes[a];
      var h := RemoveMatching(n.hierarchy, head);
      var e := RemoveMatching(n.excluded, head);
      nodes := nodes[a := GraphNode(h, e)];
      r := head !in e && head !in e;
    }

    /** Every node loses its edges to the label, then the label is removed. */
    method DeleteNode(name: V)
      requires Valid()
      modifies this
      ensures Valid()
      ensures nodes == Minus(old(nodes), name)
      ensures forall l :: l in nodes ==> name !in nodes[l].hierarchy && name !in nodes[l].excluded
      ensures name !in old(nodes) ==> nodes == old(nodes)
    {
      ghost var g := nodes;
      var todo := nodes.Keys;
      while todo != {}
        invariant todo <= nodes.Keys && nodes.Keys == g.Keys
        invariant forall v :: v in nodes ==>
          nodes[v] == if v in todo then g[v] else GraphNode(g[v].hierarchy - {name}, g[v].excluded - {name})
        decreases |todo|
      {
        var v;
        v, todo := Take(todo);
        var _ := RemoveEdges(v, name);
      }
      nodes := nodes - {name};
      assert nodes == Minus(g, name);
      MinusFacts(g, name);
    }

    /** `deleteHierarchyEdge` and `deleteExclusion`: a missing first label fails on the null node. */
    method Unlink(a: V, b: V) returns (r: Result<bool>)
      requires Valid()
      modifies this
      ensures Valid()
      ensures a !in old(nodes) ==> r == Err(NullPointer) && nodes == old(nodes)
      ensures a in old(nodes) ==> r == Ok(true) && nodes == Unlinked(old(nodes), a, b)
    {
      if a !in nodes {
        return Err(NullPointer);
      }
      var removed := RemoveEdges(a, b);
      return Ok(removed);
    }

    method DeleteHierarchyEdge(tail: V, head: V) returns (r: Result<bool>)
      requires Valid()
      modifies this
      ensures Valid()
      ensures tail !in old(nodes) ==> r == Err(NullPointer) && nodes == old(nodes)
      ensures tail in old(nodes) ==> r == Ok(true) && nodes == Unlinked(old(nodes), tail, head)
    {
      r := Unlink(tail, head);
    }

    method DeleteExclusion(first: V, second: V) returns (r: Result<bool>)
      requires Valid()
      modifies this
      ensures Valid()
      ensures first !in old(nodes) ==> r == Err(NullPointer) && nodes == old(nodes)
      ensures first in old(nodes) ==> r == Ok(true) && nodes == Unlinked(old(nodes), first, second)
    {
      r := Unlink(first, second);
    }

    /** Despite its name, tests the whole descendant closure, not a direct edge. */
    function HasHierarchyEdge(tail: V, head: V): (r: Result<bool>)
      reads this
      ensures r.Ok? <==> tail in nodes
      ensures r.Ok? ==> (r.value <==> head in nodes && Reaches(ChildMap(nodes), tail, head))
    {
      if tail !in nodes then Err(NullPointer)
      else Ok(head in nodes && head in Descendants(ChildMap(nodes), tail))
    }

    function HasExclusion(first: V, second: V): (r: Result<bool>)
      reads this
      ensures r.Ok? <==> first in nodes
      ensures r.Ok? ==> (r.value <==> second in nodes[first].excluded)
    {
      if first !in nodes then Err(NullPointer)
      else Ok(second in nodes[first].excluded)
    }

    function GetExcluded(name: V): (r: Result<set<V>>)
      reads this
      ensures r.Ok? <==> name in nodes
      ensures r.Ok? ==> forall y :: y in r.value <==> HasExclusion(name, y) == Ok(true)
    {
      if name in nodes then Ok(nodes[name].excluded) else Err(NullPointer)
    }

    function GetDegree(name: V): (r: Result<nat>)
      reads this
      ensures r.Ok? <==> name in nodes
      ensures r.Ok? ==> r.value == |nodes[name].hierarchy| + |nodes[name].excluded|
    {
      if name in nodes then Ok(|nodes[name].hierarchy| + |nodes[name].excluded|) else Err(NullPointer)
    }

    /** The labels in iteration order of the key set. */
    method GetNodes() returns (list: seq<V>)
      ensures forall x :: x in list <==> x in nodes
      ensures Distinct(list) && |list| == |nodes|
    {
      list := ListOf(nodes.Keys);
    }

    /** `GraphNode.getHierarchySuperset`: scans every label and keeps those whose closure holds `name`. */
    method SupersetOf(name: V) returns (found: set<V>)
      ensures found == AncestorsOf(nodes, name)
    {
      found := {};
      var todo := nodes.Keys;
      while todo != {}
        invariant todo <= nodes.Keys
        invariant forall y :: y in found <==> y in nodes.Keys - todo && Reaches(ChildMap(nodes), y, name)
        decreases |todo|
      {
        var v;
        v, todo := Take(todo);
        if name in Descendants(ChildMap(nodes), v) {
          found := found + {v};
        }
      }
    }

    method GetHierarchySuperset(name: V) returns (r: Result<seq<V>>)
      ensures r.Ok? <==> name in nodes
      ensures r.Ok? ==> Distinct(r.value) && forall y :: y in r.value <==> y in AncestorsOf(nodes, name)
    {
      if name !in nodes {
        return Err(NullPointer);
      }
      var found := SupersetOf(name);
      var list := ListOf(found);
      return Ok(list);
    }

    method GetHierarchySubset(name: V) returns (r: Result<seq<V>>)
      ensures r.Ok? <==> name in nodes
      ensures r.Ok? ==> Distinct(r.value) && forall y :: y in r.value <==> Reaches(ChildMap(nodes), name, y)
    {
      if name !in nodes {
        return Err(NullPointer);
      }
      var list := ListOf(Descendants(ChildMap(nodes), name));
      return Ok(list);
    }

    method GetRelationship(desired: V, other: V) returns (r: Result<Relationship>)
      ensures desired !in nodes ==> r == Err(NullPointer)
      ensures desired in nodes ==> r == Ok(RelationshipOf(nodes, desired, other))
    {
      if desired !in nodes {
        return Err(NullPointer);
      }
      var superset := SupersetOf(desired);
      if other in superset {
        return Ok(HierarchySuper);
      } else if other in nodes && other in Descendants(ChildMap(nodes), desired) {
        return Ok(HierarchySub);
      } else if other in nodes && other in nodes[desired].excluded {
        return Ok(Exclusion);
      }
      return Ok(Overlapping);
    }

    /** `checkInvariant`: fails when some node excludes one of its direct children. */
    method CheckInvariant() returns (out: Outcome)
      ensures out == Pass <==> NoExcludedChild(nodes)
      ensures out.Fail? ==> out.error == IllegalState
    {
      var todo := nodes.Keys;
      while todo != {}
        invariant todo <= nodes.Keys
        invariant forall l, c :: l in nodes.Keys - todo && c in nodes[l].hierarchy ==> c !in nodes[l].excluded
        decreases |todo|
      {
        var name;
        name, todo := Take(todo);
        out := CheckNode(nodes[name]);
        if out.Fail? {
          return;
        }
      }
      return Pass;
    }

    /** The body of `sparsify` is empty. */
    method Sparsify()
      ensures nodes == old(nodes)
    {
    }

    /** One `addExclusion` of `densify`, seen through what `densify` keeps. */
    method DensifyExclusion(first: V, second: V, ghost g0: Nodes<V>, ghost done: set<V>)
      requires first in nodes && second in nodes && Densifying(g0, nodes, done) && Inherited(g0, first, second)
      modifies this
      ensures Densifying(g0, nodes, done) && first in nodes && Grown(old(nodes), nodes)
      ensures old(nodes)[first].excluded + {second} <= nodes[first].excluded
    {
      ExclusionStep(g0, nodes, first, second, done);
      ExclusionLinkedFacts(nodes, first, second);
      var _ := AddExclusion(first, second);
    }

    /** The innermost loop of `densify`: `name` excludes everything `ancestor` excludes now. */
    method DensifyAncestor(name: V, ancestor: V, ghost g0: Nodes<V>, ghost done: set<V>)
      requires name in nodes && ancestor in nodes && Densifying(g0, nodes, done)
      requires Reaches(ChildMap(g0), ancestor, name)
      modifies this
      ensures Densifying(g0, nodes, done) && name in nodes && Grown(old(nodes), nodes)
      ensures old(nodes)[ancestor].excluded + old(nodes)[name].excluded <= nodes[name].excluded
    {
      ghost var g := nodes;
      var exclusions := GetExcluded(ancestor).value;
      var pending := exclusions;
      while pending != {}
        invariant pending <= exclusions == g[ancestor].excluded && exclusions <= nodes.Keys && name in nodes
        invariant Densifying(g0, nodes, done) && Grown(g, nodes)
        invariant g[name].excluded + (exclusions - pending) <= nodes[name].excluded
        decreases |pending|
      {
        var ex, rest := Take(pending);
        InheritedDown(g0, ancestor, name, ex);
        ghost var before := nodes;
        DensifyExclusion(name, ex, g0, done);
        GrownTrans(g, before, nodes);
        DoneNext(exclusions, pending, ex);
        pending := rest;
      }
    }

    /** The first inner loop of `densify`: `name` excludes everything each of its ancestors excludes. */
    method DensifyExclusions(name: V, ghost g0: Nodes<V>, ghost done: set<V>)
      requires name in nodes && Densifying(g0, nodes, done)
      modifies this
      ensures Densifying(g0, nodes, done) && name in nodes && Grown(old(nodes), nodes)
      ensures Absorbed(old(nodes), nodes, name, AncestorsOf(g0, name))
    {
      ghost var g := nodes;
      DensifyingReach(g0, nodes, done);
      AncestorsAgree(g0, nodes, name);
      var supers := SupersetOf(name);
      var todo := supers;
      while todo != {}
        invariant todo <= supers == AncestorsOf(g0, name) <= g.Keys == nodes.Keys && name in nodes
        invariant Densifying(g0, nodes, done) && Grown(g, nodes)
        invariant Absorbed(g, nodes, name, supers - todo)
        decreases |todo|
      {
        var ancestor, rest := Take(todo);
        ghost var before := nodes;
        DensifyAncestor(name, ancestor, g0, done);
        AbsorbedStep(g, before, nodes, name, supers - todo, ancestor);
        DoneNext(supers, todo, ancestor);
        GrownTrans(g, before, nodes);
        todo := rest;
      }
    }

    /** One step of the second inner loop: `descendant` becomes a direct child of `name`. */
    method DensifyChild(name: V, descendant: V, ghost g0: Nodes<V>, ghost done: set<V>)
      requires name in nodes && descendant in nodes && Densifying(g0, nodes, done)
      requires Reaches(ChildMap(g0), name, descendant)
      modifies this
      ensures Densifying(g0, nodes, done) && Grown(old(nodes), nodes)
      ensures name in nodes && descendant in nodes[name].hierarchy
    {
      HierarchyStep(g0, nodes, name, descendant, done);
      var _ := AddHierarchy(name, descendant);
    }

    /** The second inner loop of `densify`: every descendant of `name` becomes a direct child. */
    method DensifyHierarchy(name: V, ghost g0: Nodes<V>, ghost done: set<V>)
      requires name in nodes && Densifying(g0, nodes, done)
      modifies this
      ensures Densifying(g0, nodes, done) && name in nodes && ChildrenClosed(g0, nodes, {name})
      ensures Grown(old(nodes), nodes)
    {
      ghost var g := nodes;
      DescendantsFrom(g0, nodes, done, name);
      var descendants := Descendants(ChildMap(nodes), name);
      var todo := descendants;
      while todo != {}
        invariant todo <= descendants <= g.Keys == nodes.Keys && name in nodes
        invariant ReachedFrom(g0, name, descendants)
        invariant Densifying(g0, nodes, done) && Grown(g, nodes)
        invariant Adopted(nodes, name, descendants - todo)
        decreases |todo|
      {
        var descendant, rest := Take(todo);
        ghost var before := nodes;
        DensifyChild(name, descendant, g0, done);
        GrownTrans(g, before, nodes);
        AdoptedStep(before, nodes, name, descendants - todo, descendant);
        DoneNext(descendants, todo, descendant);
        todo := rest;
      }
      AdoptedCloses(g0, nodes, name, descendants);
    }

    /** The body of `densify` for one label. */
    method DensifyNode(name: V, ghost g0: Nodes<V>, ghost done: set<V>)
      requires name in nodes && Densifying(g0, nodes, done) && Paired(g0, nodes, done)
      modifies this
      ensures Densifying(g0, nodes, done + {name}) && Paired(g0, nodes, done + {name})
    {
      ghost var g := nodes;
      DensifyExclusions(name, g0, done);
      ghost var g1 := nodes;
      DensifyHierarchy(name, g0, done);
      AbsorbedKept(g, g1, nodes, name, AncestorsOf(g0, name));
      GrownTrans(g, g1, nodes);
      DensifyingDone(g0, g, nodes, name, done);
    }

    /**
     * Gives every label the exclusions of its ancestors (recorded at both ends) and every
     * descendant as a direct child, then checks the invariant.
     */
    method Densify() returns (out: Outcome)
      requires Valid()
      modifies this
      ensures Valid() && Densified(old(nodes), nodes)
      ensures out == Pass <==> NoExcludedChild(nodes)
      ensures out.Fail? ==> out.error == IllegalState
    {
      ghost var g0 := nodes;
      ghost var done: set<V> := {};
      DensifyingStart(g0);
      var names := nodes.Keys;
      while names != {}
        invariant names <= g0.Keys && done == g0.Keys - names
        invariant Densifying(g0, nodes, done) && Paired(g0, nodes, done)
        decreases |names|
      {
        var name, rest := Take(names);
        DensifyNode(name, g0, done);
        DoneNext(g0.Keys, names, name);
        done, names := done + {name}, rest;
      }
      DoneLast(g0.Keys);
      DensifyResult(g0, nodes);
      out := CheckInvariant();
    }
  }

  /** A closed graph holds every descendant of its nodes. */
  lemma ReachedInside<V(!new)>(g: Nodes<V>, x: V, y: V)
    requires Closed(g) && Reaches(ChildMap(g), x, y)
    ensures y in g
  {
    var p :| IsPath(ChildMap(g), p) && p[0] == x && p[|p| - 1] == y;
    assert p[|p| - 1] in Succ(ChildMap(g), p[|p| - 2]);
  }
}
