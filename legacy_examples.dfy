/**
 * The four-label graph of the legacy graph tests: a person is excluded from a dog and has
 * actors and politicians below it. The lemmas pin down the relationships the tests expect
 * before and after `densify`, and that `densify` reports no broken invariant on it.
 */
module LegacyGraphExamples {
  import opened Wrappers
  import opened Hierarchy
  import GraphNodes
  import opened LegacyGraphs

  /** The four labels of the example, in place of the tests' strings. */
  datatype Label = Person | Dog | Actor | Politician

  function SimpleGraph(): Nodes<Label> {
    map[
      Person := GraphNode({Actor, Politician}, {Dog}),
      Dog := GraphNode({}, {Person}),
      Actor := GraphNode({}, {}),
      Politician := GraphNode({}, {})
    ]
  }

  /** `createSimpleGraph`: four nodes, one exclusion, two hierarchy edges. */
  method CreateSimpleGraph() returns (g: HEXGraph<Label>)
    ensures fresh(g) && g.Valid() && g.nodes == SimpleGraph()
  {
    g := new HEXGraph();
    var _ := g.AddNode(Person);
    var _ := g.AddNode(Dog);
    var _ := g.AddNode(Actor);
    var _ := g.AddNode(Politician);
    SimpleSteps();
    var _ := g.AddExclusion(Person, Dog);
    var _ := g.AddHierarchy(Person, Actor);
    var _ := g.AddHierarchy(Person, Politician);
  }

  /** The graph after each edge that `createSimpleGraph` adds. */
  lemma SimpleSteps()
    ensures var none := GraphNode({}, {});
      var g1 := map[Person := none][Dog := none][Actor := none][Politician := none];
      var g2 := map[Person := GraphNode({}, {Dog}), Dog := GraphNode({}, {Person}), Actor := none, Politician := none];
      var g3 := map[Person := GraphNode({Actor}, {Dog}), Dog := GraphNode({}, {Person}), Actor := none, Politician := none];
      ExclusionLinked(g1, Person, Dog) == g2 && HierarchyLinked(g2, Person, Actor) == g3 &&
      HierarchyLinked(g3, Person, Politician) == SimpleGraph()
  {
    assert {} + {Dog} == {Dog} && {} + {Person} == {Person} && {} + {Actor} == {Actor};
    assert {Actor} + {Politician} == {Actor, Politician};
  }

  /** When the children of `x` have no children, its descendants are its children. */
  lemma ShallowDescendants<L(!new)>(r: Rel<L>, x: L)
    requires forall c :: c in Succ(r, x) ==> Succ(r, c) == {}
    ensures forall y :: Reaches(r, x, y) <==> y in Succ(r, x)
  {
    assert Expand(r, Succ(r, x)) == {};
    assert Descendants(r, x) == Succ(r, x);
  }

  /** The only hierarchy paths of the example are the two edges below the person. */
  lemma SimpleReach(x: Label, y: Label)
    ensures Reaches(ChildMap(SimpleGraph()), x, y) <==> x == Person && (y == Actor || y == Politician)
  {
    var g := SimpleGraph();
    var r := ChildMap(g);
    assert Succ(r, Actor) == {} && Succ(r, Politician) == {} && Succ(r, Dog) == {};
    assert Succ(r, Person) == {Actor, Politician};
    assert x !in g ==> Succ(r, x) == {};
    ShallowDescendants(r, x);
  }

  lemma SimpleReachAll()
    ensures forall x, y :: Reaches(ChildMap(SimpleGraph()), x, y) <==> x == Person && (y == Actor || y == Politician)
  {
    forall x, y ensures Reaches(ChildMap(SimpleGraph()), x, y) <==> x == Person && (y == Actor || y == Politician) {
      SimpleReach(x, y);
    }
  }

  /** The labels at or above each label of the example. */
  lemma SimpleAbove(a: Label, x: Label)
    requires a in SimpleGraph() && x in SimpleGraph()
    ensures AtOrAbove(SimpleGraph(), a, x) <==> a == x || (a == Person && (x == Actor || x == Politician))
  {
    SimpleReach(a, x);
  }

  /** The example's only exclusion edges are the pair between the person and the dog. */
  lemma SimpleExcluded(a: Label, b: Label)
    requires a in SimpleGraph()
    ensures b in SimpleGraph()[a].excluded <==> (a == Person && b == Dog) || (a == Dog && b == Person)
  {
  }

  lemma SimpleSymmetric()
    ensures SymmetricExclusion(SimpleGraph())
  {
    forall a, b | a in SimpleGraph() && b in SimpleGraph()[a].excluded
      ensures b in SimpleGraph() && a in SimpleGraph()[b].excluded
    {
      SimpleExcluded(a, b);
    }
  }

  /** What the example implies to exclude: the dog against the person and everything below it. */
  lemma SimpleInherited(x: Label, y: Label)
    requires x in SimpleGraph() && y in SimpleGraph()
    ensures Inherited(SimpleGraph(), x, y) <==> (x == Dog) != (y == Dog)
  {
    var g := SimpleGraph();
    if Inherited(g, x, y) {
      var a, b :| a in g && b in g && AtOrAbove(g, a, x) && AtOrAbove(g, b, y) &&
        (b in g[a].excluded || a in g[b].excluded);
      SimpleAbove(a, x);
      SimpleAbove(b, y);
      SimpleExcluded(a, b);
      SimpleExcluded(b, a);
    }
    if x == Dog && y != Dog {
      SimpleAbove(Dog, x);
      SimpleAbove(Person, y);
      SimpleExcluded(Dog, Person);
    }
    if y == Dog && x != Dog {
      SimpleAbove(Person, x);
      SimpleAbove(Dog, y);
      SimpleExcluded(Person, Dog);
    }
  }

  /** `testCreation`: the size and the eight relationships of the freshly built graph. */
  lemma SimpleGraphRelationships()
    ensures |SimpleGraph().Keys| == 4
    ensures RelationshipOf(SimpleGraph(), Dog, Person) == Exclusion
    ensures RelationshipOf(SimpleGraph(), Person, Dog) == Exclusion
    ensures RelationshipOf(SimpleGraph(), Actor, Person) == HierarchySuper
    ensures RelationshipOf(SimpleGraph(), Politician, Person) == HierarchySuper
    ensures RelationshipOf(SimpleGraph(), Person, Actor) == HierarchySub
    ensures RelationshipOf(SimpleGraph(), Person, Politician) == HierarchySub
    ensures RelationshipOf(SimpleGraph(), Actor, Politician) == Overlapping
    ensures RelationshipOf(SimpleGraph(), Politician, Actor) == Overlapping
  {
    assert SimpleGraph().Keys == {Person, Dog, Actor, Politician};
    SimpleReachAll();
  }

  /** After `densify` the example keeps its hierarchy paths. */
  lemma DensifiedReach(g: Nodes<Label>)
    requires Densified(SimpleGraph(), g)
    ensures forall x, y :: Reaches(ChildMap(g), x, y) <==> x == Person && (y == Actor || y == Politician)
  {
    SimpleReachAll();
  }

  /** After `densify` the dog excludes, and is excluded by, every other label. */
  lemma DensifiedExcluded(g: Nodes<Label>)
    requires Densified(SimpleGraph(), g)
    ensures g.Keys == SimpleGraph().Keys
    ensures forall x, y :: x in g && y in g ==> (y in g[x].excluded <==> (x == Dog) != (y == Dog))
  {
    forall x, y | x in g && y in g
      ensures y in g[x].excluded <==> (x == Dog) != (y == Dog)
    {
      DensifiedPair(g, x, y);
    }
  }

  lemma DensifiedPair(g: Nodes<Label>, x: Label, y: Label)
    requires Densified(SimpleGraph(), g) && x in g && y in g
    ensures y in g[x].excluded <==> (x == Dog) != (y == Dog)
  {
    var g0 := SimpleGraph();
    SimpleSymmetric();
    SimpleInherited(x, y);
    if x != y {
      DensifiedExclusions(g0, g, x, y);
    } else {
      assert ExclusionsBounded(g0, g);
    }
  }

  /** Relationships in any graph on the example's labels with the densified edges. */
  lemma DenseRelationships(g: Nodes<Label>)
    requires g.Keys == SimpleGraph().Keys
    requires forall x, y :: Reaches(ChildMap(g), x, y) <==> x == Person && (y == Actor || y == Politician)
    requires forall x, y :: x in g && y in g ==> (y in g[x].excluded <==> (x == Dog) != (y == Dog))
    ensures NoExcludedChild(g)
    ensures RelationshipOf(g, Dog, Actor) == Exclusion
    ensures RelationshipOf(g, Dog, Person) == Exclusion
    ensures RelationshipOf(g, Dog, Politician) == Exclusion
    ensures RelationshipOf(g, Actor, Dog) == Exclusion
    ensures RelationshipOf(g, Person, Dog) == Exclusion
    ensures RelationshipOf(g, Politician, Dog) == Exclusion
    ensures RelationshipOf(g, Actor, Person) == HierarchySuper
    ensures RelationshipOf(g, Politician, Person) == HierarchySuper
    ensures RelationshipOf(g, Person, Actor) == HierarchySub
    ensures RelationshipOf(g, Person, Politician) == HierarchySub
    ensures RelationshipOf(g, Actor, Politician) == Overlapping
    ensures RelationshipOf(g, Politician, Actor) == Overlapping
  {
    assert g.Keys == {Person, Dog, Actor, Politician};
    forall l, c | l in g && c in g[l].hierarchy ensures c !in g[l].excluded {
      Edge(ChildMap(g), l, c);
      assert l == Person && c in g;
    }
  }

  /** `testDensify`: the twelve relationships after `densify`, and its invariant check passes. */
  lemma DensifiedSimpleGraph(g: Nodes<Label>)
    requires Densified(SimpleGraph(), g)
    ensures g.Keys == SimpleGraph().Keys && NoExcludedChild(g)
    ensures RelationshipOf(g, Dog, Actor) == Exclusion
    ensures RelationshipOf(g, Dog, Person) == Exclusion
    ensures RelationshipOf(g, Dog, Politician) == Exclusion
    ensures RelationshipOf(g, Actor, Dog) == Exclusion
    ensures RelationshipOf(g, Person, Dog) == Exclusion
    ensures RelationshipOf(g, Politician, Dog) == Exclusion
    ensures RelationshipOf(g, Actor, Person) == HierarchySuper
    ensures RelationshipOf(g, Politician, Person) == HierarchySuper
    ensures RelationshipOf(g, Person, Actor) == HierarchySub
    ensures RelationshipOf(g, Person, Politician) == HierarchySub
    ensures RelationshipOf(g, Actor, Politician) == Overlapping
    ensures RelationshipOf(g, Politician, Actor) == Overlapping
  {
    DensifiedReach(g);
    DensifiedExcluded(g);
    DenseRelationships(g);
  }

  /** `testSparisfy`: `sparsify` leaves the example graph as it was built. */
  method SparsifySimpleGraph() returns (nodes: Nodes<Label>)
    ensures nodes == SimpleGraph()
  {
    var g := CreateSimpleGraph();
    g.Sparsify();
    nodes := g.nodes;
  }

  /** `testSparisfyAfterDensify`: the eight relationships of the example survive `densify` then `sparsify`. */
  method SparsifyAfterDensify() returns (nodes: Nodes<Label>)
    ensures nodes.Keys == SimpleGraph().Keys
    ensures RelationshipOf(nodes, Dog, Person) == Exclusion
    ensures RelationshipOf(nodes, Person, Dog) == Exclusion
    ensures RelationshipOf(nodes, Actor, Person) == HierarchySuper
    ensures RelationshipOf(nodes, Politician, Person) == HierarchySuper
    ensures RelationshipOf(nodes, Person, Actor) == HierarchySub
    ensures RelationshipOf(nodes, Person, Politician) == HierarchySub
    ensures RelationshipOf(nodes, Actor, Politician) == Overlapping
    ensures RelationshipOf(nodes, Politician, Actor) == Overlapping
  {
    var g := CreateSimpleGraph();
    var _ := g.Densify();
    g.Sparsify();
    nodes := g.nodes;
    DensifiedSimpleGraph(nodes);
  }

  /** `densify` on the example graph passes its invariant check. */
  method DensifySimpleGraph() returns (out: Outcome)
    ensures out == Pass
  {
    var g := CreateSimpleGraph();
    out := g.Densify();
    DensifiedSimpleGraph(g.nodes);
  }
}
