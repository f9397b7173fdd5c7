/**
 * `HEXGraphMethods`: the memoised listing of the state space of a dense HEX graph by pivot
 * splitting, the state spaces of the cliques of a junction tree, and the junction tree built
 * from the elimination ordering of the triangulated sparse graph.
 */
module StateSpace {
  import opened Wrappers
  import opened Hierarchy
  import opened Names
  import opened GraphNodes
  import opened Configurations
  import opened Graphs
  import opened Enumeration
  import opened JunctionTrees
  import opened Elimination

  type States = set<seq<TriState>>

  /** `d` is a state of `g` reached from a configuration of `n` classes, all of them UNSET. */
  ghost predicate StateOf<L(!new)>(g: Nodes<L>, ix: map<L, nat>, n: nat, d: seq<TriState>) {
    Extends(g, ix, Unset(n), d)
  }

  /** The configuration `new Configuration(n)` holds. */
  function Unset(n: nat): (c: seq<TriState>)
    ensures |c| == n && forall i :: 0 <= i < n ==> c[i] == UNSET
  {
    seq(n, _ => UNSET)
  }

  /** `r` holds the configurations of `configs` and the states of `g` completing `c`, and no more. */
  ghost predicate Collects<L(!new)>(r: States, configs: States, g: Nodes<L>, ix: map<L, nat>, c: seq<TriState>) {
    forall d :: d in r <==> d in configs || Extends(g, ix, c, d)
  }

  /** Every label of `g` is a listed name. */
  ghost predicate Known<L(!new)>(g: Nodes<L>, ns: NameSpace<L>) {
    forall l :: l in g ==> l in ns.names
  }

  /** A graph whose labels carry no hierarchy and no exclusion edge. */
  ghost predicate Unconstrained<L(!new)>(g: Nodes<L>) {
    Closed(g) && forall l :: l in g ==> g[l].hierarchy == {} && g[l].excluded == {}
  }

  /** The pivot a deterministic rerun of the split takes. */
  ghost function PivotOf<L(!new)>(g: Nodes<L>): (p: L)
    requires g != map[]
    ensures p in g
  {
    assert g.Keys != {};
    var p :| p in g.Keys; p
  }

  /**
   * The states the pivot split reaches from `c`: the set `listStateSpace` accumulates, with
   * the pivot fixed by `PivotOf` in place of a random one.
   */
  ghost function StatesOf<L(!new)>(g: Nodes<L>, ix: map<L, nat>, c: seq<TriState>): States
    decreases |g|
  {
    if g == map[] then {c}
    else
      var p := PivotOf(g);
      Shrinks(g, Removed0(g, p), p);
      Shrinks(g, Removed1(g, p), p);
      StatesOf(Minus(g, Removed0(g, p)), ix, Branch0(g, ix, c, p)) +
      StatesOf(Minus(g, Removed1(g, p)), ix, Branch1(g, ix, c, p))
  }

  /** One unfolding of the split, with the two remainders and branch configurations named. */
  lemma StatesOfUnfold<L(!new)>(g: Nodes<L>, ix: map<L, nat>, c: seq<TriState>,
      h0: Nodes<L>, c0: seq<TriState>, h1: Nodes<L>, c1: seq<TriState>)
    requires g != map[]
    requires h0 == Minus(g, Removed0(g, PivotOf(g))) && c0 == Branch0(g, ix, c, PivotOf(g))
    requires h1 == Minus(g, Removed1(g, PivotOf(g))) && c1 == Branch1(g, ix, c, PivotOf(g))
    ensures StatesOf(g, ix, c) == StatesOf(h0, ix, c0) + StatesOf(h1, ix, c1)
  {
  }

  ghost function Pow2(n: nat): nat {
    if n == 0 then 1 else 2 * Pow2(n - 1)
  }

  // Bookkeeping.

  lemma Shrinks<L(!new)>(g: Nodes<L>, v: set<L>, p: L)
    requires p in g && p in v
    ensures |Minus(g, v)| < |g|
  {
    ProperSubsetCard(Minus(g, v).Keys, g.Keys);
  }

  lemma DisjointCard<T>(a: set<T>, b: set<T>)
    requires a * b == {}
    ensures |a + b| == |a| + |b|
  {
    assert |a + b| + |a * b| == |a| + |b|;
  }

  lemma AssignedSingle(s: seq<TriState>, i: int, v: TriState)
    requires 0 <= i < |s|
    ensures Assigned(s, {i}, v) == s[i := v]
  {
  }

  lemma ImageSingle<L(!new)>(ix: map<L, nat>, p: L)
    requires p in ix
    ensures Image(ix, {p}) == {ix[p] as int}
  {
  }

  lemma ImageAdd<L(!new)>(ix: map<L, nat>, a: set<L>, l: L)
    requires l in ix
    ensures Image(ix, a + {l}) == Image(ix, a) + {ix[l] as int}
  {
  }

  /** A valid name table gives each known label of `g` an index of its own among its names. */
  lemma IndexedByNames<L(!new)>(ns: NameSpace<L>, g: Nodes<L>)
    requires ns.Valid() && forall l :: l in g ==> l in ns.names
    ensures Indexed(g, ns.mapping, ns.Size())
  {
    forall a, b | a in g && b in g && a != b ensures ns.mapping[a] != ns.mapping[b] {
      ns.GetIndexInjective(a, b);
    }
  }

  /**
   * On a dense graph the closure queries reduce to edges: the ancestors of `p` are its
   * parents, its descendants are its children, and it does not reach itself.
   */
  lemma PivotFacts<L(!new)>(g: Nodes<L>, p: L)
    requires Dense(g) && p in g
    ensures AncestorsOf(g, p) == Parents(g, p)
    ensures forall y :: Reaches(ChildMap(g), p, y) <==> y in g[p].hierarchy
    ensures Removed0(g, p) + Removed1(g, p) <= g.Keys
  {
    assert forall y :: y in g[p].excluded + g[p].hierarchy ==> y in g[p].Targets();
    forall y | y in g ensures Reaches(ChildMap(g), y, p) <==> p in g[y].hierarchy {
      DenseReaches(g, y, p);
    }
    forall y ensures Reaches(ChildMap(g), p, y) <==> y in g[p].hierarchy {
      DenseReaches(g, p, y);
    }
  }

  // Properties of the state space.

  /** The split rerun: its states are exactly the states of `g` completing `c`. */
  lemma {:induction false} StatesOfExact<L(!new)>(g: Nodes<L>, ix: map<L, nat>, c: seq<TriState>, d: seq<TriState>)
    requires Dense(g) && Indexed(g, ix, |c|)
    ensures d in StatesOf(g, ix, c) <==> Extends(g, ix, c, d)
    decreases |g|
  {
    if g == map[] {
      ExtendsEmpty(ix, c, d);
    } else {
      var p := PivotOf(g);
      Shrinks(g, Removed0(g, p), p);
      Shrinks(g, Removed1(g, p), p);
      DenseMinus(g, Removed0(g, p));
      DenseMinus(g, Removed1(g, p));
      IndexedMinus(g, ix, |c|, Removed0(g, p));
      IndexedMinus(g, ix, |c|, Removed1(g, p));
      StatesOfExact(Minus(g, Removed0(g, p)), ix, Branch0(g, ix, c, p), d);
      StatesOfExact(Minus(g, Removed1(g, p)), ix, Branch1(g, ix, c, p), d);
      Split(g, ix, c, p, d);
    }
  }

  /** The two branches give the pivot opposite values, so no state comes out of both. */
  lemma BranchesDisjoint<L(!new)>(g: Nodes<L>, ix: map<L, nat>, c: seq<TriState>, p: L, d: seq<TriState>)
    requires Dense(g) && Indexed(g, ix, |c|) && p in g
    ensures Extends(Minus(g, Removed0(g, p)), ix, Branch0(g, ix, c, p), d) ==> Val(d, ix, p) == TRUE
    ensures Extends(Minus(g, Removed1(g, p)), ix, Branch1(g, ix, c, p), d) ==> Val(d, ix, p) == FALSE
  {
    Branch0Val(g, ix, c, p, p);
    Branch1Val(g, ix, c, p, p);
    forall v | v == Removed0(g, p) || v == Removed1(g, p) ensures ix[p] as int !in Image(ix, Minus(g, v).Keys) {
      InImage(g, ix, |c|, Minus(g, v).Keys, p);
    }
  }

  /** Every state of `g` from the all-UNSET start sets exactly the labels of `g`. */
  lemma EmittedMembers<L(!new)>(g: Nodes<L>, ix: map<L, nat>, n: nat, d: seq<TriState>)
    requires Indexed(g, ix, n) && StateOf(g, ix, n, d)
    ensures forall i: nat :: i in Members(d) <==> i in Image(ix, g.Keys)
  {
    forall i: nat | i in Image(ix, g.Keys) ensures i in Members(d) {
      var l :| l in g && l in ix && ix[l] as int == i;
      assert Val(d, ix, l) != UNSET;
    }
  }

  /** Without edges the pivot decides only itself, and the rest stays edgeless. */
  lemma UnconstrainedDense<L(!new)>(g: Nodes<L>)
    requires Unconstrained(g)
    ensures Dense(g)
  {
  }

  lemma UnconstrainedStep<L(!new)>(g: Nodes<L>, p: L)
    requires Unconstrained(g) && p in g
    ensures Removed0(g, p) == {p} && Removed1(g, p) == {p}
    ensures Unconstrained(Minus(g, {p})) && |Minus(g, {p})| == |g| - 1
  {
    assert Parents(g, p) == {};
    assert Minus(g, {p}).Keys == g.Keys - {p};
  }

  /** No state is reached by both branches. */
  lemma DisjointStates<L(!new)>(g: Nodes<L>, ix: map<L, nat>, c: seq<TriState>, p: L)
    requires Dense(g) && Indexed(g, ix, |c|) && p in g
    requires Dense(Minus(g, Removed0(g, p))) && Indexed(Minus(g, Removed0(g, p)), ix, |c|)
    requires Dense(Minus(g, Removed1(g, p))) && Indexed(Minus(g, Removed1(g, p)), ix, |c|)
    ensures StatesOf(Minus(g, Removed0(g, p)), ix, Branch0(g, ix, c, p)) *
      StatesOf(Minus(g, Removed1(g, p)), ix, Branch1(g, ix, c, p)) == {}
  {
    var c0, c1 := Branch0(g, ix, c, p), Branch1(g, ix, c, p);
    forall d | d in StatesOf(Minus(g, Removed0(g, p)), ix, c0) ensures d !in StatesOf(Minus(g, Removed1(g, p)), ix, c1) {
      StatesOfExact(Minus(g, Removed0(g, p)), ix, c0, d);
      StatesOfExact(Minus(g, Removed1(g, p)), ix, c1, d);
      BranchesDisjoint(g, ix, c, p, d);
    }
  }

  /** With no edges every label is free: the split reaches 2^n states over n labels. */
  lemma {:induction false} UnconstrainedCount<L(!new)>(g: Nodes<L>, ix: map<L, nat>, c: seq<TriState>)
    requires Unconstrained(g) && Indexed(g, ix, |c|)
    ensures |StatesOf(g, ix, c)| == Pow2(|g|)
    decreases |g|
  {
    if g != map[] {
      var p := PivotOf(g);
      UnconstrainedStep(g, p);
      IndexedMinus(g, ix, |c|, {p});
      var h, c0, c1 := Minus(g, {p}), Branch0(g, ix, c, p), Branch1(g, ix, c, p);
      assert |StatesOf(h, ix, c0)| == Pow2(|h|) && |StatesOf(h, ix, c1)| == Pow2(|h|) by {
        UnconstrainedCount(h, ix, c0);
        UnconstrainedCount(h, ix, c1);
      }
      assert StatesOf(h, ix, c0) * StatesOf(h, ix, c1) == {} by {
        UnconstrainedDense(g);
        UnconstrainedDense(h);
        DisjointStates(g, ix, c, p);
      }
      DisjointCard(StatesOf(h, ix, c0), StatesOf(h, ix, c1));
      StatesOfUnfold(g, ix, c, h, c0, h, c1);
    }
  }

  /**
   * The count the unconnected fixture checks: any set holding exactly the states of an
   * edgeless graph from the all-UNSET start holds 2^n of them.
   */
  lemma UnconstrainedStateSpace<L(!new)>(g: Nodes<L>, ix: map<L, nat>, n: nat, s: States)
    requires Unconstrained(g) && Indexed(g, ix, n)
    requires forall d :: d in s <==> StateOf(g, ix, n, d)
    ensures |s| == Pow2(|g|)
  {
    var c := Unset(n);
    UnconstrainedCount(g, ix, c);
    assert s == StatesOf(g, ix, c) by {
      forall d ensures d in s <==> d in StatesOf(g, ix, c) {
        StatesOfExact(g, ix, c, d);
      }
    }
  }

  /** The two recursive calls together add exactly the states of the graph. */
  lemma Combine<L(!new)>(g: Nodes<L>, ix: map<L, nat>, c: seq<TriState>, p: L, configs: States,
      h0: Nodes<L>, c0: seq<TriState>, s0: States, h1: Nodes<L>, c1: seq<TriState>, s1: States)
    requires Dense(g) && Indexed(g, ix, |c|) && p in g
    requires h0 == Minus(g, Removed0(g, p)) && c0 == Branch0(g, ix, c, p)
    requires h1 == Minus(g, Removed1(g, p)) && c1 == Branch1(g, ix, c, p)
    requires Collects(s0, configs, h0, ix, c0) && Collects(s1, s0, h1, ix, c1)
    ensures Collects(s1, configs, g, ix, c)
  {
    forall d ensures d in s1 <==> d in configs || Extends(g, ix, c, d) {
      Split(g, ix, c, p, d);
    }
  }

  /**
   * The clique `buildJunctionTree` forms at position `i` of the ordering: the label there and
   * those of its triangulation neighbours that come at or after it.
   */
  ghost function CliqueAt<L(!new)>(t: Adjacency<L>, ordering: seq<L>, i: nat): set<L>
    requires i < |ordering| && ordering[i] in t
  {
    {ordering[i]} + Later(ordering, i) * t[ordering[i]]
  }

  /** The inner loop of `buildJunctionTree`: collects the clique at position `i`. */
  method FormClique<L(==,!new)>(graph: HEXGraph<L>, ordering: seq<L>, i: nat) returns (clique: set<L>)
    requires i < |ordering| && ordering[i] in graph.nodes
    ensures clique == CliqueAt(TriMap(graph.nodes), ordering, i)
  {
    var curr := ordering[i];
    clique := {curr};
    var triNeighbors := graph.GetTriangulatedNeighbors(curr).value;
    var j := i;
    while j < |ordering|
      invariant i <= j <= |ordering|
      invariant clique + Later(ordering, j) * triNeighbors == CliqueAt(TriMap(graph.nodes), ordering, i)
    {
      assert Later(ordering, j) == {ordering[j]} + Later(ordering, j + 1);
      if ordering[j] in triNeighbors {
        clique := clique + {ordering[j]};
      }
      j := j + 1;
    }
  }

  /**
   * `tri` triangulates `t0` by the elimination game: `triOrder` eliminates every label once,
   * `fills` are the neighbourhoods joined into cliques, and `triOrder` is then a perfect
   * elimination ordering of `tri`.
   */
  ghost predicate TriangulationOf<L(!new)>(t0: Adjacency<L>, tri: Adjacency<L>, triOrder: seq<L>, fills: seq<set<L>>) {
    Permutes(t0, triOrder) && Cliques(t0, triOrder, fills) &&
    tri == FillAll(t0, fills, |fills|) && PerfectElimination(tri, triOrder)
  }

  /**
   * The nodes `built` hold the cliques at the first `count` positions of `ordering` over
   * `tri`: each of them is held by some node, and each node holds exactly the indices of one.
   */
  ghost predicate HoldsCliques<L(!new)>(ns: NameSpace<L>, built: set<JunctionTreeNode<L>>, tri: Adjacency<L>,
                                        ordering: seq<L>, count: nat) {
    count <= |ordering| && (forall k :: 0 <= k < |ordering| ==> ordering[k] in tri) &&
    (forall i :: 0 <= i < count ==> Consumed(built, Indices(ns, CliqueAt(tri, ordering, i)))) &&
    (forall n :: n in built ==> exists i :: 0 <= i < count && n.members == Indices(ns, CliqueAt(tri, ordering, i)))
  }

  /**
   * Adding the next clique, all of whose labels are known, by a new node or none, keeps the
   * nodes holding the cliques so far, and the label at its position known.
   */
  lemma HoldsStep<L(!new)>(ns: NameSpace<L>, nodes0: set<JunctionTreeNode<L>>, nodes1: set<JunctionTreeNode<L>>,
                           tri: Adjacency<L>, ordering: seq<L>, count: nat)
    requires ns.Valid() && HoldsCliques(ns, nodes0, tri, ordering, count) && count < |ordering|
    requires KnownUpTo(ns, ordering, count) && forall v :: v in CliqueAt(tri, ordering, count) ==> v in ns.names
    requires Consumed(nodes1, Indices(ns, CliqueAt(tri, ordering, count)))
    requires nodes0 <= nodes1 && forall n :: n in nodes1 - nodes0 ==> n.members == Indices(ns, CliqueAt(tri, ordering, count))
    ensures KnownUpTo(ns, ordering, count + 1) && HoldsCliques(ns, nodes1, tri, ordering, count + 1)
  {
    assert ordering[count] in ns.mapping by {
      assert ordering[count] in CliqueAt(tri, ordering, count);
    }
    forall i | 0 <= i < count + 1 ensures Consumed(nodes1, Indices(ns, CliqueAt(tri, ordering, i))) {
      if i < count {
        assert Consumed(nodes0, Indices(ns, CliqueAt(tri, ordering, i)));
        var n :| n in nodes0 && Indices(ns, CliqueAt(tri, ordering, i)) <= n.members;
        assert n in nodes1;
      }
    }
  }

  /** `ordering` lists every label of `g` exactly once. */
  ghost predicate OrderingOf<L(!new)>(ordering: seq<L>, g: Nodes<L>) {
    |ordering| == |g| && Distinct(ordering) && forall y :: y in ordering <==> y in g
  }

  /** The labels before position `i` of `ordering` have an index. */
  ghost predicate KnownUpTo<L(!new)>(ns: NameSpace<L>, ordering: seq<L>, i: int) {
    forall k :: 0 <= k < i && k < |ordering| ==> ordering[k] in ns.mapping
  }

  /** The labels of a graph are all known exactly when those of an ordering of it all have an index. */
  lemma KnownByOrdering<L(!new)>(ns: NameSpace<L>, g: Nodes<L>, ordering: seq<L>)
    requires ns.Valid() && OrderingOf(ordering, g)
    ensures Known(g, ns) <==> KnownUpTo(ns, ordering, |ordering|)
  {
    if Known(g, ns) {
      forall k | 0 <= k < |ordering| ensures ordering[k] in ns.mapping {
        assert ordering[k] in g;
      }
    } else {
      var y :| y in g && y !in ns.names;
      var k :| 0 <= k < |ordering| && ordering[k] == y;
      assert ordering[k] !in ns.mapping;
    }
  }

  /** A clique with an unknown label leaves some label of the ordering without an index. */
  lemma UnknownInClique<L(!new)>(ns: NameSpace<L>, t: Adjacency<L>, ordering: seq<L>, i: nat)
    requires ns.Valid() && i < |ordering| && ordering[i] in t
    requires !(forall v :: v in CliqueAt(t, ordering, i) ==> v in ns.names)
    ensures !KnownUpTo(ns, ordering, |ordering|)
  {
    var y :| y in CliqueAt(t, ordering, i) && y !in ns.names;
    var k :| 0 <= k < |ordering| && ordering[k] == y;
    assert ordering[k] !in ns.mapping;
  }

  /** One round of the main loop of `buildJunctionTree`: adds the clique at position `i`. */
  method AddClique<L(==,!new)>(graph: HEXGraph<L>, ordering: seq<L>, tree: JunctionTree<L>, i: nat) returns (out: Outcome)
    requires tree.Valid() && tree.nameSpace.Valid() && i < |ordering|
    requires HoldsCliques(tree.nameSpace, tree.nodes, TriMap(graph.nodes), ordering, i)
    requires KnownUpTo(tree.nameSpace, ordering, i)
    modifies tree
    ensures tree.Valid() && tree.edges == old(tree.edges)
    ensures old(tree.nodes) <= tree.nodes && forall n :: n in tree.nodes - old(tree.nodes) ==> fresh(n)
    ensures out.Fail? ==> out.error == NullPointer && !KnownUpTo(tree.nameSpace, ordering, |ordering|)
    ensures out.Pass? ==> KnownUpTo(tree.nameSpace, ordering, i + 1) &&
                          HoldsCliques(tree.nameSpace, tree.nodes, TriMap(graph.nodes), ordering, i + 1)
  {
    var clique := FormClique(graph, ordering, i);
    ghost var before := tree.nodes;
    out := tree.AddNode(clique);
    if out.Pass? {
      HoldsStep(tree.nameSpace, before, tree.nodes, TriMap(graph.nodes), ordering, i);
    } else {
      UnknownInClique(tree.nameSpace, TriMap(graph.nodes), ordering, i);
    }
  }

  /** The main loop of `buildJunctionTree`: adds the clique of every position of the ordering. */
  method AddCliques<L(==,!new)>(graph: HEXGraph<L>, elimOrdering: seq<L>, tree: JunctionTree<L>) returns (out: Outcome)
    requires tree.Valid() && tree.nameSpace.Valid() && tree.nodes == {}
    requires forall k :: 0 <= k < |elimOrdering| ==> elimOrdering[k] in graph.nodes
    modifies tree
    ensures tree.Valid() && tree.edges == old(tree.edges) && forall n :: n in tree.nodes ==> fresh(n)
    ensures out.Pass? <==> KnownUpTo(tree.nameSpace, elimOrdering, |elimOrdering|)
    ensures out.Fail? ==> out.error == NullPointer
    ensures out.Pass? ==> HoldsCliques(tree.nameSpace, tree.nodes, TriMap(graph.nodes), elimOrdering, |elimOrdering|)
  {
    var i := 0;
    while i < |elimOrdering|
      invariant 0 <= i <= |elimOrdering|
      invariant tree.Valid() && tree.edges == old(tree.edges) && forall n :: n in tree.nodes ==> fresh(n)
      invariant KnownUpTo(tree.nameSpace, elimOrdering, i)
      invariant HoldsCliques(tree.nameSpace, tree.nodes, TriMap(graph.nodes), elimOrdering, i)
    {
      ghost var prev := tree.nodes;
      out := AddClique(graph, elimOrdering, tree, i);
      assert forall n :: n in tree.nodes ==> fresh(n) by {
        forall n | n in tree.nodes ensures fresh(n) {
          if n !in prev {
            assert n in tree.nodes - prev;
          }
        }
      }
      if out.Fail? {
        return;
      }
      i := i + 1;
    }
    out := Pass;
  }

  /** Every label of `ordering` has an index, held by some node of `nodes`. */
  ghost predicate LabelsHeld<L(!new)>(ns: NameSpace<L>, nodes: set<JunctionTreeNode<L>>, ordering: seq<L>) {
    forall k :: 0 <= k < |ordering| ==> ordering[k] in ns.mapping && exists n :: n in nodes && ns.mapping[ordering[k]] in n.members
  }

  /** Once every clique is held by some node, so is the index of every label of the ordering. */
  lemma LabelsCovered<L(!new)>(ns: NameSpace<L>, nodes: set<JunctionTreeNode<L>>, t: Adjacency<L>, ordering: seq<L>)
    requires HoldsCliques(ns, nodes, t, ordering, |ordering|) && KnownUpTo(ns, ordering, |ordering|)
    ensures LabelsHeld(ns, nodes, ordering)
  {
    forall k | 0 <= k < |ordering| ensures ordering[k] in ns.mapping && exists n :: n in nodes && ns.mapping[ordering[k]] in n.members {
      LabelCovered(ns, nodes, t, ordering, k);
    }
  }

  /** The index of the label at position `k` is in the node holding the clique at `k`. */
  lemma LabelCovered<L(!new)>(ns: NameSpace<L>, nodes: set<JunctionTreeNode<L>>, t: Adjacency<L>, ordering: seq<L>, k: nat)
    requires HoldsCliques(ns, nodes, t, ordering, |ordering|) && k < |ordering| && ordering[k] in ns.mapping
    ensures exists n :: n in nodes && ns.mapping[ordering[k]] in n.members
  {
    assert ordering[k] in CliqueAt(t, ordering, k);
    assert ns.mapping[ordering[k]] in Indices(ns, CliqueAt(t, ordering, k));
    assert Consumed(nodes, Indices(ns, CliqueAt(t, ordering, k)));
    var n :| n in nodes && Indices(ns, CliqueAt(t, ordering, k)) <= n.members;
    assert ns.mapping[ordering[k]] in n.members;
  }

  /** A triangulated deep copy of `g`. */
  method TriangulatedGraph<L(==,!new)>(g: HEXGraph<L>) returns (graph: HEXGraph<L>, ghost triOrder: seq<L>, ghost fills: seq<set<L>>)
    requires g.Valid()
    ensures fresh(graph) && graph.Valid() && graph.nameSpace == g.nameSpace && graph.nodes.Keys == g.nodes.Keys
    ensures TriangulationOf(TriMap(g.nodes), TriMap(graph.nodes), triOrder, fills)
  {
    ghost var t0 := TriMap(g.nodes);
    graph := g.GetDeepCopy();
    assert TriMap(graph.nodes) == t0;
    triOrder, fills := graph.Triangulate();
    assert g.nodes.Keys == t0.Keys;
  }

  /**
   * The part of `buildJunctionTree` after the triangulation: a tree over `ns` with one node per
   * clique of `elimOrdering` over `graph` not already held, and the edges grown between them by
   * `buildEdges` with its early return pruning too.
   */
  method CliqueTree<L(==,!new)>(graph: HEXGraph<L>, elimOrdering: seq<L>, ns: NameSpace<L>, numClasses: nat, ghost tri: Adjacency<L>)
    returns (r: Result<JunctionTree<L>>, ghost built: set<JunctionTreeNode<L>>, ghost order: seq<JunctionTreeNode<L>>,
             ghost links: seq<JunctionTreeEdge<L>>)
    requires ns.Valid() && tri == TriMap(graph.nodes) && forall k :: 0 <= k < |elimOrdering| ==> elimOrdering[k] in graph.nodes
    ensures r.Err? ==> r.error == NullPointer || r.error == IllegalState
    ensures r == Err(NullPointer) <==> !KnownUpTo(ns, elimOrdering, |elimOrdering|)
    ensures KnownUpTo(ns, elimOrdering, |elimOrdering|) ==>
      HoldsCliques(ns, built, tri, elimOrdering, |elimOrdering|) && LabelsHeld(ns, built, elimOrdering)
    ensures r == Err(IllegalState) ==> exists s :: Cut(built, s)
    ensures r.Ok? ==> fresh(r.value) && r.value.Valid() && r.value.nodes == built
    ensures r.Ok? ==> r.value.nameSpace == ns && r.value.numClasses == numClasses
    ensures r.Ok? && links == [] ==> r.value.edges == {} && (built == {} || exists c :: c in built && Isolated(built, c))
    ensures r.Ok? && links != [] ==>
      Attached(built, order, links) && Greedy(built, order, links) && r.value.edges == Listed(links) && |Listed(links)| + 1 == |built|
    ensures r.Ok? ==> MaximumSpanning(built, links)
  {
    var tree := new JunctionTree(ns, numClasses);
    order, links := [], [];
    var out := AddCliques(graph, elimOrdering, tree);
    built := tree.nodes;
    if out.Pass? {
      LabelsCovered(ns, built, tri, elimOrdering);
      out, order, links := tree.BuildPrunedEdges();
    }
    r := if out.Pass? then Ok(tree) else Err(out.error);
  }

  /** The first steps of `buildJunctionTree`: a triangulated copy of `g` and its elimination ordering. */
  method TriangulatedCopy<L(==,!new)>(g: HEXGraph<L>) returns (graph: HEXGraph<L>, elimOrdering: seq<L>, ghost triOrder: seq<L>, ghost fills: seq<set<L>>)
    requires g.Valid()
    ensures fresh(graph) && graph.Valid() && graph.nameSpace == g.nameSpace && graph.nodes.Keys == g.nodes.Keys
    ensures TriangulationOf(TriMap(g.nodes), TriMap(graph.nodes), triOrder, fills)
    ensures OrderingOf(elimOrdering, g.nodes)
    ensures forall k :: 0 <= k < |elimOrdering| ==> elimOrdering[k] in graph.nodes
  {
    graph, triOrder, fills := TriangulatedGraph(g);
    ghost var t1 := TriMap(graph.nodes);
    elimOrdering := graph.GetEliminationOrdering();
    assert TriMap(graph.nodes) == t1;
    assert forall k :: 0 <= k < |elimOrdering| ==> elimOrdering[k] in graph.nodes by {
      forall k | 0 <= k < |elimOrdering| ensures elimOrdering[k] in graph.nodes {
        assert elimOrdering[k] in elimOrdering;
      }
    }
  }

  /**
   * The body of `buildJunctionTree` over the sparse graph `g`: triangulates a copy of `g`, forms
   * one clique per label of the copy's elimination ordering, adds it as a node unless a node
   * already holds it, and builds the edges. The ghost results expose the triangulation `tri`
   * (made by eliminating in `triOrder`, joining the neighbourhoods `fills`), the `ordering`
   * whose cliques are used, the nodes `built`, and the spanning tree (`order`, `links`) as the
   * edges are grown.
   */
  method JunctionTreeOf<L(==,!new)>(g: HEXGraph<L>, ns: NameSpace<L>, numClasses: nat)
    returns (r: Result<JunctionTree<L>>, ghost tri: Adjacency<L>, ghost triOrder: seq<L>, ghost fills: seq<set<L>>,
             ghost ordering: seq<L>, ghost built: set<JunctionTreeNode<L>>, ghost order: seq<JunctionTreeNode<L>>,
             ghost links: seq<JunctionTreeEdge<L>>)
    requires g.Valid() && ns.Valid()
    ensures TriangulationOf(TriMap(g.nodes), tri, triOrder, fills) && tri.Keys == g.nodes.Keys
    ensures OrderingOf(ordering, g.nodes)
    ensures r.Err? ==> r.error == NullPointer || r.error == IllegalState
    ensures r == Err(NullPointer) <==> !Known(g.nodes, ns)
    ensures Known(g.nodes, ns) ==> HoldsCliques(ns, built, tri, ordering, |ordering|)
    ensures Known(g.nodes, ns) ==> LabelsHeld(ns, built, ordering)
    ensures r == Err(IllegalState) ==> exists s :: Cut(built, s)
    ensures r.Ok? ==> fresh(r.value) && r.value.Valid() && r.value.nodes == built
    ensures r.Ok? ==> r.value.nameSpace == ns && r.value.numClasses == numClasses
    ensures r.Ok? && links == [] ==> r.value.edges == {} && (built == {} || exists c :: c in built && Isolated(built, c))
    ensures r.Ok? && links != [] ==>
      Attached(built, order, links) && Greedy(built, order, links) && r.value.edges == Listed(links) && |Listed(links)| + 1 == |built|
  {
    var graph, elimOrdering;
    graph, elimOrdering, triOrder, fills := TriangulatedCopy(g);
    tri, ordering := TriMap(graph.nodes), elimOrdering;
    r, built, order, links := CliqueTree(graph, elimOrdering, ns, numClasses, tri);
    KnownTree(ns, g.nodes, tri, ordering, r, built);
  }

  /** The outcome of `CliqueTree` over an ordering of `g`, restated in terms of the labels of `g`. */
  lemma KnownTree<L(!new)>(ns: NameSpace<L>, g: Nodes<L>, tri: Adjacency<L>, ordering: seq<L>, r: Result<JunctionTree<L>>,
                           built: set<JunctionTreeNode<L>>)
    requires ns.Valid() && OrderingOf(ordering, g)
    requires r == Err(NullPointer) <==> !KnownUpTo(ns, ordering, |ordering|)
    requires KnownUpTo(ns, ordering, |ordering|) ==>
      HoldsCliques(ns, built, tri, ordering, |ordering|) && LabelsHeld(ns, built, ordering)
    ensures r == Err(NullPointer) <==> !Known(g, ns)
    ensures Known(g, ns) ==> HoldsCliques(ns, built, tri, ordering, |ordering|) && LabelsHeld(ns, built, ordering)
  {
    KnownByOrdering(ns, g, ordering);
  }

  class HEXGraphMethods<L(==,!new)> {
    var denseGraph: HEXGraph<L>
    var sparseGraph: HEXGraph<L>
    /** Enumerated state spaces by graph object; None stands for the map a copy never gets. */
    var stateSpaceMapping: Option<map<HEXGraph<L>, States>>
    const nameSpace: NameSpace<L>

    ghost function MemoKeys(): set<HEXGraph<L>>
      reads this
    {
      if stateSpaceMapping.Some? then stateSpaceMapping.value.Keys else {}
    }

    /** Every cached set holds exactly the states of its graph's current labels. */
    ghost predicate MemoSound()
      reads this, MemoKeys()
    {
      stateSpaceMapping.Some? ==>
        forall g :: g in stateSpaceMapping.value ==>
          forall d :: d in stateSpaceMapping.value[g] <==> StateOf(g.nodes, nameSpace.mapping, nameSpace.Size(), d)
    }

    /**
     * Both graphs share the name table, the dense graph has the densified shape, and the
     * memo is sound.
     */
    ghost predicate Valid()
      reads this, denseGraph, sparseGraph, MemoKeys()
    {
      nameSpace.Valid() && denseGraph.nameSpace == nameSpace && sparseGraph.nameSpace == nameSpace &&
      denseGraph.Valid() && sparseGraph.Valid() && Dense(denseGraph.nodes) && MemoSound()
    }

    /** The public constructor, with the factory's two graphs for the key passed in. */
    constructor (dense: HEXGraph<L>, sparse: HEXGraph<L>, ns: NameSpace<L>)
      requires ns.Valid() && dense.nameSpace == ns && sparse.nameSpace == ns
      requires dense.Valid() && sparse.Valid() && Dense(dense.nodes)
      ensures Valid() && stateSpaceMapping == Some(map[])
      ensures denseGraph == dense && sparseGraph == sparse && nameSpace == ns
    {
      denseGraph := dense;
      sparseGraph := sparse;
      stateSpaceMapping := Some(map[]);
      nameSpace := ns;
    }

    /** `getDeepCopy` as written: the private constructor it calls leaves the memo unset. */
    method GetDeepCopyAsWritten() returns (copy: HEXGraphMethods<L>)
      requires Valid()
      ensures fresh(copy) && fresh(copy.denseGraph) && fresh(copy.sparseGraph)
      ensures copy.Valid() && copy.nameSpace == nameSpace && copy.stateSpaceMapping == None
      ensures copy.denseGraph.nodes == denseGraph.nodes && copy.sparseGraph.nodes == sparseGraph.nodes
    {
      var dense := denseGraph.GetDeepCopy();
      var sparse := sparseGraph.GetDeepCopy();
      copy := new HEXGraphMethods.Copy(dense, sparse, nameSpace, None);
    }

    /** `getDeepCopy` with the memo the public constructor creates. */
    method GetDeepCopy() returns (copy: HEXGraphMethods<L>)
      requires Valid()
      ensures fresh(copy) && fresh(copy.denseGraph) && fresh(copy.sparseGraph)
      ensures copy.Valid() && copy.nameSpace == nameSpace && copy.stateSpaceMapping == Some(map[])
      ensures copy.denseGraph.nodes == denseGraph.nodes && copy.sparseGraph.nodes == sparseGraph.nodes
    {
      var dense := denseGraph.GetDeepCopy();
      var sparse := sparseGraph.GetDeepCopy();
      copy := new HEXGraphMethods.Copy(dense, sparse, nameSpace, Some(map[]));
    }

    /** Listing the states of a copy made as written: on a non-empty dense graph the missing memo fails. */
    method CopyThenListAsWritten() returns (r: Result<States>)
      requires Valid() && denseGraph.nodes != map[]
      ensures r == Err(NullPointer)
    {
      var copy := GetDeepCopyAsWritten();
      r := copy.ListStateSpace();
    }

    /** Listing the states of a copy that has its memo: the states of the original's dense graph. */
    method CopyThenList() returns (r: Result<States>)
      requires Valid()
      ensures r.Err? <==> exists l :: l in denseGraph.nodes && l !in nameSpace.names
      ensures r.Ok? ==> forall d :: d in r.value <==>
        denseGraph.nodes != map[] && StateOf(denseGraph.nodes, nameSpace.mapping, nameSpace.Size(), d)
    {
      var copy := GetDeepCopy();
      r := copy.ListStateSpace();
    }

    constructor Copy(dense: HEXGraph<L>, sparse: HEXGraph<L>, ns: NameSpace<L>, memo: Option<map<HEXGraph<L>, States>>)
      requires ns.Valid() && dense.nameSpace == ns && sparse.nameSpace == ns
      requires dense.Valid() && sparse.Valid() && Dense(dense.nodes)
      requires memo == None || memo == Some(map[])
      ensures Valid() && stateSpaceMapping == memo
      ensures denseGraph == dense && sparseGraph == sparse && nameSpace == ns
    {
      denseGraph := dense;
      sparseGraph := sparse;
      stateSpaceMapping := memo;
      nameSpace := ns;
    }

    /** `getSetIndices`: the index of every label; an unknown label fails its lookup. */
    method GetSetIndices(s: set<L>) returns (r: Result<set<int>>)
      requires nameSpace.Valid()
      ensures r.Ok? <==> forall l :: l in s ==> l in nameSpace.names
      ensures r.Ok? ==> r.value == Image(nameSpace.mapping, s)
      ensures r.Err? ==> r.error == NullPointer
    {
      var indices: set<int> := {};
      var todo := s;
      while todo != {}
        invariant todo <= s
        invariant forall l :: l in s - todo ==> l in nameSpace.names
        invariant indices == Image(nameSpace.mapping, s - todo)
        decreases |todo|
      {
        var l;
        ghost var before := todo;
        l, todo := Take(todo);
        var index := nameSpace.GetIndex(l);
        if index.Err? {
          return Err(index.error);
        }
        ImageAdd(nameSpace.mapping, s - before, l);
        assert s - todo == (s - before) + {l};
        indices := indices + {index.value};
      }
      return Ok(indices);
    }

    /**
     * The assignments of one recursive step: a copy of `current` becomes branch 0 (pivot and
     * ancestors TRUE, exclusions FALSE) and `current` itself becomes branch 1 (pivot and
     * descendants FALSE). The first unknown label stops the step.
     */
    method AssignBranches(current: Configuration, pivot: L, ancestors: set<L>, excluded: set<L>, descendants: set<L>)
      returns (r: Result<Configuration>)
      requires current.Valid() && nameSpace.Valid() && current.config.Length == nameSpace.Size()
      modifies current, current.config
      ensures current.Valid() && current.config == old(current.config)
      ensures r.Err? <==> exists l :: l in {pivot} + ancestors + excluded + descendants && l !in nameSpace.names
      ensures r.Err? ==> r.error == NullPointer
      ensures r.Ok? ==> fresh(r.value) && fresh(r.value.config) && r.value.Valid()
      ensures r.Ok? ==> r.value.config.Length == current.config.Length
      ensures r.Ok? ==> r.value.Value() == Assigned(Assigned(Assigned(old(current.Value()),
        Image(nameSpace.mapping, {pivot}), TRUE), Image(nameSpace.mapping, ancestors), TRUE),
        Image(nameSpace.mapping, excluded), FALSE)
      ensures r.Ok? ==> current.Value() == Assigned(Assigned(old(current.Value()),
        Image(nameSpace.mapping, {pivot}), FALSE), Image(nameSpace.mapping, descendants), FALSE)
    {
      var s0 := current.GetDeepCopy();
      var index := nameSpace.GetIndex(pivot);
      if index.Err? {
        return Err(index.error);
      }
      ImageSingle(nameSpace.mapping, pivot);
      AssignedSingle(s0.Value(), index.value, TRUE);
      var _ := s0.SetValue(index.value, TRUE);
      var ancestorIndices := GetSetIndices(ancestors);
      if ancestorIndices.Err? {
        return Err(ancestorIndices.error);
      }
      var _ := s0.SetValuesSet(ancestorIndices.value, TRUE);
      var excludedIndices := GetSetIndices(excluded);
      if excludedIndices.Err? {
        return Err(excludedIndices.error);
      }
      var _ := s0.SetValuesSet(excludedIndices.value, FALSE);
      AssignedSingle(current.Value(), index.value, FALSE);
      var _ := current.SetValue(index.value, FALSE);
      var descendantIndices := GetSetIndices(descendants);
      if descendantIndices.Err? {
        return Err(descendantIndices.error);
      }
      var _ := current.SetValuesSet(descendantIndices.value, FALSE);
      return Ok(s0);
    }

    /**
     * One recursive step up to the recursion: a random pivot, the labels each branch decides,
     * and the assignments of both branches.
     */
    method PivotStep(current: Configuration, graph: HEXGraph<L>) returns (r: Result<Configuration>, pivot: L, v0: set<L>, v1: set<L>)
      requires current.Valid() && graph.Valid() && nameSpace.Valid() && Dense(graph.nodes) && graph.nodes != map[]
      requires current.config.Length == nameSpace.Size()
      modifies current, current.config
      ensures current.Valid() && current.config == old(current.config)
      ensures pivot in graph.nodes && v0 == Removed0(graph.nodes, pivot) && v1 == Removed1(graph.nodes, pivot)
      ensures r.Err? ==> r.error == NullPointer && !Known(graph.nodes, nameSpace)
      ensures r.Ok? ==> forall l :: l in v1 ==> l in nameSpace.names
      ensures r.Ok? ==> fresh(r.value) && fresh(r.value.config) && r.value.Valid()
      ensures r.Ok? ==> r.value.config.Length == nameSpace.Size()
      ensures r.Ok? ==> r.value.Value() == Branch0(graph.nodes, nameSpace.mapping, old(current.Value()), pivot)
      ensures r.Ok? ==> current.Value() == Branch1(graph.nodes, nameSpace.mapping, old(current.Value()), pivot)
    {
      ghost var g := graph.nodes;
      var list := graph.GetNodeList();
      assert 0 <= 0 < |list|;
      var position :| 0 <= position < |list|;
      pivot := list[position];
      PivotFacts(g, pivot);
      var excluded := graph.GetExcluded(pivot).value;
      var overlapping := graph.GetOverlapping(pivot);
      var ancestors := graph.GetAncestors(pivot);
      var descendants := graph.GetDescendants(pivot).value;
      assert descendants == g[pivot].hierarchy;
      v0 := excluded + overlapping.value + ancestors.value;
      v1 := overlapping.value + descendants;
      r := AssignBranches(current, pivot, ancestors.value, excluded, descendants);
    }

    /**
     * The recursive `listStateSpace`: adds to `configs` every state of `graph` completing the
     * current configuration. The configuration object itself ends up as one of them.
     */
    method ListStates(current: Configuration, configs: States, graph: HEXGraph<L>) returns (r: Result<States>)
      requires current.Valid() && graph.Valid() && nameSpace.Valid() && Dense(graph.nodes)
      requires current.config.Length == nameSpace.Size()
      modifies current, current.config
      decreases |graph.nodes|, 2
      ensures current.Valid() && current.config == old(current.config)
      ensures r.Err? <==> !Known(graph.nodes, nameSpace)
      ensures r.Err? ==> r.error == NullPointer
      ensures r.Ok? ==> current.Value() in r.value
      ensures r.Ok? ==> Collects(r.value, configs, graph.nodes, nameSpace.mapping, old(current.Value()))
    {
      if graph.Size() == 0 {
        assert graph.nodes == map[];
        forall d ensures Extends(graph.nodes, nameSpace.mapping, current.Value(), d) <==> d == current.Value() {
          ExtendsEmpty(nameSpace.mapping, current.Value(), d);
        }
        return Ok(configs + {current.Value()});
      }
      ghost var c := current.Value();
      var s0, pivot, v0, v1 := PivotStep(current, graph);
      if s0.Err? {
        return Err(s0.error);
      }
      r := Descend(s0.value, current, configs, graph, pivot, v0, v1, c);
    }

    /** The two recursive calls of one step: branch 0, then branch 1 on the same accumulator. */
    method Descend(s0: Configuration, s1: Configuration, configs: States, graph: HEXGraph<L>,
        pivot: L, v0: set<L>, v1: set<L>, ghost c: seq<TriState>) returns (r: Result<States>)
      requires s0.Valid() && s1.Valid() && s0 != s1 && s0.config != s1.config
      requires s0.config.Length == nameSpace.Size() && s1.config.Length == nameSpace.Size()
      requires graph.Valid() && nameSpace.Valid() && Dense(graph.nodes) && |c| == nameSpace.Size()
      requires pivot in graph.nodes && v0 == Removed0(graph.nodes, pivot) && v1 == Removed1(graph.nodes, pivot)
      requires forall l :: l in v1 ==> l in nameSpace.names
      requires s0.Value() == Branch0(graph.nodes, nameSpace.mapping, c, pivot)
      requires s1.Value() == Branch1(graph.nodes, nameSpace.mapping, c, pivot)
      modifies s0, s0.config, s1, s1.config
      decreases |graph.nodes|, 1
      ensures s1.Valid() && s1.config == old(s1.config)
      ensures r.Err? <==> !Known(graph.nodes, nameSpace)
      ensures r.Err? ==> r.error == NullPointer
      ensures r.Ok? ==> s1.Value() in r.value
      ensures r.Ok? ==> Collects(r.value, configs, graph.nodes, nameSpace.mapping, c)
    {
      ghost var g := graph.nodes;
      ghost var c0, c1 := s0.Value(), s1.Value();
      var r0 := Recurse(s0, configs, graph, v0, pivot);
      if r0.Err? {
        return r0;
      }
      r := Recurse(s1, r0.value, graph, v1, pivot);
      if r.Ok? {
        assert Known(g, nameSpace) by {
          assert forall l :: l in g ==> l in v1 || l in Minus(g, v1);
        }
        IndexedByNames(nameSpace, g);
        Combine(g, nameSpace.mapping, c, pivot, configs, Minus(g, v0), c0, r0.value, Minus(g, v1), c1, r.value);
      }
    }

    /** One recursive call: the states of the graph without the labels `v` decides. */
    method Recurse(s: Configuration, configs: States, graph: HEXGraph<L>, v: set<L>, pivot: L) returns (r: Result<States>)
      requires s.Valid() && s.config.Length == nameSpace.Size()
      requires graph.Valid() && nameSpace.Valid() && Dense(graph.nodes) && pivot in graph.nodes && pivot in v
      modifies s, s.config
      decreases |graph.nodes|, 0
      ensures s.Valid() && s.config == old(s.config)
      ensures r.Err? <==> !Known(Minus(graph.nodes, v), nameSpace)
      ensures r.Err? ==> r.error == NullPointer
      ensures r.Ok? ==> s.Value() in r.value
      ensures r.Ok? ==> Collects(r.value, configs, Minus(graph.nodes, v), nameSpace.mapping, old(s.Value()))
    {
      Shrinks(graph.nodes, v, pivot);
      DenseMinus(graph.nodes, v);
      var sub := graph.GetSubgraphMinus(v);
      r := ListStates(s, configs, sub);
    }

    /**
     * The graph-argument `listStateSpace`: an empty graph has the empty set, a graph object
     * seen before gets its cached set back, and any other graph is enumerated from an all-UNSET
     * configuration and cached.
     */
    method ListStateSpaceOf(graph: HEXGraph<L>) returns (r: Result<States>)
      requires Valid() && graph.Valid() && Dense(graph.nodes)
      modifies this
      ensures Valid() && denseGraph == old(denseGraph) && sparseGraph == old(sparseGraph)
      ensures graph.nodes == map[] ==> r == Ok({}) && stateSpaceMapping == old(stateSpaceMapping)
      ensures graph.nodes != map[] && old(stateSpaceMapping).None? ==>
        r == Err(NullPointer) && stateSpaceMapping == None
      ensures graph.nodes != map[] && old(stateSpaceMapping).Some? && graph in old(stateSpaceMapping).value ==>
        r == Ok(old(stateSpaceMapping).value[graph]) && stateSpaceMapping == old(stateSpaceMapping)
      ensures graph.nodes != map[] && old(stateSpaceMapping).Some? && graph !in old(stateSpaceMapping).value ==>
        (r.Err? <==> exists l :: l in graph.nodes && l !in nameSpace.names) &&
        (r.Err? ==> r.error == NullPointer && stateSpaceMapping == old(stateSpaceMapping)) &&
        (r.Ok? ==> stateSpaceMapping == Some(old(stateSpaceMapping).value[graph := r.value]))
      ensures r.Ok? ==> forall d :: d in r.value <==>
        graph.nodes != map[] && StateOf(graph.nodes, nameSpace.mapping, nameSpace.Size(), d)
    {
      if graph.Size() == 0 {
        return Ok({});
      }
      if stateSpaceMapping.None? {
        return Err(NullPointer);
      }
      if graph in stateSpaceMapping.value {
        return Ok(stateSpaceMapping.value[graph]);
      }
      var start := new Configuration(nameSpace.Size());
      r := ListStates(start, {}, graph);
      if r.Ok? {
        stateSpaceMapping := Some(stateSpaceMapping.value[graph := r.value]);
      }
    }

    /** The public `listStateSpace`: the same, on the dense graph. */
    method ListStateSpace() returns (r: Result<States>)
      requires Valid()
      modifies this
      ensures Valid() && denseGraph == old(denseGraph) && sparseGraph == old(sparseGraph)
      ensures denseGraph.nodes == map[] ==> r == Ok({}) && stateSpaceMapping == old(stateSpaceMapping)
      ensures denseGraph.nodes != map[] && old(stateSpaceMapping).None? ==> r == Err(NullPointer)
      ensures denseGraph.nodes != map[] && old(stateSpaceMapping).Some? && denseGraph in old(stateSpaceMapping).value ==>
        r == Ok(old(stateSpaceMapping).value[denseGraph]) && stateSpaceMapping == old(stateSpaceMapping)
      ensures denseGraph.nodes != map[] && old(stateSpaceMapping).Some? && denseGraph !in old(stateSpaceMapping).value ==>
        (r.Err? <==> exists l :: l in denseGraph.nodes && l !in nameSpace.names) &&
        (r.Ok? ==> stateSpaceMapping == Some(old(stateSpaceMapping).value[denseGraph := r.value]))
      ensures r.Err? ==> r.error == NullPointer
      ensures r.Ok? ==> forall d :: d in r.value <==>
        denseGraph.nodes != map[] && StateOf(denseGraph.nodes, nameSpace.mapping, nameSpace.Size(), d)
    {
      r := ListStateSpaceOf(denseGraph);
    }

    /** `buildJunctionTree`: the junction tree of the sparse graph, built as `JunctionTreeOf` describes. */
    method BuildJunctionTree() returns (r: Result<JunctionTree<L>>, ghost tri: Adjacency<L>, ghost triOrder: seq<L>,
                                       ghost fills: seq<set<L>>, ghost ordering: seq<L>,
                                       ghost built: set<JunctionTreeNode<L>>, ghost order: seq<JunctionTreeNode<L>>,
                                       ghost links: seq<JunctionTreeEdge<L>>)
      requires Valid()
      ensures TriangulationOf(TriMap(sparseGraph.nodes), tri, triOrder, fills) && tri.Keys == sparseGraph.nodes.Keys
      ensures OrderingOf(ordering, sparseGraph.nodes)
      ensures r.Err? ==> r.error == NullPointer || r.error == IllegalState
      ensures r == Err(NullPointer) <==> !Known(sparseGraph.nodes, nameSpace)
      ensures Known(sparseGraph.nodes, nameSpace) ==> HoldsCliques(nameSpace, built, tri, ordering, |ordering|)
      ensures Known(sparseGraph.nodes, nameSpace) ==> LabelsHeld(nameSpace, built, ordering)
      ensures r == Err(IllegalState) ==> exists s :: Cut(built, s)
      ensures r.Ok? ==> fresh(r.value) && r.value.Valid() && r.value.nodes == built
      ensures r.Ok? ==> r.value.nameSpace == nameSpace && r.value.numClasses == |denseGraph.nodes|
      ensures r.Ok? && links == [] ==> r.value.edges == {} && (built == {} || exists c :: c in built && Isolated(built, c))
      ensures r.Ok? && links != [] ==>
        Attached(built, order, links) && Greedy(built, order, links) && r.value.edges == Listed(links) && |Listed(links)| + 1 == |built|
    {
      var size := denseGraph.Size();
      r, tri, triOrder, fills, ordering, built, order, links := JunctionTreeOf(sparseGraph, nameSpace, size);
    }

    /** The part of the dense graph a junction tree node covers: the labels whose bits it holds. */
    ghost function CliqueGraph(n: JunctionTreeNode<L>): (h: Nodes<L>)
      reads this, denseGraph
      requires denseGraph.nameSpace.Valid()
      ensures forall l :: l in h <==>
        l in denseGraph.nodes && l in denseGraph.nameSpace.mapping && denseGraph.nameSpace.mapping[l] in n.members
    {
      Induced(denseGraph.nodes, denseGraph.Selected(n.members))
    }

    /**
     * Listing the state space of node `n`'s part fails: a non-empty bitset meets an unknown
     * dense label, or a non-empty part meets a missing memo.
     */
    ghost predicate CliqueFails(n: JunctionTreeNode<L>, memoMissing: bool)
      reads this, denseGraph
      requires denseGraph.nameSpace.Valid()
    {
      n.members != {} && (!Known(denseGraph.nodes, nameSpace) || (memoMissing && CliqueGraph(n) != map[]))
    }

    /** Every node of `spaces` maps to the state space of its part of the dense graph. */
    ghost predicate ListsCliques(spaces: map<JunctionTreeNode<L>, States>)
      reads this, denseGraph
      requires denseGraph.nameSpace.Valid()
    {
      forall n, d :: n in spaces ==>
        (d in spaces[n] <==> CliqueGraph(n) != map[] && StateOf(CliqueGraph(n), nameSpace.mapping, nameSpace.Size(), d))
    }

    /** One round of `getJunctionTreeStateSpaces`: the state space of node `n`'s part of the dense graph. */
    method CliqueStateSpace(n: JunctionTreeNode<L>) returns (r: Result<States>)
      requires Valid()
      modifies this
      ensures Valid() && denseGraph == old(denseGraph) && sparseGraph == old(sparseGraph)
      ensures stateSpaceMapping.None? == old(stateSpaceMapping).None?
      ensures r.Err? <==> CliqueFails(n, old(stateSpaceMapping).None?)
      ensures r.Err? ==> r.error == NullPointer
      ensures r.Ok? ==> forall d :: d in r.value <==>
        CliqueGraph(n) != map[] && StateOf(CliqueGraph(n), nameSpace.mapping, nameSpace.Size(), d)
    {
      var sub := denseGraph.GetSubgraphBits(n.members);
      if sub.Err? {
        return Err(sub.error);
      }
      DenseInduced(denseGraph.nodes, denseGraph.Selected(n.members));
      r := ListStateSpaceOf(sub.value);
    }

    /**
     * `getJunctionTreeStateSpaces`: maps every node of the tree to the state space of the part
     * of the dense graph its members select; it fails at the first node whose listing fails.
     */
    method GetJunctionTreeStateSpaces(tree: JunctionTree<L>) returns (r: Result<map<JunctionTreeNode<L>, States>>)
      requires Valid()
      modifies this
      ensures Valid() && denseGraph == old(denseGraph) && sparseGraph == old(sparseGraph)
      ensures stateSpaceMapping.None? == old(stateSpaceMapping).None?
      ensures r.Err? <==> exists n :: n in tree.nodes && CliqueFails(n, old(stateSpaceMapping).None?)
      ensures r.Err? ==> r.error == NullPointer
      ensures r.Ok? ==> r.value.Keys == tree.nodes && ListsCliques(r.value)
    {
      ghost var missing := stateSpaceMapping.None?;
      var spaces: map<JunctionTreeNode<L>, States> := map[];
      var todo := tree.nodes;
      while todo != {}
        invariant Valid() && denseGraph == old(denseGraph) && sparseGraph == old(sparseGraph)
        invariant denseGraph.nodes == old(denseGraph.nodes) && stateSpaceMapping.None? == missing
        invariant todo <= tree.nodes && spaces.Keys == tree.nodes - todo
        invariant forall n :: n in tree.nodes - todo ==> !CliqueFails(n, missing)
        invariant ListsCliques(spaces)
        decreases todo
      {
        var node, rest := Take(todo);
        var states := CliqueStateSpace(node);
        if states.Err? {
          return Err(states.error);
        }
        spaces := spaces[node := states.value];
        todo := rest;
      }
      return Ok(spaces);
    }
  }
}
