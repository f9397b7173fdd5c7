/**
 * The state space of a dense HEX graph: the configurations that give each of its labels a value
 * and respect its edges, and the pivot split on which `listStateSpace` recurses.
 */
module Enumeration {
  import opened Hierarchy
  import opened GraphNodes
  import opened Configurations

  /** The entry of label `l` under the index table `ix`; UNSET when it has no index in range. */
  ghost function Val<L(!new)>(d: seq<TriState>, ix: map<L, nat>, l: L): TriState {
    if l in ix && ix[l] < |d| then d[ix[l]] else UNSET
  }

  /** The indices of the labels of `s`. */
  ghost function Image<L(!new)>(ix: map<L, nat>, s: set<L>): set<int> {
    set l | l in s && l in ix :: ix[l] as int
  }

  /** Every label of `g` has an index of its own below `n`. */
  ghost predicate Indexed<L(!new)>(g: Nodes<L>, ix: map<L, nat>, n: nat) {
    (forall l :: l in g ==> l in ix && ix[l] < n) &&
    (forall a, b :: a in g && b in g && a != b ==> ix[a] != ix[b])
  }

  /** Hierarchy edges are transitively closed. */
  ghost predicate Transitive<L(!new)>(g: Nodes<L>) {
    forall x, y, z :: x in g && y in g && y in g[x].hierarchy && z in g[y].hierarchy ==> z in g[x].hierarchy
  }

  /** Exclusions are symmetric and inherited by children. */
  ghost predicate Inherited<L(!new)>(g: Nodes<L>) {
    (forall x, y :: x in g && y in g[x].excluded ==> y in g && x in g[y].excluded) &&
    (forall x, y, z :: x in g && y in g && y in g[x].hierarchy && z in g[x].excluded ==> z in g[y].excluded)
  }

  /**
   * The shape a densified, consistent graph has: closed, transitive and loop-free hierarchy,
   * symmetric inherited exclusions, no label excluding itself or one of its children.
   */
  ghost predicate Dense<L(!new)>(g: Nodes<L>) {
    Closed(g) && Transitive(g) && Inherited(g) &&
    (forall x :: x in g ==> x !in g[x].hierarchy && x !in g[x].excluded) &&
    (forall x, y :: x in g && y in g[x].hierarchy ==> y !in g[x].excluded)
  }

  /** `d` agrees with `c` at every index outside `image`. */
  ghost predicate AgreesOff(image: set<int>, c: seq<TriState>, d: seq<TriState>) {
    |d| == |c| && forall i :: 0 <= i < |c| && i !in image ==> d[i] == c[i]
  }

  /** Every label of `g` is set in `d`. */
  ghost predicate Total<L(!new)>(g: Nodes<L>, ix: map<L, nat>, d: seq<TriState>) {
    forall l :: l in g ==> Val(d, ix, l) != UNSET
  }

  /** A TRUE child has a TRUE parent, and no excluded pair is TRUE on both sides. */
  ghost predicate Consistent<L(!new)>(g: Nodes<L>, ix: map<L, nat>, d: seq<TriState>) {
    (forall x, y :: x in g && y in g[x].hierarchy && Val(d, ix, y) == TRUE ==> Val(d, ix, x) == TRUE) &&
    (forall x, y :: x in g && y in g[x].excluded ==> !(Val(d, ix, x) == TRUE && Val(d, ix, y) == TRUE))
  }

  /**
   * `d` is a state of `g` completing `c`: it agrees with `c` off the labels of `g`, sets every
   * label of `g`, and is consistent with the edges of `g`.
   */
  ghost predicate Extends<L(!new)>(g: Nodes<L>, ix: map<L, nat>, c: seq<TriState>, d: seq<TriState>) {
    AgreesOff(Image(ix, g.Keys), c, d) && Total(g, ix, d) && Consistent(g, ix, d)
  }

  /** The labels with `p` among their children. */
  ghost function Parents<L(!new)>(g: Nodes<L>, p: L): set<L> {
    set y | y in g && p in g[y].hierarchy
  }

  /** The labels branch 0 decides: the pivot, its ancestors and its exclusions. */
  ghost function Removed0<L(!new)>(g: Nodes<L>, p: L): set<L>
    requires p in g
  {
    {p} + Parents(g, p) + g[p].excluded
  }

  /** The labels branch 1 decides: the pivot and its descendants. */
  ghost function Removed1<L(!new)>(g: Nodes<L>, p: L): set<L>
    requires p in g
  {
    {p} + g[p].hierarchy
  }

  /** Branch 0: the pivot and its ancestors TRUE, then its exclusions FALSE. */
  ghost function Branch0<L(!new)>(g: Nodes<L>, ix: map<L, nat>, c: seq<TriState>, p: L): seq<TriState>
    requires p in g
  {
    Assigned(Assigned(Assigned(c, Image(ix, {p}), TRUE), Image(ix, Parents(g, p)), TRUE), Image(ix, g[p].excluded), FALSE)
  }

  /** Branch 1: the pivot and its descendants FALSE. */
  ghost function Branch1<L(!new)>(g: Nodes<L>, ix: map<L, nat>, c: seq<TriState>, p: L): seq<TriState>
    requires p in g
  {
    Assigned(Assigned(c, Image(ix, {p}), FALSE), Image(ix, g[p].hierarchy), FALSE)
  }

  // Index bookkeeping.

  lemma ValAssigned<L(!new)>(s: seq<TriState>, ix: map<L, nat>, ixs: set<int>, v: TriState, l: L)
    ensures Val(Assigned(s, ixs, v), ix, l) ==
      if l in ix && ix[l] < |s| && ix[l] as int in ixs then v else Val(s, ix, l)
  {
  }

  /** For labels of an indexed graph, membership of the index is membership of the label. */
  lemma InImage<L(!new)>(g: Nodes<L>, ix: map<L, nat>, n: nat, s: set<L>, l: L)
    requires Indexed(g, ix, n) && s <= g.Keys && l in g
    ensures ix[l] as int in Image(ix, s) <==> l in s
  {
    if ix[l] as int in Image(ix, s) {
      var m :| m in s && m in ix && ix[m] as int == ix[l] as int;
    }
  }

  /** An index outside the image of `g` is outside the image of every set of its labels. */
  lemma OffImage<L(!new)>(g: Nodes<L>, ix: map<L, nat>, s: set<L>, i: int)
    requires s <= g.Keys && i !in Image(ix, g.Keys)
    ensures i !in Image(ix, s)
  {
  }

  /** The value branch 0 gives each label of the graph. */
  lemma Branch0Val<L(!new)>(g: Nodes<L>, ix: map<L, nat>, c: seq<TriState>, p: L, l: L)
    requires Closed(g) && Indexed(g, ix, |c|) && p in g && l in g
    ensures Val(Branch0(g, ix, c, p), ix, l) ==
      if l in g[p].excluded then FALSE else if l == p || l in Parents(g, p) then TRUE else Val(c, ix, l)
  {
    assert g[p].excluded <= g.Keys by {
      forall y | y in g[p].excluded ensures y in g {
        assert y in g[p].Targets();
      }
    }
    var c1 := Assigned(c, Image(ix, {p}), TRUE);
    var c2 := Assigned(c1, Image(ix, Parents(g, p)), TRUE);
    InImage(g, ix, |c|, {p}, l);
    InImage(g, ix, |c|, Parents(g, p), l);
    InImage(g, ix, |c|, g[p].excluded, l);
    ValAssigned(c, ix, Image(ix, {p}), TRUE, l);
    ValAssigned(c1, ix, Image(ix, Parents(g, p)), TRUE, l);
    ValAssigned(c2, ix, Image(ix, g[p].excluded), FALSE, l);
  }

  /** The value branch 1 gives each label of the graph. */
  lemma Branch1Val<L(!new)>(g: Nodes<L>, ix: map<L, nat>, c: seq<TriState>, p: L, l: L)
    requires Closed(g) && Indexed(g, ix, |c|) && p in g && l in g
    ensures Val(Branch1(g, ix, c, p), ix, l) ==
      if l == p || l in g[p].hierarchy then FALSE else Val(c, ix, l)
  {
    assert g[p].hierarchy <= g.Keys by {
      forall y | y in g[p].hierarchy ensures y in g {
        assert y in g[p].Targets();
      }
    }
    var c1 := Assigned(c, Image(ix, {p}), FALSE);
    InImage(g, ix, |c|, {p}, l);
    InImage(g, ix, |c|, g[p].hierarchy, l);
    ValAssigned(c, ix, Image(ix, {p}), FALSE, l);
    ValAssigned(c1, ix, Image(ix, g[p].hierarchy), FALSE, l);
  }

  /** Off the labels of the graph, both branches keep the configuration. */
  lemma BranchesOff<L(!new)>(g: Nodes<L>, ix: map<L, nat>, c: seq<TriState>, p: L)
    requires Closed(g) && p in g
    ensures AgreesOff(Image(ix, g.Keys), c, Branch0(g, ix, c, p))
    ensures AgreesOff(Image(ix, g.Keys), c, Branch1(g, ix, c, p))
  {
    assert g[p].excluded <= g.Keys && g[p].hierarchy <= g.Keys by {
      forall y | y in g[p].excluded + g[p].hierarchy ensures y in g {
        assert y in g[p].Targets();
      }
    }
    forall i | 0 <= i < |c| && i !in Image(ix, g.Keys)
      ensures Branch0(g, ix, c, p)[i] == c[i] && Branch1(g, ix, c, p)[i] == c[i]
    {
      OffImage(g, ix, {p}, i);
      OffImage(g, ix, Parents(g, p), i);
      OffImage(g, ix, g[p].excluded, i);
      OffImage(g, ix, g[p].hierarchy, i);
    }
  }

  /** Where `d` leaves the image of a subgraph but not that of `g`, it sits on a removed label. */
  lemma RemovedIndex<L(!new)>(g: Nodes<L>, ix: map<L, nat>, v: set<L>, i: int) returns (l: L)
    requires i in Image(ix, g.Keys) && i !in Image(ix, Minus(g, v).Keys)
    ensures l in g && l in v && l in ix && ix[l] as int == i
  {
    l :| l in g.Keys && l in ix && ix[l] as int == i;
  }

  // Facts about dense graphs.

  /** In a dense graph no ancestor of `p` is excluded by `p`. */
  lemma ParentsNotExcluded<L(!new)>(g: Nodes<L>, p: L, x: L)
    requires Dense(g) && p in g && x in Parents(g, p)
    ensures x !in g[p].excluded && x != p
  {
  }

  /** In a transitively closed graph reaching is having a direct edge. */
  lemma {:induction false} DenseReaches<L(!new)>(g: Nodes<L>, x: L, y: L)
    requires Closed(g) && Transitive(g) && x in g
    ensures Reaches(ChildMap(g), x, y) <==> y in g[x].hierarchy
  {
    if y in g[x].hierarchy {
      Edge(ChildMap(g), x, y);
    }
    if Reaches(ChildMap(g), x, y) {
      var p :| IsPath(ChildMap(g), p) && p[0] == x && p[|p| - 1] == y;
      PathIsEdge(g, p);
    }
  }

  lemma {:induction false} PathIsEdge<L(!new)>(g: Nodes<L>, p: seq<L>)
    requires Closed(g) && Transitive(g) && IsPath(ChildMap(g), p) && p[0] in g
    ensures p[|p| - 1] in g[p[0]].hierarchy
    decreases |p|
  {
    assert p[1] in Succ(ChildMap(g), p[0]);
    assert p[1] in g[p[0]].Targets();
    if |p| > 2 {
      var q := p[1..];
      assert IsPath(ChildMap(g), q) by {
        forall i | 0 <= i < |q| - 1 ensures q[i + 1] in Succ(ChildMap(g), q[i]) {
          assert q[i] == p[i + 1] && q[i + 1] == p[i + 2];
        }
      }
      PathIsEdge(g, q);
    }
  }

  /** Removing labels keeps a graph dense. */
  lemma DenseMinus<L(!new)>(g: Nodes<L>, v: set<L>)
    requires Dense(g)
    ensures Dense(Minus(g, v))
  {
    var h := Minus(g, v);
    MinusClosed(g, v);
    assert Transitive(h) by {
      forall x, y, z | x in h && y in h && y in h[x].hierarchy && z in h[y].hierarchy
        ensures z in h[x].hierarchy
      {
        assert z in g[x].hierarchy;
      }
    }
    assert Inherited(h) by {
      forall x, y, z | x in h && y in h && y in h[x].hierarchy && z in h[x].excluded
        ensures z in h[y].excluded
      {
        assert z in g[y].excluded;
      }
    }
  }

  /** Taking an induced subgraph keeps a graph dense. */
  lemma DenseInduced<L(!new)>(g: Nodes<L>, s: set<L>)
    requires Dense(g)
    ensures Dense(Induced(g, s))
  {
    MinusComplement(g, s);
    DenseMinus(g, g.Keys - s);
  }

  /** Indices survive removal. */
  lemma IndexedMinus<L(!new)>(g: Nodes<L>, ix: map<L, nat>, n: nat, v: set<L>)
    requires Indexed(g, ix, n)
    ensures Indexed(Minus(g, v), ix, n)
  {
  }

  // The pivot split.

  /** A state with the pivot TRUE is a state of branch 0. */
  lemma SplitForward0<L(!new)>(g: Nodes<L>, ix: map<L, nat>, c: seq<TriState>, p: L, d: seq<TriState>)
    requires Dense(g) && Indexed(g, ix, |c|) && p in g
    requires Extends(g, ix, c, d) && Val(d, ix, p) == TRUE
    ensures Extends(Minus(g, Removed0(g, p)), ix, Branch0(g, ix, c, p), d)
  {
    var v := Removed0(g, p);
    var h := Minus(g, v);
    var c0 := Branch0(g, ix, c, p);
    BranchesOff(g, ix, c, p);
    forall i | 0 <= i < |c0| && i !in Image(ix, h.Keys) ensures d[i] == c0[i] {
      if i in Image(ix, g.Keys) {
        var l := RemovedIndex(g, ix, v, i);
        Branch0Val(g, ix, c, p, l);
        assert Val(d, ix, l) == d[i] && Val(c0, ix, l) == c0[i];
        if l in g[p].excluded {
          assert Val(d, ix, l) != TRUE;
        } else if l in Parents(g, p) {
          assert p in g[l].hierarchy;
        }
      }
    }
  }

  /** A state with the pivot FALSE is a state of branch 1. */
  lemma SplitForward1<L(!new)>(g: Nodes<L>, ix: map<L, nat>, c: seq<TriState>, p: L, d: seq<TriState>)
    requires Dense(g) && Indexed(g, ix, |c|) && p in g
    requires Extends(g, ix, c, d) && Val(d, ix, p) == FALSE
    ensures Extends(Minus(g, Removed1(g, p)), ix, Branch1(g, ix, c, p), d)
  {
    var v := Removed1(g, p);
    var h := Minus(g, v);
    var c1 := Branch1(g, ix, c, p);
    BranchesOff(g, ix, c, p);
    forall i | 0 <= i < |c1| && i !in Image(ix, h.Keys) ensures d[i] == c1[i] {
      if i in Image(ix, g.Keys) {
        var l := RemovedIndex(g, ix, v, i);
        Branch1Val(g, ix, c, p, l);
        assert Val(d, ix, l) == d[i] && Val(c1, ix, l) == c1[i];
        if l in g[p].hierarchy {
          assert Val(d, ix, l) != TRUE;
        }
      }
    }
  }

  /** Every state of branch 0 is a state of the graph. */
  lemma SplitBack0<L(!new)>(g: Nodes<L>, ix: map<L, nat>, c: seq<TriState>, p: L, d: seq<TriState>)
    requires Dense(g) && Indexed(g, ix, |c|) && p in g
    requires Extends(Minus(g, Removed0(g, p)), ix, Branch0(g, ix, c, p), d)
    ensures Extends(g, ix, c, d)
  {
    var v := Removed0(g, p);
    var h := Minus(g, v);
    var c0 := Branch0(g, ix, c, p);
    BranchesOff(g, ix, c, p);
    // On the removed labels `d` holds what branch 0 wrote.
    assert forall l :: l in g && l in v ==> Val(d, ix, l) == Val(c0, ix, l) by {
      forall l | l in g && l in v ensures Val(d, ix, l) == Val(c0, ix, l) {
        InImage(g, ix, |c|, h.Keys, l);
      }
    }
    assert AgreesOff(Image(ix, g.Keys), c, d) by {
      forall i | 0 <= i < |c| && i !in Image(ix, g.Keys) ensures d[i] == c[i] {
        OffImage(g, ix, h.Keys, i);
      }
    }
    forall l | l in g ensures Val(d, ix, l) != UNSET {
      Branch0Val(g, ix, c, p, l);
    }
    forall x, y | x in g && y in g[x].hierarchy && Val(d, ix, y) == TRUE ensures Val(d, ix, x) == TRUE {
      assert y in g[x].Targets();
      Branch0Val(g, ix, c, p, x);
      Branch0Val(g, ix, c, p, y);
      if y in v {
        if y != p {
          assert p in g[y].hierarchy;
        }
        assert x in Parents(g, p);
        ParentsNotExcluded(g, p, x);
      } else if x in v {
        if x !in g[p].excluded && x != p {
          ParentsNotExcluded(g, p, x);
        }
      } else {
        assert y in h[x].hierarchy;
      }
    }
    forall x, y | x in g && y in g[x].excluded ensures !(Val(d, ix, x) == TRUE && Val(d, ix, y) == TRUE) {
      assert y in g && x in g[y].excluded;
      Branch0Val(g, ix, c, p, x);
      Branch0Val(g, ix, c, p, y);
      if x in v && Val(d, ix, x) == TRUE {
        if x != p {
          assert p in g[x].hierarchy;
        }
        assert y in g[p].excluded;
      } else if y in v && Val(d, ix, y) == TRUE {
        if y != p {
          assert p in g[y].hierarchy;
        }
        assert x in g[p].excluded;
      } else if x !in v && y !in v {
        assert y in h[x].excluded;
      }
    }
  }

  /** Every state of branch 1 is a state of the graph. */
  lemma SplitBack1<L(!new)>(g: Nodes<L>, ix: map<L, nat>, c: seq<TriState>, p: L, d: seq<TriState>)
    requires Dense(g) && Indexed(g, ix, |c|) && p in g
    requires Extends(Minus(g, Removed1(g, p)), ix, Branch1(g, ix, c, p), d)
    ensures Extends(g, ix, c, d)
  {
    var v := Removed1(g, p);
    var h := Minus(g, v);
    var c1 := Branch1(g, ix, c, p);
    BranchesOff(g, ix, c, p);
    assert forall l :: l in g && l in v ==> Val(d, ix, l) == FALSE by {
      forall l | l in g && l in v ensures Val(d, ix, l) == FALSE {
        InImage(g, ix, |c|, h.Keys, l);
        Branch1Val(g, ix, c, p, l);
      }
    }
    assert AgreesOff(Image(ix, g.Keys), c, d) by {
      forall i | 0 <= i < |c| && i !in Image(ix, g.Keys) ensures d[i] == c[i] {
        OffImage(g, ix, h.Keys, i);
      }
    }
    forall x, y | x in g && y in g[x].hierarchy && Val(d, ix, y) == TRUE ensures Val(d, ix, x) == TRUE {
      assert y in g[x].Targets();
      if x !in v {
        assert y in h[x].hierarchy;
      }
    }
    forall x, y | x in g && y in g[x].excluded ensures !(Val(d, ix, x) == TRUE && Val(d, ix, y) == TRUE) {
      assert y in g[x].Targets();
      if x !in v && y !in v {
        assert y in h[x].excluded;
      }
    }
  }

  /**
   * The recursion of `listStateSpace`: the states of a dense graph are those of branch 0 on the
   * graph without the labels branch 0 decides, together with those of branch 1 likewise.
   */
  lemma Split<L(!new)>(g: Nodes<L>, ix: map<L, nat>, c: seq<TriState>, p: L, d: seq<TriState>)
    requires Dense(g) && Indexed(g, ix, |c|) && p in g
    ensures Extends(g, ix, c, d) <==>
      Extends(Minus(g, Removed0(g, p)), ix, Branch0(g, ix, c, p), d) ||
      Extends(Minus(g, Removed1(g, p)), ix, Branch1(g, ix, c, p), d)
  {
    if Extends(g, ix, c, d) {
      if Val(d, ix, p) == TRUE {
        SplitForward0(g, ix, c, p, d);
      } else {
        SplitForward1(g, ix, c, p, d);
      }
    }
    if Extends(Minus(g, Removed0(g, p)), ix, Branch0(g, ix, c, p), d) {
      SplitBack0(g, ix, c, p, d);
    }
    if Extends(Minus(g, Removed1(g, p)), ix, Branch1(g, ix, c, p), d) {
      SplitBack1(g, ix, c, p, d);
    }
  }

  /** The base case: the only state of the empty graph is the configuration itself. */
  lemma ExtendsEmpty<L(!new)>(ix: map<L, nat>, c: seq<TriState>, d: seq<TriState>)
    ensures Extends(map[], ix, c, d) <==> d == c
  {
    assert Image(ix, {}) == {};
  }
}
