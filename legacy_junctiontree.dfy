/**
 * The earlier junction tree: nodes hold their member labels directly, candidate edges join
 * every pair of overlapping nodes, and a Prim search picks the maximum-weight spanning edges,
 * which it only reports: the tree's own edge set is never filled and no node loses an edge.
 */
module LegacyJunctionTrees {
  import opened Wrappers
  import JunctionTrees
  import LegacyGraphs
  import Spanning

  /** The number of labels two nodes share: the weight of an edge between them. */
  function Overlap<V(==,!new)>(a: JunctionTreeNode<V>, b: JunctionTreeNode<V>): nat {
    |a.members * b.members|
  }

  /** `e` joins `x` and `y`, in either direction. */
  predicate Joins<V(==,!new)>(e: JunctionTreeEdge<V>, x: JunctionTreeNode<V>, y: JunctionTreeNode<V>) {
    (e.first == x && e.second == y) || (e.first == y && e.second == x)
  }

  predicate Incident<V(==,!new)>(e: JunctionTreeEdge<V>, n: JunctionTreeNode<V>) {
    e.first == n || e.second == n
  }

  /** Some node already holds every label of `m`. */
  ghost predicate Consumed<V(!new)>(nodes: set<JunctionTreeNode<V>>, m: set<V>) {
    exists n :: n in nodes && m <= n.members
  }

  /** `c` shares no label with any other node. */
  ghost predicate Isolated<V(!new)>(nodes: set<JunctionTreeNode<V>>, c: JunctionTreeNode<V>) {
    forall b :: b in nodes && b != c ==> Overlap(c, b) == 0
  }

  /** `s` is a proper, non-empty part of the nodes that shares no label with the rest. */
  ghost predicate Cut<V(!new)>(nodes: set<JunctionTreeNode<V>>, s: set<JunctionTreeNode<V>>) {
    s != {} && s < nodes && forall a, b :: a in s && b in nodes && b !in s ==> Overlap(a, b) == 0
  }

  /** The overlaps leave some node isolated or split the nodes in two. */
  ghost predicate Disconnected<V(!new)>(nodes: set<JunctionTreeNode<V>>) {
    (exists c :: c in nodes && Isolated(nodes, c)) || exists s :: s <= nodes && Cut(nodes, s)
  }

  /**
   * `order` lists the nodes of `seen` once each, and every later node is attached to an
   * earlier one by the link before it, an edge of positive overlap weight.
   */
  ghost predicate Attached<V(!new)>(seen: set<JunctionTreeNode<V>>, order: seq<JunctionTreeNode<V>>, links: seq<JunctionTreeEdge<V>>) {
    |order| == |seen| && |links| + 1 == |order| &&
    (forall i, j :: 0 <= i < j < |order| ==> order[i] != order[j]) &&
    (forall i :: 0 <= i < |order| ==> order[i] in seen) && (forall n :: n in seen ==> n in order) &&
    (forall i :: 1 <= i < |order| ==> AttachedAt(order, links, i))
  }

  ghost predicate AttachedAt<V(!new)>(order: seq<JunctionTreeNode<V>>, links: seq<JunctionTreeEdge<V>>, i: int)
    requires 1 <= i < |order| && |links| + 1 == |order|
  {
    links[i - 1].weight > 0 && links[i - 1].weight == Overlap(links[i - 1].first, links[i - 1].second) &&
    exists j :: 0 <= j < i && Joins(links[i - 1], order[i], order[j])
  }

  /** When node `order[i]` was attached, no edge leaving the nodes before it weighed more. */
  ghost predicate GreedyAt<V(!new)>(nodes: set<JunctionTreeNode<V>>, order: seq<JunctionTreeNode<V>>, links: seq<JunctionTreeEdge<V>>, i: int)
    requires 1 <= i < |order| && |links| + 1 == |order|
  {
    forall a, b :: a in order[..i] && b in nodes && b !in order[..i] ==> Overlap(a, b) <= links[i - 1].weight
  }

  ghost predicate Greedy<V(!new)>(nodes: set<JunctionTreeNode<V>>, order: seq<JunctionTreeNode<V>>, links: seq<JunctionTreeEdge<V>>)
    requires |links| + 1 == |order|
  {
    forall i :: 1 <= i < |order| ==> GreedyAt(nodes, order, links, i)
  }

  /** No attachment order crosses a cut: a tree of positive-weight edges needs a connected graph. */
  lemma CutBlocksSpanning<V(!new)>(nodes: set<JunctionTreeNode<V>>, s: set<JunctionTreeNode<V>>, order: seq<JunctionTreeNode<V>>, links: seq<JunctionTreeEdge<V>>)
    requires Cut(nodes, s)
    ensures !Attached(nodes, order, links)
  {
    if Attached(nodes, order, links) {
      var out :| out in nodes && out !in s;
      var inside :| inside in s;
      var side := order[0] in s;
      // The first node of the order on the other side of the cut from order[0].
      var k :| 0 <= k < |order| && order[k] == (if side then out else inside);
      var i := FirstSwitch(order, s, side, k);
      assert AttachedAt(order, links, i);
      var j :| 0 <= j < i && Joins(links[i - 1], order[i], order[j]);
      var a := if order[i] in s then order[i] else order[j];
      var b := if order[i] in s then order[j] else order[i];
      assert a in s && b in nodes && b !in s;
      OverlapCommutes(a, b);
    }
  }

  /** With two nodes or more, an isolated node is a cut by itself. */
  lemma IsolatedCut<V(!new)>(nodes: set<JunctionTreeNode<V>>, c: JunctionTreeNode<V>)
    requires c in nodes && Isolated(nodes, c) && |nodes| >= 2
    ensures Cut(nodes, {c})
  {
    assert {c} <= nodes && |{c}| == 1 < |nodes|;
    assert {c} != nodes;
    forall a, b | a in {c} && b in nodes && b !in {c} ensures Overlap(a, b) == 0 {
      assert a == c && b != c;
    }
  }

  lemma OverlapCommutes<V(!new)>(a: JunctionTreeNode<V>, b: JunctionTreeNode<V>)
    ensures Overlap(a, b) == Overlap(b, a)
  {
    assert a.members * b.members == b.members * a.members;
  }

  /** The least position whose side of `s` differs from `side`, below a known one. */
  lemma FirstSwitch<V(!new)>(order: seq<JunctionTreeNode<V>>, s: set<JunctionTreeNode<V>>, side: bool, k: int) returns (i: int)
    requires 0 <= k < |order| && (order[k] in s) != side && (order[0] in s) == side
    ensures 1 <= i <= k && (order[i] in s) != side && forall j :: 0 <= j < i ==> (order[j] in s) == side
  {
    var m := 1;
    while m < k && (order[m] in s) == side
      invariant 1 <= m <= k
      invariant forall j :: 0 <= j < m ==> (order[j] in s) == side
    {
      m := m + 1;
    }
    i := m;
  }

  /** The weights of the links, in order. */
  ghost function Weights<V(!new)>(links: seq<JunctionTreeEdge<V>>): (r: seq<int>)
    ensures |r| == |links| && forall i :: 0 <= i < |links| ==> r[i] == links[i].weight
  {
    seq(|links|, i requires 0 <= i < |links| => links[i].weight)
  }

  /** The total weight of a tree given by its links. */
  ghost function Weight<V(!new)>(links: seq<JunctionTreeEdge<V>>): int {
    Spanning.Sum(Weights(links), 0, |links|)
  }

  /**
   * A spanning tree of positive-overlap edges between the nodes, given by the order in which it
   * reaches them and, for each later node, the position of the earlier node it hangs from.
   */
  ghost predicate SpanningTree<V(!new)>(older order: seq<JunctionTreeNode<V>>, nodes: set<JunctionTreeNode<V>>, par: seq<int>) {
    |order| == |nodes| && |par| + 1 == |order| &&
    (forall i, j :: 0 <= i < j < |order| ==> order[i] != order[j]) &&
    (forall i :: 0 <= i < |order| ==> order[i] in nodes) && (forall n :: n in nodes ==> n in order) &&
    (forall e :: 0 <= e < |par| ==> 0 <= par[e] <= e && Overlap(order[e + 1], order[par[e]]) > 0)
  }

  /** The overlap weights of the edges of such a tree. */
  ghost function TreeWeights<V(!new)>(order: seq<JunctionTreeNode<V>>, par: seq<int>): (r: seq<int>)
    ensures |r| == |par|
    ensures forall e :: 0 <= e < |par| && e + 1 < |order| && 0 <= par[e] < |order| ==> r[e] == Overlap(order[e + 1], order[par[e]])
  {
    seq(|par|, e requires 0 <= e < |par| => if e + 1 < |order| && 0 <= par[e] < |order| then Overlap(order[e + 1], order[par[e]]) else 0)
  }

  /** No spanning tree of positive-overlap edges between the nodes weighs more than `links`. */
  ghost predicate MaximumSpanning<V(!new)>(nodes: set<JunctionTreeNode<V>>, links: seq<JunctionTreeEdge<V>>) {
    forall order, par :: SpanningTree(order, nodes, par) ==> Spanning.Sum(TreeWeights(order, par), 0, |par|) <= Weight(links)
  }

  /** A greedy spanning tree is a heaviest one. */
  lemma GreedyHeaviest<V(!new)>(nodes: set<JunctionTreeNode<V>>, order: seq<JunctionTreeNode<V>>, links: seq<JunctionTreeEdge<V>>)
    requires Attached(nodes, order, links) && Greedy(nodes, order, links)
    ensures MaximumSpanning(nodes, links)
  {
    forall order', par | SpanningTree(order', nodes, par) ensures Spanning.Sum(TreeWeights(order', par), 0, |par|) <= Weight(links) {
      GreedyOutweighs(nodes, order, links, order', par);
    }
  }

  /**
   * Any spanning tree `order'`, `par` weighs no more than the greedy one: numbering the nodes by
   * the greedy order, each of its edges weighs at most every greedy link whose cut it crosses.
   */
  lemma GreedyOutweighs<V(!new)>(nodes: set<JunctionTreeNode<V>>, order: seq<JunctionTreeNode<V>>, links: seq<JunctionTreeEdge<V>>,
                                 order': seq<JunctionTreeNode<V>>, par: seq<int>)
    requires Attached(nodes, order, links) && Greedy(nodes, order, links) && SpanningTree(order', nodes, par)
    ensures Spanning.Sum(TreeWeights(order', par), 0, |par|) <= Weight(links)
  {
    var pi := Positions(nodes, order, links, order', par);
    var v, w := TreeWeights(order', par), Weights(links);
    forall e, c | 0 <= e < |v| && 0 <= c < |w| && Spanning.Lo(pi, par, e) <= c < Spanning.Hi(pi, par, e)
      ensures v[e] <= w[c]
    {
      CrossingLighter(nodes, order, links, order', par, pi, e, c);
    }
    Spanning.GreedyOutweighs(pi, par, v, w);
  }

  /** The positions in `order` of the nodes of `order'`. */
  lemma Positions<V(!new)>(nodes: set<JunctionTreeNode<V>>, order: seq<JunctionTreeNode<V>>, links: seq<JunctionTreeEdge<V>>,
                           order': seq<JunctionTreeNode<V>>, par: seq<int>) returns (pi: seq<int>)
    requires Attached(nodes, order, links) && SpanningTree(order', nodes, par)
    ensures Spanning.Tree(pi, par) && |pi| == |order'| && |order| == |order'|
    ensures forall j :: 0 <= j < |pi| ==> order[pi[j]] == order'[j]
  {
    pi := seq(|order'|, j requires 0 <= j < |order'| => Spanning.IndexOf(order, order'[j]));
    forall j | 0 <= j < |pi| ensures 0 <= pi[j] < |pi| && order[pi[j]] == order'[j] {
      assert order'[j] in nodes;
    }
    forall x | 0 <= x < |pi| ensures x in pi {
      assert order[x] in nodes;
      var j :| 0 <= j < |order'| && order'[j] == order[x];
      assert pi[j] == x;
    }
  }

  /** An edge of the other tree crossing greedy cut `c` weighs at most greedy link `c`. */
  lemma CrossingLighter<V(!new)>(nodes: set<JunctionTreeNode<V>>, order: seq<JunctionTreeNode<V>>, links: seq<JunctionTreeEdge<V>>,
                                 order': seq<JunctionTreeNode<V>>, par: seq<int>, pi: seq<int>, e: int, c: int)
    requires Attached(nodes, order, links) && Greedy(nodes, order, links) && SpanningTree(order', nodes, par)
    requires Spanning.Tree(pi, par) && |pi| == |order'| && |order| == |order'|
    requires forall j :: 0 <= j < |pi| ==> order[pi[j]] == order'[j]
    requires 0 <= e < |par| && 0 <= c < |links| && Spanning.Lo(pi, par, e) <= c < Spanning.Hi(pi, par, e)
    ensures Overlap(order'[e + 1], order'[par[e]]) <= links[c].weight
  {
    var p, q := pi[e + 1], pi[par[e]];
    var lo := if p <= q then order[p] else order[q];
    var hi := if p <= q then order[q] else order[p];
    assert GreedyAt(nodes, order, links, c + 1);
    assert lo in order[..c + 1];
    forall i | 0 <= i <= c ensures order[i] != hi { }
    assert hi in nodes;
    OverlapCommutes(lo, hi);
  }

  class JunctionTreeNode<V(==,!new)> {
    /** A copy of the member labels, fixed at construction. */
    const members: set<V>
    var edges: set<JunctionTreeEdge<V>>

    /** Copies the members one by one, so the node does not share the caller's set. */
    constructor (mems: set<V>)
      ensures members == mems && edges == {}
    {
      var copy: set<V> := {};
      var todo := mems;
      while todo != {}
        invariant todo <= mems && copy == mems - todo
        decreases |todo|
      {
        var v, rest := Take(todo);
        copy := copy + {v};
        todo := rest;
      }
      members := copy;
      edges := {};
    }

    /** Node equality (and hashing) looks at the members only. */
    predicate Equals(other: JunctionTreeNode<V>) {
      members == other.members
    }

    method AddEdge(e: JunctionTreeEdge<V>)
      modifies this
      ensures edges == old(edges) + {e}
    {
      edges := edges + {e};
    }

    function GetEdges(): set<JunctionTreeEdge<V>>
      reads this
    {
      edges
    }

    function GetMembers(): set<V> {
      members
    }

    /** The members of this node that `other` holds too, collected into a new set. */
    method GetOverlappingSet(other: JunctionTreeNode<V>) returns (overlapping: set<V>)
      ensures overlapping == members * other.members
    {
      overlapping := {};
      var todo := members;
      while todo != {}
        invariant todo <= members
        invariant overlapping == (members - todo) * other.members
        decreases |todo|
      {
        var member, rest := Take(todo);
        if member in other.members {
          overlapping := overlapping + {member};
        }
        todo := rest;
      }
    }

    /** Counts the members of this node that `other` holds too. */
    method GetOverlap(other: JunctionTreeNode<V>) returns (count: nat)
      ensures count == Overlap(this, other) && count <= |members|
    {
      count := 0;
      var todo := members;
      while todo != {}
        invariant todo <= members
        invariant count == |(members - todo) * other.members|
        decreases |todo|
      {
        var member, rest := Take(todo);
        if member in other.members {
          assert (members - rest) * other.members == (members - todo) * other.members + {member};
          count := count + 1;
        } else {
          assert (members - rest) * other.members == (members - todo) * other.members;
        }
        todo := rest;
      }
      assert members - todo == members;
      JunctionTrees.SubsetSize(members * other.members, members);
    }

    /** The other endpoint of every incident edge. */
    method GetNeighbors() returns (neighbors: set<JunctionTreeNode<V>>)
      ensures neighbors == set e | e in edges :: e.GetOther(this)
    {
      neighbors := {};
      var todo := edges;
      while todo != {}
        invariant todo <= edges
        invariant neighbors == set e | e in edges - todo :: e.GetOther(this)
        decreases |todo|
      {
        var e, rest := Take(todo);
        neighbors := neighbors + {e.GetOther(this)};
        todo := rest;
      }
    }

    /** Drops, through the iterator, every edge whose other endpoint equals `other`. */
    method RemoveEdge(other: JunctionTreeNode<V>)
      modifies this
      ensures edges == set e | e in old(edges) && !e.GetOther(this).Equals(other)
    {
      var todo := edges;
      var kept: set<JunctionTreeEdge<V>> := {};
      while todo != {}
        invariant todo <= old(edges) && edges == old(edges)
        invariant kept == set e | e in old(edges) - todo && !e.GetOther(this).Equals(other)
        decreases |todo|
      {
        var e, rest := Take(todo);
        if !e.GetOther(this).Equals(other) {
          kept := kept + {e};
        }
        todo := rest;
      }
      edges := kept;
    }
  }

  /** The shared labels are the same from either side, and so is their number. */
  lemma OverlapSymmetric<V(!new)>(a: JunctionTreeNode<V>, b: JunctionTreeNode<V>)
    ensures a.members * b.members == b.members * a.members
    ensures Overlap(a, b) == Overlap(b, a) && Overlap(a, b) <= |a.members| && Overlap(a, b) <= |b.members|
  {
    assert a.members * b.members == b.members * a.members;
    JunctionTrees.SubsetSize(a.members * b.members, a.members);
    JunctionTrees.SubsetSize(a.members * b.members, b.members);
  }

  class JunctionTreeEdge<V(==,!new)> {
    const first: JunctionTreeNode<V>
    const second: JunctionTreeNode<V>
    const weight: nat

    /** The weight is the overlap of the endpoints. */
    constructor (f: JunctionTreeNode<V>, s: JunctionTreeNode<V>)
      ensures first == f && second == s && weight == Overlap(f, s)
    {
      var w := f.GetOverlap(s);
      first := f;
      second := s;
      weight := w;
    }

    predicate Contains(node: JunctionTreeNode<V>) {
      node.Equals(first) || node.Equals(second)
    }

    /** `getOther(node)`: one of the two endpoints; a node that is neither gets `first`. */
    function GetOther(node: JunctionTreeNode<V>): (r: JunctionTreeNode<V>)
      ensures r == first || r == second
      ensures !Contains(node) ==> r == first
    {
      if node.Equals(first) then second else first
    }

    /** The guard at the head of `collectMessages`: a caller that is neither endpoint is refused. */
    function CheckCaller(caller: JunctionTreeNode<V>): (out: Outcome)
      ensures out.Pass? <==> Contains(caller)
      ensures out.Fail? ==> out.error == IllegalState
    {
      if !caller.Equals(first) && !caller.Equals(second) then Fail(IllegalState) else Pass
    }
  }

  /**
   * At a node of a valid tree, an incident edge leads to a different node, from which it
   * leads back; both ends pass the caller guard of `collectMessages`.
   */
  lemma OtherEnd<V(!new)>(nodes: set<JunctionTreeNode<V>>, n: JunctionTreeNode<V>, e: JunctionTreeEdge<V>)
    requires DistinctMembers(nodes) && EdgesValid(nodes) && n in nodes && e in n.edges
    ensures e.GetOther(n) in nodes && e.GetOther(n) != n && Joins(e, e.GetOther(n), n)
    ensures e.GetOther(e.GetOther(n)) == n
    ensures {e.first, e.second} == {n, e.GetOther(n)}
    ensures e.CheckCaller(n) == Pass && e.CheckCaller(e.GetOther(n)) == Pass
  {
  }

  /** A node whose members differ from both endpoints' is refused by the caller guard. */
  lemma StrangerRefused<V(!new)>(e: JunctionTreeEdge<V>, n: JunctionTreeNode<V>)
    requires n.members != e.first.members && n.members != e.second.members
    ensures e.CheckCaller(n) == Fail(IllegalState)
  {
  }

  /**
   * Node `equals` compares the member sets: an equivalence, under which a node overlaps an
   * equal node in all of its members.
   */
  lemma EqualsEquivalence<V(!new)>(a: JunctionTreeNode<V>, b: JunctionTreeNode<V>, c: JunctionTreeNode<V>)
    ensures a.Equals(a)
    ensures a.Equals(b) ==> b.Equals(a)
    ensures a.Equals(b) && b.Equals(c) ==> a.Equals(c)
    ensures a.Equals(b) ==> Overlap(a, b) == |a.members|
  {
    if a.Equals(b) {
      assert a.members * b.members == a.members;
    }
  }

  class JunctionTree<V(==,!new)> {
    var nodes: set<JunctionTreeNode<V>>
    /** Declared beside the nodes but never filled by any method. */
    var edges: set<JunctionTreeEdge<V>>

    /**
     * Node equality is by members, so distinct nodes hold distinct members; every incident
     * edge joins two distinct nodes of the tree, has the overlap as its positive weight and
     * is registered at both of its endpoints.
     */
    ghost predicate Valid()
      reads this`nodes, nodes
    {
      DistinctMembers(nodes) && EdgesValid(nodes)
    }

    constructor ()
      ensures nodes == {} && edges == {} && Valid()
    {
      nodes := {};
      edges := {};
    }

    /** In a valid tree no two listed nodes are equal, so the set is also a set under `equals`. */
    function GetNodeSet(): (r: set<JunctionTreeNode<V>>)
      reads this, nodes
      ensures Valid() ==> forall a, b :: a in r && b in r && a.Equals(b) ==> a == b
    {
      nodes
    }

    /** `getFirst`: the first node of the iteration; an empty tree has none to give. */
    method GetFirst() returns (r: Result<JunctionTreeNode<V>>)
      ensures r.Err? <==> nodes == {}
      ensures r.Err? ==> r.error == NoSuchElement
      ensures r.Ok? ==> r.value in nodes
    {
      if nodes == {} {
        return Err(NoSuchElement);
      }
      var n := Pick(nodes);
      return Ok(n);
    }

    /** Checks the members against the node in hash order. */
    method NodeConsumes(node: JunctionTreeNode<V>, members: set<V>) returns (r: bool)
      ensures r <==> members <= node.members
    {
      var todo := members;
      while todo != {}
        invariant todo <= members && members - todo <= node.members
        decreases |todo|
      {
        var member, rest := Take(todo);
        if member !in node.GetMembers() {
          return false;
        }
        todo := rest;
      }
      return true;
    }

    /** `addNode(m)`: nothing changes when a node already holds every label of `m`; otherwise one new node over `m` is added. */
    method AddNode(members: set<V>)
      requires Valid()
      modifies this`nodes
      ensures Valid() && edges == old(edges) && Consumed(nodes, members)
      ensures Consumed(old(nodes), members) ==> nodes == old(nodes)
      ensures !Consumed(old(nodes), members) ==>
        exists n :: n !in old(nodes) && fresh(n) && nodes == old(nodes) + {n} && n.members == members && n.edges == {}
    {
      var todo := nodes;
      while todo != {}
        invariant nodes == old(nodes) && todo <= nodes
        invariant forall n :: n in nodes - todo ==> !(members <= n.members)
        decreases |todo|
      {
        var node, rest := Take(todo);
        var c := NodeConsumes(node, members);
        if c {
          return;
        }
        todo := rest;
      }
      var n := new JunctionTreeNode(members);
      nodes := nodes + {n};
    }

    /** The first loop of `buildEdges`: the candidate edges from every node to every other; `curr` is the last node visited. */
    method BuildCandidates(ghost before: map<JunctionTreeNode<V>, set<JunctionTreeEdge<V>>>)
      returns (curr: JunctionTreeNode?<V>, unseen: set<JunctionTreeNode<V>>, ghost built: set<JunctionTreeEdge<V>>)
      requires Valid() && Kept(before, nodes)
      modifies nodes
      ensures Building(nodes, nodes, built, before)
      ensures unseen == nodes && (curr == null <==> nodes == {}) && (curr != null ==> curr in nodes)
    {
      curr, unseen, built := null, {}, {};
      var todo := nodes;
      while todo != {}
        invariant todo <= nodes && unseen == nodes - todo
        invariant (curr == null <==> unseen == {}) && (curr != null ==> curr in nodes)
        invariant Building(nodes, nodes - todo, built, before)
        decreases |todo|
      {
        var first, rest := Take(todo);
        built := AddEdgesFrom(first, nodes - todo, built, before);
        LegacyGraphs.DoneNext(nodes, todo, first);
        unseen := unseen + {first};
        curr := first;
        todo := rest;
      }
    }

    /** The inner loop: an edge from `first` to every node not equal to it. */
    method AddEdgesFrom(first: JunctionTreeNode<V>, ghost done: set<JunctionTreeNode<V>>, ghost built: set<JunctionTreeEdge<V>>,
                        ghost before: map<JunctionTreeNode<V>, set<JunctionTreeEdge<V>>>)
      returns (ghost built': set<JunctionTreeEdge<V>>)
      requires first in nodes && Building(nodes, done, built, before)
      modifies nodes
      ensures Building(nodes, done + {first}, built', before)
    {
      built' := built;
      var todo := nodes;
      while todo != {}
        invariant todo <= nodes
        invariant Building(nodes, done, built', before) && CoversFrom(first, nodes - todo, built')
        decreases |todo|
      {
        var second, rest := Take(todo);
        built' := AddCandidate(first, second, done, nodes - todo, built', before);
        LegacyGraphs.DoneNext(nodes, todo, second);
        todo := rest;
      }
      LegacyGraphs.DoneLast(nodes);
      CoversStep(nodes, done, first, built');
    }

    /** One step of the inner loop: the edge from `first` to `second` unless the two are equal. */
    method AddCandidate(first: JunctionTreeNode<V>, second: JunctionTreeNode<V>, ghost done: set<JunctionTreeNode<V>>,
                        ghost seconds: set<JunctionTreeNode<V>>, ghost built: set<JunctionTreeEdge<V>>,
                        ghost before: map<JunctionTreeNode<V>, set<JunctionTreeEdge<V>>>)
      returns (ghost built': set<JunctionTreeEdge<V>>)
      requires first in nodes && second in nodes && Building(nodes, done, built, before) && CoversFrom(first, seconds, built)
      modifies first, second
      ensures Building(nodes, done, built', before) && CoversFrom(first, seconds + {second}, built')
    {
      built' := built;
      if !first.Equals(second) {
        ghost var e := AddEdge(first, second);
        if e.weight > 0 {
          built' := built' + {e};
        }
      }
    }

    /** The heaviest edge of `es`, the first met among equals; null when `es` is empty. */
    static method Heaviest(es: set<JunctionTreeEdge<V>>) returns (best: JunctionTreeEdge?<V>)
      ensures best == null <==> es == {}
      ensures best != null ==> best in es && forall e :: e in es ==> e.weight <= best.weight
    {
      var maxCount: int := -1;
      best := null;
      var todo := es;
      while todo != {}
        invariant todo <= es
        invariant best == null <==> todo == es
        invariant best == null ==> maxCount == -1
        invariant best != null ==> best in es && best.weight == maxCount
        invariant maxCount >= -1 && forall e :: e in es - todo ==> e.weight <= maxCount
        decreases |todo|
      {
        var e, rest := Take(todo);
        if e.weight > maxCount {
          best := e;
          maxCount := e.weight;
        }
        todo := rest;
      }
    }

    /** The heaviest edge from a seen node to an unseen one, scanning the seen nodes in turn. */
    static method HeaviestCrossing(seen: set<JunctionTreeNode<V>>, unseen: set<JunctionTreeNode<V>>)
      returns (best: JunctionTreeEdge?<V>, ghost from: JunctionTreeNode?<V>)
      ensures best == null ==> forall a, e :: a in seen && e in a.edges ==> e.GetOther(a) !in unseen
      ensures best != null ==> from != null && from in seen && best in from.edges && best.GetOther(from) in unseen
      ensures best != null ==> forall a, e :: a in seen && e in a.edges && e.GetOther(a) in unseen ==> e.weight <= best.weight
    {
      var maxCount: int := -1;
      best, from := null, null;
      var todo := seen;
      while todo != {}
        invariant todo <= seen && maxCount >= -1
        invariant best == null ==> maxCount == -1 && forall a, e :: a in seen - todo && e in a.edges ==> e.GetOther(a) !in unseen
        invariant best != null ==> from != null && from in seen && best in from.edges && best.GetOther(from) in unseen && best.weight == maxCount
        invariant forall a, e :: a in seen - todo && e in a.edges && e.GetOther(a) in unseen ==> e.weight <= maxCount
        decreases |todo|
      {
        var node := Pick(todo);
        var pending := node.GetEdges();
        while pending != {}
          invariant pending <= node.edges && maxCount >= -1
          invariant best == null ==> maxCount == -1 && forall a, e :: a in seen - todo && e in a.edges ==> e.GetOther(a) !in unseen
          invariant best == null ==> forall e :: e in node.edges - pending ==> e.GetOther(node) !in unseen
          invariant best != null ==> from != null && from in seen && best in from.edges && best.GetOther(from) in unseen && best.weight == maxCount
          invariant forall a, e :: a in seen - todo && e in a.edges && e.GetOther(a) in unseen ==> e.weight <= maxCount
          invariant forall e :: e in node.edges - pending && e.GetOther(node) in unseen ==> e.weight <= maxCount
          decreases |pending|
        {
          var edge, others := Take(pending);
          if edge.weight > maxCount && edge.GetOther(node) in unseen {
            best, from := edge, node;
            maxCount := edge.weight;
          }
          pending := others;
        }
        todo := todo - {node};
      }
    }

    /** The first Prim round: the heaviest edge at the start node; a start node without edges fails. */
    method FirstRound(curr: JunctionTreeNode<V>, ghost built: set<JunctionTreeEdge<V>>)
      returns (stop: Option<Outcome>, seen: set<JunctionTreeNode<V>>, unseen: set<JunctionTreeNode<V>>,
               finalEdges: set<JunctionTreeEdge<V>>, ghost order: seq<JunctionTreeNode<V>>, ghost links: seq<JunctionTreeEdge<V>>)
      requires Valid() && Covers(nodes, nodes, built) && Registered(nodes, built) && curr in nodes
      ensures stop.Some? ==> stop == Some(Fail(IllegalState)) && Isolated(nodes, curr)
      ensures stop.None? ==>
        Growing(nodes, seen, unseen, finalEdges, order, links) && links != [] && finalEdges != {} && |unseen| < |nodes|
    {
      var found := Heaviest(curr.GetEdges());
      if found == null {
        CrossingBound(nodes, built, {curr}, nodes - {curr}, 0);
        return Some(Fail(IllegalState)), {}, nodes, {}, [], [];
      }
      var bestEdge: JunctionTreeEdge<V> := found;
      assert Attached({curr}, [curr], []);
      assert JunctionTrees.Listed<JunctionTreeEdge<V>>([]) == {};
      Grow(nodes, built, {curr}, nodes - {curr}, {}, [curr], [], curr, bestEdge);
      stop := None;
      order, links := [curr] + [bestEdge.GetOther(curr)], [] + [bestEdge];
      finalEdges := {} + {bestEdge};
      // The start node is an endpoint of its edge: these are the sets formed by moving both
      // endpoints from the unseen (all nodes) to the seen (none) nodes.
      unseen := nodes - {curr} - {bestEdge.first} - {bestEdge.second};
      seen := {curr} + {bestEdge.first} + {bestEdge.second};
    }

    /** A later Prim round: the heaviest edge from the nodes seen to the rest, or a failure. */
    method NextRound(ghost built: set<JunctionTreeEdge<V>>, seen: set<JunctionTreeNode<V>>, unseen: set<JunctionTreeNode<V>>,
                     finalEdges: set<JunctionTreeEdge<V>>, ghost order: seq<JunctionTreeNode<V>>, ghost links: seq<JunctionTreeEdge<V>>)
      returns (stop: Option<Outcome>, seen': set<JunctionTreeNode<V>>, unseen': set<JunctionTreeNode<V>>,
               finalEdges': set<JunctionTreeEdge<V>>, ghost order': seq<JunctionTreeNode<V>>, ghost links': seq<JunctionTreeEdge<V>>)
      requires Valid() && Covers(nodes, nodes, built) && Registered(nodes, built)
      requires Growing(nodes, seen, unseen, finalEdges, order, links) && links != [] && unseen != {}
      ensures stop.Some? ==> stop == Some(Fail(IllegalState)) && Cut(nodes, seen)
      ensures stop.None? ==>
        Growing(nodes, seen', unseen', finalEdges', order', links') && links' != [] && finalEdges' != {} && |unseen'| < |unseen|
    {
      var found;
      ghost var from;
      found, from := HeaviestCrossing(seen, unseen);
      if found == null {
        CrossingBound(nodes, built, seen, unseen, 0);
        return Some(Fail(IllegalState)), seen, unseen, finalEdges, order, links;
      }
      var bestEdge: JunctionTreeEdge<V> := found;
      Grow(nodes, built, seen, unseen, finalEdges, order, links, from, bestEdge);
      stop := None;
      order', links' := order + [bestEdge.GetOther(from)], links + [bestEdge];
      finalEdges' := finalEdges + {bestEdge};
      unseen' := unseen - {bestEdge.first} - {bestEdge.second};
      seen' := seen + {bestEdge.first} + {bestEdge.second};
    }

    /** The Prim rounds of `buildEdges`, over the candidate edges; nothing is changed. */
    method Span(curr: JunctionTreeNode?<V>, unseen0: set<JunctionTreeNode<V>>, ghost built: set<JunctionTreeEdge<V>>)
      returns (out: Outcome, finalEdges: set<JunctionTreeEdge<V>>, ghost order: seq<JunctionTreeNode<V>>, ghost links: seq<JunctionTreeEdge<V>>)
      requires Valid() && Covers(nodes, nodes, built) && Registered(nodes, built)
      requires unseen0 == nodes && (curr == null <==> nodes == {}) && (curr != null ==> curr in nodes)
      ensures out.Fail? ==> out.error == IllegalState && Disconnected(nodes)
      ensures out.Pass? ==> (links == [] <==> nodes == {}) && (links == [] ==> finalEdges == {})
      ensures out.Pass? && links != [] ==>
        Attached(nodes, order, links) && Greedy(nodes, order, links) && finalEdges == JunctionTrees.Listed(links) && |finalEdges| + 1 == |nodes|
    {
      order, links := [], [];
      finalEdges := {};
      var unseen := unseen0;
      var seen: set<JunctionTreeNode<V>> := {};
      while unseen != {}
        invariant finalEdges == {} ==> seen == {} && unseen == nodes && links == []
        invariant finalEdges != {} ==> Growing(nodes, seen, unseen, finalEdges, order, links) && links != []
        decreases |unseen|
      {
        var stop;
        if finalEdges == {} {
          stop, seen, unseen, finalEdges, order, links := FirstRound(curr, built);
        } else {
          stop, seen, unseen, finalEdges, order, links := NextRound(built, seen, unseen, finalEdges, order, links);
        }
        if stop.Some? {
          return stop.value, finalEdges, order, links;
        }
      }
      out := Pass;
    }

    /**
     * `buildEdges`: registers the candidate edge from every node to every other node it
     * overlaps, then grows a spanning tree the way Prim's algorithm does, each round taking the
     * heaviest edge from the nodes seen to the rest. The chosen edges, `finalEdges`, are only
     * printed: the tree's edge set stays as it was and every node keeps all its candidates.
     * It fails when the start node has no edge, or when no edge leaves the nodes seen.
     */
    method BuildEdges() returns (out: Outcome, finalEdges: set<JunctionTreeEdge<V>>,
                                 ghost order: seq<JunctionTreeNode<V>>, ghost links: seq<JunctionTreeEdge<V>>)
      requires Valid()
      modifies nodes
      ensures Valid() && nodes == old(nodes) && edges == old(edges) && Candidates(nodes, nodes)
      ensures forall n :: n in nodes ==> old(n.edges) <= n.edges
      ensures out.Fail? ==> out.error == IllegalState && Disconnected(nodes)
      ensures out.Pass? && nodes == {} ==> finalEdges == {}
      ensures out.Pass? && nodes != {} ==>
        Attached(nodes, order, links) && Greedy(nodes, order, links) && finalEdges == JunctionTrees.Listed(links) && |finalEdges| + 1 == |nodes|
      ensures out.Pass? ==> MaximumSpanning(nodes, links)
    {
      var curr, unseen;
      ghost var built;
      ghost var before := map n | n in nodes :: n.edges;
      curr, unseen, built := BuildCandidates(before);
      CandidatesRegistered(nodes, built);
      out, finalEdges, order, links := Span(curr, unseen, built);
      if out.Pass? && nodes != {} {
        GreedyHeaviest(nodes, order, links);
      }
    }

    /** Registers the edge at both endpoints only when the overlap weight is nonzero. */
    method AddEdge(first: JunctionTreeNode<V>, second: JunctionTreeNode<V>) returns (ghost e: JunctionTreeEdge<V>)
      modifies first, second
      ensures fresh(e) && e.first == first && e.second == second && e.weight == Overlap(first, second)
      ensures e.weight != 0 ==> first.edges == old(first.edges) + {e} && second.edges == old(second.edges) + {e}
      ensures e.weight == 0 ==> first.edges == old(first.edges) && second.edges == old(second.edges)
      ensures old(EdgesValid(nodes)) && first in nodes && second in nodes && first != second ==> EdgesValid(nodes)
    {
      var newEdge := new JunctionTreeEdge(first, second);
      e := newEdge;
      if newEdge.weight != 0 {
        first.AddEdge(newEdge);
        second.AddEdge(newEdge);
      }
    }
  }

  /**
   * A tree whose Prim search succeeds over two nodes or more has no cut and no isolated node:
   * failure and success of `buildEdges` are told apart by whether the overlaps connect the nodes.
   */
  lemma SpanningConnected<V(!new)>(nodes: set<JunctionTreeNode<V>>, order: seq<JunctionTreeNode<V>>, links: seq<JunctionTreeEdge<V>>)
    requires Attached(nodes, order, links) && |nodes| >= 2
    ensures forall s :: !Cut(nodes, s)
    ensures forall c :: c in nodes ==> !Isolated(nodes, c)
  {
    forall s ensures !Cut(nodes, s) {
      if Cut(nodes, s) {
        CutBlocksSpanning(nodes, s, order, links);
      }
    }
    forall c | c in nodes ensures !Isolated(nodes, c) {
      if Isolated(nodes, c) {
        IsolatedCut(nodes, c);
        CutBlocksSpanning(nodes, {c}, order, links);
      }
    }
  }

  /** Every node of `firsts` has its edge to each other node it overlaps registered at it. */
  ghost predicate Candidates<V(!new)>(nodes: set<JunctionTreeNode<V>>, firsts: set<JunctionTreeNode<V>>)
    reads nodes
  {
    forall a, b :: a in firsts && a in nodes && b in nodes && a != b && Overlap(a, b) > 0 ==>
      exists e :: e in a.edges && e.first == a && e.second == b
  }

  /** `built` holds an edge from every node of `firsts` to each other node it overlaps. */
  ghost predicate Covers<V(!new)>(nodes: set<JunctionTreeNode<V>>, firsts: set<JunctionTreeNode<V>>, built: set<JunctionTreeEdge<V>>) {
    forall a, b :: a in firsts && b in nodes && a != b && Overlap(a, b) > 0 ==>
      exists e :: e in built && e.first == a && e.second == b
  }

  /** Every edge of `built` joins two nodes, weighs their overlap and is registered at both. */
  ghost predicate Registered<V(!new)>(nodes: set<JunctionTreeNode<V>>, built: set<JunctionTreeEdge<V>>)
    reads nodes
  {
    forall e :: e in built ==>
      e.first in nodes && e.second in nodes && e.weight == Overlap(e.first, e.second) &&
      e in e.first.edges && e in e.second.edges
  }

  /** The state of the candidate loops: a valid tree, the candidates from `firsts` built and registered, no edge lost. */
  ghost predicate Building<V(!new)>(nodes: set<JunctionTreeNode<V>>, firsts: set<JunctionTreeNode<V>>, built: set<JunctionTreeEdge<V>>,
                                    before: map<JunctionTreeNode<V>, set<JunctionTreeEdge<V>>>)
    reads nodes
  {
    DistinctMembers(nodes) && EdgesValid(nodes) && Covers(nodes, firsts, built) && Registered(nodes, built) && Kept(before, nodes)
  }

  /** `built` holds an edge from `first` to each other node of `seconds` it overlaps. */
  ghost predicate CoversFrom<V(!new)>(first: JunctionTreeNode<V>, seconds: set<JunctionTreeNode<V>>, built: set<JunctionTreeEdge<V>>) {
    forall b :: b in seconds && b != first && Overlap(first, b) > 0 ==>
      exists e :: e in built && e.first == first && e.second == b
  }

  lemma CoversStep<V(!new)>(nodes: set<JunctionTreeNode<V>>, done: set<JunctionTreeNode<V>>, first: JunctionTreeNode<V>, built: set<JunctionTreeEdge<V>>)
    requires Covers(nodes, done, built) && CoversFrom(first, nodes, built)
    ensures Covers(nodes, done + {first}, built)
  {
  }

  /** Every node of `nodes` still has each edge it had in the snapshot `before`. */
  ghost predicate Kept<V(!new)>(before: map<JunctionTreeNode<V>, set<JunctionTreeEdge<V>>>, nodes: set<JunctionTreeNode<V>>)
    reads nodes
  {
    forall n :: n in nodes && n in before ==> before[n] <= n.edges
  }

  /** Distinct nodes of the tree hold distinct members. */
  ghost predicate DistinctMembers<V(!new)>(nodes: set<JunctionTreeNode<V>>) {
    forall a, b :: a in nodes && b in nodes && a != b ==> a.members != b.members
  }

  /** Built and registered candidate edges are candidate edges at their first endpoints. */
  lemma CandidatesRegistered<V(!new)>(nodes: set<JunctionTreeNode<V>>, built: set<JunctionTreeEdge<V>>)
    requires Covers(nodes, nodes, built) && Registered(nodes, built)
    ensures Candidates(nodes, nodes)
  {
    forall a, b | a in nodes && b in nodes && a != b && Overlap(a, b) > 0
      ensures exists e :: e in a.edges && e.first == a && e.second == b
    {
      var e :| e in built && e.first == a && e.second == b;
    }
  }

  /**
   * When every edge from `seen` to `unseen` weighs at most `w`, so does every overlap across:
   * an overlapping pair always has its candidate edge.
   */
  lemma CrossingBound<V(!new)>(nodes: set<JunctionTreeNode<V>>, built: set<JunctionTreeEdge<V>>,
                               seen: set<JunctionTreeNode<V>>, unseen: set<JunctionTreeNode<V>>, w: int)
    requires Covers(nodes, nodes, built) && Registered(nodes, built)
    requires seen + unseen == nodes && seen * unseen == {} && w >= 0
    requires forall a, e :: a in seen && e in a.edges && e.GetOther(a) in unseen ==> e.weight <= w
    ensures forall a, b :: a in seen && b in nodes && b !in seen ==> Overlap(a, b) <= w
  {
    forall a, b | a in seen && b in nodes && b !in seen ensures Overlap(a, b) <= w {
      if Overlap(a, b) > 0 {
        var e :| e in built && e.first == a && e.second == b;
        assert e in a.edges && e.GetOther(a) == b && b in unseen;
        assert e.weight <= w;
      }
    }
  }

  /** The state of the Prim rounds: the nodes seen, attached greedily by the chosen edges. */
  ghost predicate Growing<V(!new)>(nodes: set<JunctionTreeNode<V>>, seen: set<JunctionTreeNode<V>>, unseen: set<JunctionTreeNode<V>>,
                                   finalEdges: set<JunctionTreeEdge<V>>, order: seq<JunctionTreeNode<V>>, links: seq<JunctionTreeEdge<V>>)
    reads nodes
  {
    seen + unseen == nodes && seen * unseen == {} &&
    Attached(seen, order, links) && Greedy(nodes, order, links) &&
    finalEdges == JunctionTrees.Listed(links) && |finalEdges| == |links| &&
    forall e :: e in finalEdges ==>
      e.first in seen && e.second in seen && e in e.first.edges && e in e.second.edges
  }

  /** One more node, joined to a seen one by `best`, keeps the order attached. */
  lemma AttachedExtend<V(!new)>(seen: set<JunctionTreeNode<V>>, order: seq<JunctionTreeNode<V>>, links: seq<JunctionTreeEdge<V>>,
                                from: JunctionTreeNode<V>, x: JunctionTreeNode<V>, best: JunctionTreeEdge<V>)
    requires Attached(seen, order, links) && from in seen && x !in seen
    requires Joins(best, x, from) && best.weight > 0 && best.weight == Overlap(best.first, best.second)
    ensures Attached(seen + {best.first} + {best.second}, order + [x], links + [best])
  {
    assert seen + {best.first} + {best.second} == seen + {x};
    var order', links' := order + [x], links + [best];
    forall k | 1 <= k < |order'| ensures AttachedAt(order', links', k) {
      if k < |order| {
        assert AttachedAt(order, links, k);
        var j :| 0 <= j < k && Joins(links[k - 1], order[k], order[j]);
        assert Joins(links'[k - 1], order'[k], order'[j]);
      } else {
        var j :| 0 <= j < |order| && order[j] == from;
        assert Joins(links'[k - 1], order'[k], order'[j]);
      }
    }
  }

  /** A link weighing at least every overlap leaving the order keeps the order greedy. */
  lemma GreedyExtend<V(!new)>(nodes: set<JunctionTreeNode<V>>, order: seq<JunctionTreeNode<V>>, links: seq<JunctionTreeEdge<V>>,
                              x: JunctionTreeNode<V>, best: JunctionTreeEdge<V>)
    requires |links| + 1 == |order| && Greedy(nodes, order, links)
    requires forall a, b :: a in order && b in nodes && b !in order ==> Overlap(a, b) <= best.weight
    ensures Greedy(nodes, order + [x], links + [best])
  {
    var order', links' := order + [x], links + [best];
    forall k | 1 <= k < |order'| ensures GreedyAt(nodes, order', links', k) {
      if k < |order| {
        assert GreedyAt(nodes, order, links, k);
        assert order'[..k] == order[..k];
      } else {
        assert order'[..k] == order;
      }
    }
  }

  /** Moving the new node across keeps the seen and unseen nodes a partition, and shrinks the unseen. */
  lemma PartitionStep<V(!new)>(nodes: set<JunctionTreeNode<V>>, seen: set<JunctionTreeNode<V>>, unseen: set<JunctionTreeNode<V>>,
                               from: JunctionTreeNode<V>, x: JunctionTreeNode<V>, best: JunctionTreeEdge<V>)
    requires seen + unseen == nodes && seen * unseen == {} && from in seen && x in unseen
    requires {best.first, best.second} == {from, x}
    ensures (seen + {best.first} + {best.second}) + (unseen - {best.first} - {best.second}) == nodes
    ensures (seen + {best.first} + {best.second}) * (unseen - {best.first} - {best.second}) == {}
    ensures |unseen - {best.first} - {best.second}| < |unseen|
  {
    assert seen + {best.first} + {best.second} == seen + {x};
    assert unseen - {best.first} - {best.second} == unseen - {x};
  }

  /** The new link is not an old one, and it is registered with both endpoints seen. */
  lemma LinksStep<V(!new)>(seen: set<JunctionTreeNode<V>>, finalEdges: set<JunctionTreeEdge<V>>, links: seq<JunctionTreeEdge<V>>,
                           from: JunctionTreeNode<V>, x: JunctionTreeNode<V>, best: JunctionTreeEdge<V>)
    requires finalEdges == JunctionTrees.Listed(links) && |finalEdges| == |links|
    requires forall e :: e in finalEdges ==> e.first in seen && e.second in seen && e in e.first.edges && e in e.second.edges
    requires from in seen && x !in seen && {best.first, best.second} == {from, x}
    requires best in best.first.edges && best in best.second.edges
    ensures finalEdges + {best} == JunctionTrees.Listed(links + [best]) && |finalEdges + {best}| == |links + [best]|
    ensures forall e :: e in finalEdges + {best} ==>
      e.first in seen + {best.first} + {best.second} && e.second in seen + {best.first} + {best.second} &&
      e in e.first.edges && e in e.second.edges
  {
    assert best !in finalEdges by {
      assert x == best.first || x == best.second;
    }
    assert JunctionTrees.Listed(links + [best]) == finalEdges + {best};
  }

  /** A Prim round: the heaviest edge leaving the nodes seen attaches one node more. */
  lemma Grow<V(!new)>(nodes: set<JunctionTreeNode<V>>, built: set<JunctionTreeEdge<V>>,
                      seen: set<JunctionTreeNode<V>>, unseen: set<JunctionTreeNode<V>>,
                      finalEdges: set<JunctionTreeEdge<V>>, order: seq<JunctionTreeNode<V>>, links: seq<JunctionTreeEdge<V>>,
                      from: JunctionTreeNode<V>, best: JunctionTreeEdge<V>)
    requires DistinctMembers(nodes) && EdgesValid(nodes) && Covers(nodes, nodes, built) && Registered(nodes, built)
    requires Growing(nodes, seen, unseen, finalEdges, order, links)
    requires from in seen && best in from.edges && best.GetOther(from) in unseen
    requires forall a, e :: a in seen && e in a.edges && e.GetOther(a) in unseen ==> e.weight <= best.weight
    ensures {best.first, best.second} == {from, best.GetOther(from)}
    ensures |unseen - {best.first} - {best.second}| < |unseen|
    ensures Growing(nodes, seen + {best.first} + {best.second}, unseen - {best.first} - {best.second}, finalEdges + {best},
                    order + [best.GetOther(from)], links + [best])
  {
    var x := best.GetOther(from);
    OtherEnd(nodes, from, best);
    PartitionStep(nodes, seen, unseen, from, x, best);
    CrossingBound(nodes, built, seen, unseen, best.weight);
    AttachedExtend(seen, order, links, from, x, best);
    GreedyExtend(nodes, order, links, x, best);
    LinksStep(seen, finalEdges, links, from, x, best);
  }

  /** Every incident edge joins two distinct nodes, weighs their positive overlap, and is at both ends. */
  ghost predicate EdgesValid<V(!new)>(nodes: set<JunctionTreeNode<V>>)
    reads nodes
  {
    forall n, e :: n in nodes && e in n.edges ==>
      Incident(e, n) && e.first in nodes && e.second in nodes && e.first != e.second &&
      e.weight == Overlap(e.first, e.second) && e.weight > 0 &&
      e in e.first.edges && e in e.second.edges
  }
}
