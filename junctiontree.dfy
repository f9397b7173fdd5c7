/**
 * The junction tree: cliques of the triangulated graph as nodes, joined by the maximum-weight
 * spanning tree of their overlaps, and the two passes of messages over it.
 */
module JunctionTrees {
  import opened Wrappers
  import opened Names
  import opened Configurations
  import opened Factors
  import Spanning

  /** The indices of the members: the bits a new node sets. */
  function Indices<L(==,!new)>(ns: NameSpace<L>, mems: set<L>): set<nat> {
    set v | v in mems && v in ns.mapping :: ns.mapping[v]
  }

  /** The number of classes two nodes share: the weight of an edge between them. */
  function Overlap<L(==,!new)>(a: JunctionTreeNode<L>, b: JunctionTreeNode<L>): nat {
    |a.members * b.members|
  }

  /** `e` joins `x` and `y`, in either direction. */
  predicate Joins<L(==,!new)>(e: JunctionTreeEdge<L>, x: JunctionTreeNode<L>, y: JunctionTreeNode<L>) {
    (e.first == x && e.second == y) || (e.first == y && e.second == x)
  }

  predicate Incident<L(==,!new)>(e: JunctionTreeEdge<L>, n: JunctionTreeNode<L>) {
    e.first == n || e.second == n
  }

  /** Some node's members already hold all of `bits`. */
  ghost predicate Consumed<L(!new)>(nodes: set<JunctionTreeNode<L>>, bits: set<nat>) {
    exists n :: n in nodes && bits <= n.members
  }

  /** `c` shares no class with any other node. */
  ghost predicate Isolated<L(!new)>(nodes: set<JunctionTreeNode<L>>, c: JunctionTreeNode<L>) {
    forall b :: b in nodes && b != c ==> Overlap(c, b) == 0
  }

  /** `s` is a proper, non-empty part of the nodes that shares no class with the rest. */
  ghost predicate Cut<L(!new)>(nodes: set<JunctionTreeNode<L>>, s: set<JunctionTreeNode<L>>) {
    s != {} && s < nodes && forall a, b :: a in s && b in nodes && b !in s ==> Overlap(a, b) == 0
  }

  ghost function Listed<T>(s: seq<T>): set<T> {
    set x | x in s
  }

  /**
   * `order` lists the nodes of `seen` once each, and every later node is attached to an
   * earlier one by the link before it, an edge of positive overlap weight.
   */
  ghost predicate Attached<L(!new)>(seen: set<JunctionTreeNode<L>>, order: seq<JunctionTreeNode<L>>, links: seq<JunctionTreeEdge<L>>) {
    |order| == |seen| && |links| + 1 == |order| &&
    (forall i, j :: 0 <= i < j < |order| ==> order[i] != order[j]) &&
    (forall i :: 0 <= i < |order| ==> order[i] in seen) && (forall n :: n in seen ==> n in order) &&
    (forall i :: 1 <= i < |order| ==> AttachedAt(order, links, i))
  }

  ghost predicate AttachedAt<L(!new)>(order: seq<JunctionTreeNode<L>>, links: seq<JunctionTreeEdge<L>>, i: int)
    requires 1 <= i < |order| && |links| + 1 == |order|
  {
    links[i - 1].weight > 0 && links[i - 1].weight == Overlap(links[i - 1].first, links[i - 1].second) &&
    exists j :: 0 <= j < i && Joins(links[i - 1], order[i], order[j])
  }

  /** When node `order[i]` was attached, no edge leaving the nodes before it weighed more. */
  ghost predicate GreedyAt<L(!new)>(nodes: set<JunctionTreeNode<L>>, order: seq<JunctionTreeNode<L>>, links: seq<JunctionTreeEdge<L>>, i: int)
    requires 1 <= i < |order| && |links| + 1 == |order|
  {
    forall a, b :: a in order[..i] && b in nodes && b !in order[..i] ==> Overlap(a, b) <= links[i - 1].weight
  }

  ghost predicate Greedy<L(!new)>(nodes: set<JunctionTreeNode<L>>, order: seq<JunctionTreeNode<L>>, links: seq<JunctionTreeEdge<L>>)
    requires |links| + 1 == |order|
  {
    forall i :: 1 <= i < |order| ==> GreedyAt(nodes, order, links, i)
  }

  /** No attachment order crosses a cut: a tree of positive-weight edges needs a connected graph. */
  lemma CutBlocksSpanning<L(!new)>(nodes: set<JunctionTreeNode<L>>, s: set<JunctionTreeNode<L>>, order: seq<JunctionTreeNode<L>>, links: seq<JunctionTreeEdge<L>>)
    requires Cut(nodes, s)
    ensures !Attached(nodes, order, links)
  {
    if Attached(nodes, order, links) {
      var out :| out in nodes && out !in s;
      var inside :| inside in s;
      var side := order[0] in s;
      // The first node of the order on the other side of the cut from order[0].
      var k :| 0 <= k < |order| && order[k] == (if side then out else inside);
      var i := FirstSwitch(order, s, side, k);
      assert AttachedAt(order, links, i);
      var j :| 0 <= j < i && Joins(links[i - 1], order[i], order[j]);
      var a := if order[i] in s then order[i] else order[j];
      var b := if order[i] in s then order[j] else order[i];
      assert a in s && b in nodes && b !in s;
      OverlapCommutes(a, b);
    }
  }

  lemma OverlapCommutes<L(!new)>(a: JunctionTreeNode<L>, b: JunctionTreeNode<L>)
    ensures Overlap(a, b) == Overlap(b, a)
  {
    assert a.members * b.members == b.members * a.members;
  }

  /** The least position whose side of `s` differs from `side`, below a known one. */
  lemma FirstSwitch<L(!new)>(order: seq<JunctionTreeNode<L>>, s: set<JunctionTreeNode<L>>, side: bool, k: int) returns (i: int)
    requires 0 <= k < |order| && (order[k] in s) != side && (order[0] in s) == side
    ensures 1 <= i <= k && (order[i] in s) != side && forall j :: 0 <= j < i ==> (order[j] in s) == side
  {
    i := k;
    var m := 1;
    while m < k && (order[m] in s) == side
      invariant 1 <= m <= k
      invariant forall j :: 0 <= j < m ==> (order[j] in s) == side
    {
      m := m + 1;
    }
    i := m;
  }

  class JunctionTreeNode<L(==,!new)> {
    /** The bitset of member class indices, fixed at construction. */
    const members: set<nat>
    var edges: set<JunctionTreeEdge<L>>
    var factor: Factor
    const numClasses: nat
    const nameSpace: NameSpace<L>

    /** Sets the bit of each member's index; every member must be a known class. */
    constructor (mems: set<L>, numClasses: nat, nameSpace: NameSpace<L>)
      requires nameSpace.Valid() && forall v :: v in mems ==> v in nameSpace.names
      ensures this.members == Indices(nameSpace, mems) && edges == {}
      ensures this.numClasses == numClasses && this.nameSpace == nameSpace
      ensures fresh(factor) && factor.dist == map[] && factor.vars == {}
    {
      var bits: set<nat> := {};
      var todo := mems;
      while todo != {}
        invariant todo <= mems
        invariant bits == Indices(nameSpace, mems - todo)
        decreases todo
      {
        var v := Pick(todo);
        var i := nameSpace.GetIndex(v).value;
        bits := bits + {i};
        todo := todo - {v};
      }
      members := bits;
      edges := {};
      factor := new Factor();
      this.numClasses := numClasses;
      this.nameSpace := nameSpace;
    }

    /** Node equality (and hashing) looks at the members only. */
    predicate Equals(other: JunctionTreeNode<L>) {
      members == other.members
    }

    method AddEdge(e: JunctionTreeEdge<L>)
      modifies this
      ensures edges == old(edges) + {e} && factor == old(factor)
    {
      edges := edges + {e};
    }

    function GetEdges(): set<JunctionTreeEdge<L>>
      reads this
    {
      edges
    }

    /** The classes both nodes hold; computed on a copy, so neither side changes. */
    function GetOverlappingSet(other: JunctionTreeNode<L>): (s: set<nat>)
      ensures forall i :: i in s <==> i in members && i in other.members
    {
      other.members * members
    }

    function GetOverlap(other: JunctionTreeNode<L>): (k: nat)
      ensures k == Overlap(this, other) && k <= |members|
    {
      assert other.members * members == members * other.members;
      assert members * other.members <= members;
      SubsetSize(members * other.members, members);
      |GetOverlappingSet(other)|
    }

    /** The other endpoint of every incident edge. */
    method GetNeighbors() returns (neighbors: set<JunctionTreeNode<L>>)
      ensures neighbors == set e | e in edges :: e.GetOther(this)
    {
      neighbors := {};
      var todo := edges;
      while todo != {}
        invariant todo <= edges
        invariant neighbors == set e | e in edges - todo :: e.GetOther(this)
        decreases todo
      {
        var e := Pick(todo);
        neighbors := neighbors + {e.GetOther(this)};
        todo := todo - {e};
      }
    }

    /** Removes, through the iterator, every edge not in `keep`. */
    method Retain(keep: set<JunctionTreeEdge<L>>)
      modifies this
      ensures edges == old(edges) * keep && factor == old(factor)
    {
      var todo := edges;
      while todo != {}
        invariant todo <= old(edges) && factor == old(factor)
        invariant edges == (old(edges) - todo) * keep + todo
        decreases todo
      {
        var e := Pick(todo);
        if e !in keep {
          edges := edges - {e};
        }
        todo := todo - {e};
      }
    }

    /** Drops, through the iterator, every edge whose other endpoint equals `other`. */
    method RemoveEdge(other: JunctionTreeNode<L>)
      modifies this
      ensures edges == set e | e in old(edges) && !e.GetOther(this).Equals(other)
      ensures factor == old(factor)
    {
      var todo := edges;
      var kept: set<JunctionTreeEdge<L>> := {};
      while todo != {}
        invariant todo <= old(edges)
        invariant kept == set e | e in old(edges) - todo && !e.GetOther(this).Equals(other)
        invariant edges == old(edges) && factor == old(factor)
        decreases todo
      {
        var e := Pick(todo);
        if !e.GetOther(this).Equals(other) {
          kept := kept + {e};
        }
        todo := todo - {e};
      }
      edges := kept;
    }

    /**
     * `collectMessages(parent, stateSpaces, scores)`: rebuilds the node's factor from its
     * state space and the scores. A leaf entered from a parent returns a copy of it; any other
     * node first collects a message over every edge that does not touch the parent, then
     * absorbs them all. `messages` holds the message received over each such edge.
     */
    method CollectMessages(parent: JunctionTreeNode?<L>, stateSpaces: map<JunctionTreeNode<L>, set<seq<TriState>>>, scores: seq<real>,
                           lse: (real, real) -> real, ghost nodes: set<JunctionTreeNode<L>>,
                           ghost up: map<JunctionTreeNode<L>, JunctionTreeEdge<L>>, ghost level: map<JunctionTreeNode<L>, nat>)
      returns (r: Result<Factor>, ghost messages: map<JunctionTreeEdge<L>, Dist>)
      requires Rooted(nodes, up, level) && this in nodes && EnteredFrom(up, this, parent)
      modifies Deeper(nodes, level, level[this])`factor, DeeperEdges(up, level, level[this] + 1)`phiStar
      decreases |nodes| - level[this], 4
      ensures this !in stateSpaces ==> r == Err(NullPointer)
      ensures r.Ok? ==> Scorable(this, stateSpaces, scores)
      ensures AllScorable(Deeper(nodes, level, level[this]), stateSpaces, scores) ==> r.Ok?
      ensures r.Err? ==> !AllScorable(Deeper(nodes, level, level[this]), stateSpaces, scores)
      ensures r.Err? ==> r.error == NullPointer || r.error == IllegalState || r.error == IndexOutOfBounds
      ensures r.Ok? ==> fresh(r.value) && fresh(factor) && r.value != factor && r.value.dist == factor.dist
      ensures r.Ok? ==> r.value.vars == members && factor.vars == members && factor.dist.Keys == stateSpaces[this]
      ensures r.Ok? ==> forall e :: e in messages <==> e in edges && ChildEdge(up, level, this, e)
      ensures r.Ok? ==> forall e :: e in messages ==> e.phiStar.dist == messages[e]
      ensures r.Ok? ==> forall c :: c in factor.dist ==> factor.dist[c] == Score(c, scores) + Inflow(messages, messages.Keys, c)
    {
      messages := map[];
      if this !in stateSpaces {
        return Err(NullPointer), messages;
      }
      var made := Factor.FromConfigs(stateSpaces[this], members, scores);
      assert this in Deeper(nodes, level, level[this]);
      if made.Err? {
        return Err(made.error), messages;
      }
      var f := made.value;
      factor := f;
      if |edges| == 1 && parent != null {
        LeafHasNoChildren(nodes, up, level, this, parent);
        var copy := f.GetDeepCopy();
        return Ok(copy), messages;
      }
      r, messages := CollectBelow(f, parent, stateSpaces, scores, lse, nodes, up, level);
    }

    /** Past the leaf test: collect over the edges away from the parent and absorb it all into `f`. */
    method CollectBelow(f: Factor, parent: JunctionTreeNode?<L>, stateSpaces: map<JunctionTreeNode<L>, set<seq<TriState>>>, scores: seq<real>,
                        lse: (real, real) -> real, ghost nodes: set<JunctionTreeNode<L>>,
                        ghost up: map<JunctionTreeNode<L>, JunctionTreeEdge<L>>, ghost level: map<JunctionTreeNode<L>, nat>)
      returns (r: Result<Factor>, ghost messages: map<JunctionTreeEdge<L>, Dist>)
      requires Rooted(nodes, up, level) && this in nodes && EnteredFrom(up, this, parent)
      requires forall c :: c in f.dist ==> |scores| <= |c| && f.dist[c] == Score(c, scores)
      modifies f, Deeper(nodes, level, level[this] + 1)`factor, DeeperEdges(up, level, level[this] + 1)`phiStar
      decreases |nodes| - level[this], 3
      ensures AllScorable(Deeper(nodes, level, level[this] + 1), stateSpaces, scores) ==> r.Ok?
      ensures r.Err? ==> !AllScorable(Deeper(nodes, level, level[this] + 1), stateSpaces, scores)
      ensures r.Err? ==> r.error == NullPointer || r.error == IllegalState || r.error == IndexOutOfBounds
      ensures f.vars == old(f.vars) && f.dist.Keys == old(f.dist.Keys)
      ensures r.Ok? ==> fresh(r.value) && r.value.dist == f.dist && r.value.vars == f.vars
      ensures r.Ok? ==> forall e :: e in messages <==> e in edges && ChildEdge(up, level, this, e)
      ensures r.Ok? ==> Gathered(f, scores, messages)
    {
      var seps;
      seps, messages := CollectSeparators(parent, stateSpaces, scores, lse, nodes, up, level, f);
      if seps.Err? {
        return Err(seps.error), messages;
      }
      AbsorbSeparators(f, seps.value, messages, scores);
      var copy := f.GetDeepCopy();
      return Ok(copy), messages;
    }

    /**
     * The first loop of `collectMessages`: in iteration order, the message over every edge
     * that does not touch the parent, keyed by its edge; the first failure ends it.
     */
    method CollectSeparators(parent: JunctionTreeNode?<L>, stateSpaces: map<JunctionTreeNode<L>, set<seq<TriState>>>, scores: seq<real>,
                             lse: (real, real) -> real, ghost nodes: set<JunctionTreeNode<L>>,
                             ghost up: map<JunctionTreeNode<L>, JunctionTreeEdge<L>>, ghost level: map<JunctionTreeNode<L>, nat>,
                             ghost f: Factor)
      returns (r: Result<map<JunctionTreeEdge<L>, Factor>>, ghost messages: map<JunctionTreeEdge<L>, Dist>)
      requires Rooted(nodes, up, level) && this in nodes && EnteredFrom(up, this, parent)
      modifies Deeper(nodes, level, level[this] + 1)`factor, DeeperEdges(up, level, level[this] + 1)`phiStar
      decreases |nodes| - level[this], 2
      ensures AllScorable(Deeper(nodes, level, level[this] + 1), stateSpaces, scores) ==> r.Ok?
      ensures r.Err? ==> !AllScorable(Deeper(nodes, level, level[this] + 1), stateSpaces, scores)
      ensures r.Err? ==> r.error == NullPointer || r.error == IllegalState || r.error == IndexOutOfBounds
      ensures r.Ok? ==> r.value.Keys == messages.Keys && forall e :: e in messages <==> e in edges && ChildEdge(up, level, this, e)
      ensures r.Ok? ==> forall e :: e in r.value ==> r.value[e] != f && e.phiStar != f && r.value[e].dist == messages[e] && e.phiStar.dist == messages[e]
    {
      var separators: map<JunctionTreeEdge<L>, Factor> := map[];
      var todo := edges;
      while todo != {}
        invariant todo <= edges
        invariant forall e :: e in separators <==> e in edges && e !in todo && ChildEdge(up, level, this, e)
        invariant forall e :: e in separators ==> separators[e] != f && e.phiStar != f && separators[e].dist == e.phiStar.dist
        decreases todo
      {
        var e := Pick(todo);
        var next := CollectEdge(parent, e, stateSpaces, scores, lse, nodes, up, level, separators, f);
        if next.Err? {
          return Err(next.error), map[];
        }
        separators := next.value;
        todo := todo - {e};
      }
      messages := map e | e in separators :: separators[e].dist;
      return Ok(separators), messages;
    }

    /** One pass of that loop: the edge `e` gets its message when it does not touch the parent. */
    method CollectEdge(parent: JunctionTreeNode?<L>, e: JunctionTreeEdge<L>, stateSpaces: map<JunctionTreeNode<L>, set<seq<TriState>>>,
                       scores: seq<real>, lse: (real, real) -> real, ghost nodes: set<JunctionTreeNode<L>>,
                       ghost up: map<JunctionTreeNode<L>, JunctionTreeEdge<L>>, ghost level: map<JunctionTreeNode<L>, nat>,
                       separators: map<JunctionTreeEdge<L>, Factor>, ghost f: Factor)
      returns (r: Result<map<JunctionTreeEdge<L>, Factor>>)
      requires Rooted(nodes, up, level) && this in nodes && EnteredFrom(up, this, parent) && e in edges && e !in separators
      requires separators.Keys <= edges && forall p :: p in separators ==> ChildEdge(up, level, this, p)
      requires forall p :: p in separators ==> separators[p] != f && p.phiStar != f && separators[p].dist == p.phiStar.dist
      modifies Deeper(nodes, level, level[this] + 1)`factor, DeeperEdges(up, level, level[this] + 1)`phiStar
      decreases |nodes| - level[this], 1
      ensures AllScorable(Deeper(nodes, level, level[this] + 1), stateSpaces, scores) ==> r.Ok?
      ensures r.Err? ==> !AllScorable(Deeper(nodes, level, level[this] + 1), stateSpaces, scores)
      ensures r.Err? ==> r.error == NullPointer || r.error == IllegalState || r.error == IndexOutOfBounds
      ensures r.Ok? ==> forall p :: p in r.value <==> p in separators || (p == e && ChildEdge(up, level, this, e))
      ensures r.Ok? ==> forall p :: p in r.value ==> r.value[p] != f && p.phiStar != f && r.value[p].dist == p.phiStar.dist
    {
      ChildStep(nodes, up, level, this, parent, e);
      if e.Contains(parent) {
        return Ok(separators);
      }
      var m := CollectOver(e, stateSpaces, scores, lse, nodes, up, level, separators, f);
      if m.Err? {
        return Err(m.error);
      }
      var next := separators[e := m.value];
      forall p | p in next
        ensures next[p] != f && p.phiStar != f && next[p].dist == p.phiStar.dist
      {
        if p != e {
          assert p in separators;
        }
      }
      return Ok(next);
    }

    /** One step of that loop: the message over the child edge `e`; the edges of `prior` keep theirs. */
    method CollectOver(e: JunctionTreeEdge<L>, stateSpaces: map<JunctionTreeNode<L>, set<seq<TriState>>>, scores: seq<real>,
                       lse: (real, real) -> real, ghost nodes: set<JunctionTreeNode<L>>,
                       ghost up: map<JunctionTreeNode<L>, JunctionTreeEdge<L>>, ghost level: map<JunctionTreeNode<L>, nat>,
                       ghost separators: map<JunctionTreeEdge<L>, Factor>, ghost f: Factor)
      returns (m: Result<Factor>)
      requires Rooted(nodes, up, level) && this in nodes && e in edges && ChildEdge(up, level, this, e)
      requires e !in separators && separators.Keys <= edges && forall p :: p in separators ==> ChildEdge(up, level, this, p)
      modifies e`phiStar, Deeper(nodes, level, level[this] + 1)`factor, DeeperEdges(up, level, level[this] + 2)`phiStar
      decreases |nodes| - level[this], 0
      ensures forall p :: p in separators ==> p.phiStar == old(p.phiStar) && p.phiStar.dist == old(p.phiStar.dist) && separators[p].dist == old(separators[p].dist)
      ensures AllScorable(Deeper(nodes, level, level[this] + 1), stateSpaces, scores) ==> m.Ok?
      ensures m.Err? ==> !AllScorable(Deeper(nodes, level, level[this] + 1), stateSpaces, scores)
      ensures m.Err? ==> m.error == NullPointer || m.error == IllegalState || m.error == IndexOutOfBounds
      ensures m.Ok? ==> fresh(m.value) && fresh(e.phiStar) && m.value != f && e.phiStar != f && m.value.dist == e.phiStar.dist
    {
      forall p | p in separators
        ensures p !in DeeperEdges(up, level, level[this] + 2)
      {
        ChildShallow(nodes, up, level, this, p);
      }
      ChildShallow(nodes, up, level, this, e);
      DeeperShrinks(nodes, up, level, level[this] + 1);
      ghost var sub;
      m, sub := e.CollectMessages(this, stateSpaces, scores, lse, nodes, up, level);
    }

    /** The second loop of `collectMessages`: `f` absorbs every separator, in any order. */
    method AbsorbSeparators(f: Factor, separators: map<JunctionTreeEdge<L>, Factor>, ghost messages: map<JunctionTreeEdge<L>, Dist>, scores: seq<real>)
      requires separators.Keys == messages.Keys
      requires Clear(separators, f) && forall e :: e in separators ==> separators[e].dist == messages[e]
      requires forall e :: e in separators ==> e.phiStar != f && e.phiStar.dist == messages[e]
      requires forall c :: c in f.dist ==> |scores| <= |c| && f.dist[c] == Score(c, scores)
      modifies f
      ensures f.dist.Keys == old(f.dist.Keys) && f.vars == old(f.vars)
      ensures Gathered(f, scores, messages)
    {
      var rest := separators.Keys;
      while rest != {}
        invariant rest <= separators.Keys && f.dist.Keys == old(f.dist.Keys) && f.vars == old(f.vars)
        invariant forall c :: c in f.dist ==> f.dist[c] == Score(c, scores) + Inflow(messages, separators.Keys - rest, c)
        decreases rest
      {
        var e := Pick(rest);
        f.CombineDistributionProduct(separators[e]);
        forall c | c in f.dist
          ensures f.dist[c] == Score(c, scores) + Inflow(messages, separators.Keys - (rest - {e}), c)
        {
          InflowRemove(messages, separators.Keys - (rest - {e}), e, c);
          assert separators.Keys - (rest - {e}) - {e} == separators.Keys - rest;
        }
        rest := rest - {e};
      }
      assert separators.Keys - rest == messages.Keys;
      assert forall e :: e in messages ==> e.phiStar.dist == messages[e];
    }

    /**
     * `propagateMessages(parent, properFactor)`: a node entered over the edge `parentEdge`
     * first absorbs the message `proper` sent over it; then it propagates over every other
     * edge, each of which leads to a child. `fac` maps each node to its factor and `vs` to
     * that factor's variables; only the factors of this node and of the nodes below it change.
     * `sent` holds the message sent over each child edge.
     */
    method PropagateMessages(parentEdge: JunctionTreeEdge?<L>, proper: Factor?, lse: (real, real) -> real,
                             ghost nodes: set<JunctionTreeNode<L>>, ghost up: map<JunctionTreeNode<L>, JunctionTreeEdge<L>>,
                             ghost level: map<JunctionTreeNode<L>, nat>,
                             ghost fac: map<JunctionTreeNode<L>, Factor>, ghost vs: map<JunctionTreeNode<L>, set<nat>>)
      returns (out: Outcome, ghost sent: map<JunctionTreeEdge<L>, Dist>)
      requires Rooted(nodes, up, level) && this in nodes && Owned(nodes, fac, vs)
      requires if this in up then parentEdge == up[this] else parentEdge == null
      requires parentEdge != null ==> proper != null && proper !in FactorsFrom(fac, level, level[this])
      modifies FactorsFrom(fac, level, level[this])`dist
      modifies DeeperEdges(up, level, level[this] + 1)`phiStarStar, DeeperEdges(up, level, level[this] + 1)`divided
      decreases |nodes| - level[this], 3
      ensures Rooted(nodes, up, level) && Owned(nodes, fac, vs)
      ensures factor.dist == if parentEdge != null then Absorbed(old(factor.dist), old(proper.dist)) else old(factor.dist)
      ensures Covered(Deeper(nodes, level, level[this]), vs) ==> out.Pass?
      ensures out.Fail? ==> out.error == IllegalArgument && !Covered(Deeper(nodes, level, level[this]), vs)
      ensures out.Pass? ==> Progress(this, edges, {}, sent, factor.dist, lse, up, level)
    {
      FactorOutside(nodes, level, fac, vs, this);
      if parentEdge != null {
        factor.CombineDistributionProduct(proper);
      }
      out, sent := PropagateChildren(parentEdge, lse, nodes, up, level, fac, vs);
      assert out.Pass? ==> Progress(this, edges, {}, sent, factor.dist, lse, up, level);
    }

    /** The loop of `propagateMessages`: every edge other than `parentEdge` leads to a child and is propagated over. */
    method PropagateChildren(parentEdge: JunctionTreeEdge?<L>, lse: (real, real) -> real,
                             ghost nodes: set<JunctionTreeNode<L>>, ghost up: map<JunctionTreeNode<L>, JunctionTreeEdge<L>>,
                             ghost level: map<JunctionTreeNode<L>, nat>,
                             ghost fac: map<JunctionTreeNode<L>, Factor>, ghost vs: map<JunctionTreeNode<L>, set<nat>>)
      returns (out: Outcome, ghost sent: map<JunctionTreeEdge<L>, Dist>)
      requires Rooted(nodes, up, level) && this in nodes && Owned(nodes, fac, vs)
      requires if this in up then parentEdge == up[this] else parentEdge == null
      modifies FactorsFrom(fac, level, level[this] + 1)`dist
      modifies DeeperEdges(up, level, level[this] + 1)`phiStarStar, DeeperEdges(up, level, level[this] + 1)`divided
      decreases |nodes| - level[this], 2
      ensures Rooted(nodes, up, level) && Owned(nodes, fac, vs)
      ensures factor.dist == old(factor.dist)
      ensures Covered(Deeper(nodes, level, level[this]), vs) ==> out.Pass?
      ensures out.Fail? ==> out.error == IllegalArgument && !Covered(Deeper(nodes, level, level[this]), vs)
      ensures out.Pass? ==> Progress(this, edges, {}, sent, factor.dist, lse, up, level)
    {
      ghost var d := factor.dist;
      sent := map[];
      var todo := edges;
      while todo != {}
        invariant todo <= edges
        invariant Rooted(nodes, up, level) && Owned(nodes, fac, vs) && factor.dist == d
        invariant Progress(this, edges, todo, sent, d, lse, up, level)
        decreases todo
      {
        var e := Pick(todo);
        out, sent := PropagateStep(e, parentEdge, lse, nodes, up, level, fac, vs, todo, sent, d);
        if out.Fail? {
          return;
        }
        todo := todo - {e};
      }
      out := Pass;
    }

    /** One pass of that loop: the edge `e` is skipped when it is `parentEdge` and propagated over otherwise. */
    method PropagateStep(e: JunctionTreeEdge<L>, parentEdge: JunctionTreeEdge?<L>, lse: (real, real) -> real,
                         ghost nodes: set<JunctionTreeNode<L>>, ghost up: map<JunctionTreeNode<L>, JunctionTreeEdge<L>>,
                         ghost level: map<JunctionTreeNode<L>, nat>,
                         ghost fac: map<JunctionTreeNode<L>, Factor>, ghost vs: map<JunctionTreeNode<L>, set<nat>>,
                         ghost todo: set<JunctionTreeEdge<L>>, ghost sent: map<JunctionTreeEdge<L>, Dist>, ghost d: Dist)
      returns (out: Outcome, ghost sent': map<JunctionTreeEdge<L>, Dist>)
      requires Rooted(nodes, up, level) && this in nodes && Owned(nodes, fac, vs)
      requires if this in up then parentEdge == up[this] else parentEdge == null
      requires e in todo && todo <= edges && factor.dist == d && Progress(this, edges, todo, sent, d, lse, up, level)
      modifies FactorsFrom(fac, level, level[this] + 1)`dist
      modifies DeeperEdges(up, level, level[this] + 1)`phiStarStar, DeeperEdges(up, level, level[this] + 1)`divided
      decreases |nodes| - level[this], 1
      ensures Rooted(nodes, up, level) && Owned(nodes, fac, vs) && factor.dist == d
      ensures Covered(Deeper(nodes, level, level[this]), vs) ==> out.Pass?
      ensures out.Fail? ==> out.error == IllegalArgument && !Covered(Deeper(nodes, level, level[this]), vs)
      ensures out.Pass? ==> Progress(this, edges, todo - {e}, sent', d, lse, up, level)
    {
      ghost var parent := if this in up then up[this].GetOther(this) else null;
      ChildStep(nodes, up, level, this, parent, e);
      sent' := sent;
      out := Pass;
      if e != parentEdge {
        ghost var m;
        out, m := PropagateOver(e, lse, nodes, up, level, fac, vs);
        if out.Fail? {
          return;
        }
        ProgressAdd(this, edges, todo, sent, d, lse, up, level, e, m);
        sent' := sent[e := m];
      } else {
        ProgressSkip(this, edges, todo, sent, d, lse, up, level, e);
      }
    }

    /** One step of that loop: propagation over the child edge `e`, which sends `m`; this node's factor stays as it is. */
    method PropagateOver(e: JunctionTreeEdge<L>, lse: (real, real) -> real,
                         ghost nodes: set<JunctionTreeNode<L>>, ghost up: map<JunctionTreeNode<L>, JunctionTreeEdge<L>>,
                         ghost level: map<JunctionTreeNode<L>, nat>,
                         ghost fac: map<JunctionTreeNode<L>, Factor>, ghost vs: map<JunctionTreeNode<L>, set<nat>>)
      returns (out: Outcome, ghost m: Dist)
      requires Rooted(nodes, up, level) && this in nodes && Owned(nodes, fac, vs)
      requires e in edges && ChildEdge(up, level, this, e)
      modifies e`phiStarStar, e`divided, FactorsFrom(fac, level, level[this] + 1)`dist
      modifies DeeperEdges(up, level, level[this] + 2)`phiStarStar, DeeperEdges(up, level, level[this] + 2)`divided
      decreases |nodes| - level[this], 0
      ensures Rooted(nodes, up, level) && Owned(nodes, fac, vs)
      ensures factor.dist == old(factor.dist)
      ensures Covered(Deeper(nodes, level, level[this]), vs) ==> out.Pass?
      ensures out.Fail? ==> out.error == IllegalArgument && !Covered(Deeper(nodes, level, level[this]), vs)
      ensures out.Pass? ==> Projection(factor.dist, GetOverlappingSet(e.GetOther(this)), lse, m)
    {
      ChildShallow(nodes, up, level, this, e);
      FactorOutside(nodes, level, fac, vs, this);
      out, m := e.PropagateMessages(this, lse, nodes, up, level, fac, vs);
    }
  }

  /** A subset is no larger than its superset. */
  lemma SubsetSize<T>(a: set<T>, b: set<T>)
    requires a <= b
    ensures |a| <= |b|
  {
    if a != {} {
      var x :| x in a;
      SubsetSize(a - {x}, b - {x});
    }
  }

  /** The weights of the links, in order. */
  ghost function Weights<L(!new)>(links: seq<JunctionTreeEdge<L>>): (r: seq<int>)
    ensures |r| == |links| && forall i :: 0 <= i < |links| ==> r[i] == links[i].weight
  {
    seq(|links|, i requires 0 <= i < |links| => links[i].weight)
  }

  /** The total weight of a tree given by its links. */
  ghost function Weight<L(!new)>(links: seq<JunctionTreeEdge<L>>): int {
    Spanning.Sum(Weights(links), 0, |links|)
  }

  /**
   * A spanning tree of positive-overlap edges between the nodes, given by the order in which it
   * reaches them and, for each later node, the position of the earlier node it hangs from.
   */
  ghost predicate SpanningTree<L(!new)>(older order: seq<JunctionTreeNode<L>>, nodes: set<JunctionTreeNode<L>>, par: seq<int>) {
    |order| == |nodes| && |par| + 1 == |order| &&
    (forall i, j :: 0 <= i < j < |order| ==> order[i] != order[j]) &&
    (forall i :: 0 <= i < |order| ==> order[i] in nodes) && (forall n :: n in nodes ==> n in order) &&
    (forall e :: 0 <= e < |par| ==> 0 <= par[e] <= e && Overlap(order[e + 1], order[par[e]]) > 0)
  }

  /** The overlap weights of the edges of such a tree. */
  ghost function TreeWeights<L(!new)>(order: seq<JunctionTreeNode<L>>, par: seq<int>): (r: seq<int>)
    ensures |r| == |par|
    ensures forall e :: 0 <= e < |par| && e + 1 < |order| && 0 <= par[e] < |order| ==> r[e] == Overlap(order[e + 1], order[par[e]])
  {
    seq(|par|, e requires 0 <= e < |par| => if e + 1 < |order| && 0 <= par[e] < |order| then Overlap(order[e + 1], order[par[e]]) else 0)
  }

  /** No spanning tree of positive-overlap edges between the nodes weighs more than `links`. */
  ghost predicate MaximumSpanning<L(!new)>(nodes: set<JunctionTreeNode<L>>, links: seq<JunctionTreeEdge<L>>) {
    forall order, par :: SpanningTree(order, nodes, par) ==> Spanning.Sum(TreeWeights(order, par), 0, |par|) <= Weight(links)
  }

  /** The earlier node that link `i - 1` attaches `order[i]` to. */
  ghost function AttachIndex<L(!new)>(order: seq<JunctionTreeNode<L>>, links: seq<JunctionTreeEdge<L>>, i: int): (j: int)
    ensures 1 <= i < |order| && |links| + 1 == |order| && AttachedAt(order, links, i) ==>
      0 <= j < i && Joins(links[i - 1], order[i], order[j])
  {
    if 1 <= i < |order| && |links| + 1 == |order| && exists j :: 0 <= j < i && Joins(links[i - 1], order[i], order[j])
    then var j :| 0 <= j < i && Joins(links[i - 1], order[i], order[j]); j
    else 0
  }

  /** A greedy spanning tree is a heaviest one. */
  lemma GreedyHeaviest<L(!new)>(nodes: set<JunctionTreeNode<L>>, order: seq<JunctionTreeNode<L>>, links: seq<JunctionTreeEdge<L>>)
    requires Attached(nodes, order, links) && Greedy(nodes, order, links)
    ensures MaximumSpanning(nodes, links)
  {
    forall order', par | SpanningTree(order', nodes, par) ensures Spanning.Sum(TreeWeights(order', par), 0, |par|) <= Weight(links) {
      GreedyOutweighs(nodes, order, links, order', par);
    }
  }

  /**
   * Any spanning tree `order'`, `par` weighs no more than the greedy one: numbering the nodes by
   * the greedy order, each of its edges weighs at most every greedy link whose cut it crosses.
   */
  lemma GreedyOutweighs<L(!new)>(nodes: set<JunctionTreeNode<L>>, order: seq<JunctionTreeNode<L>>, links: seq<JunctionTreeEdge<L>>,
                                 order': seq<JunctionTreeNode<L>>, par: seq<int>)
    requires Attached(nodes, order, links) && Greedy(nodes, order, links) && SpanningTree(order', nodes, par)
    ensures Spanning.Sum(TreeWeights(order', par), 0, |par|) <= Weight(links)
  {
    var pi := Positions(nodes, order, links, order', par);
    var v, w := TreeWeights(order', par), Weights(links);
    forall e, c | 0 <= e < |v| && 0 <= c < |w| && Spanning.Lo(pi, par, e) <= c < Spanning.Hi(pi, par, e)
      ensures v[e] <= w[c]
    {
      CrossingLighter(nodes, order, links, order', par, pi, e, c);
    }
    Spanning.GreedyOutweighs(pi, par, v, w);
  }

  /** The positions in `order` of the nodes of `order'`. */
  lemma Positions<L(!new)>(nodes: set<JunctionTreeNode<L>>, order: seq<JunctionTreeNode<L>>, links: seq<JunctionTreeEdge<L>>,
                           order': seq<JunctionTreeNode<L>>, par: seq<int>) returns (pi: seq<int>)
    requires Attached(nodes, order, links) && SpanningTree(order', nodes, par)
    ensures Spanning.Tree(pi, par) && |pi| == |order'| && |order| == |order'|
    ensures forall j :: 0 <= j < |pi| ==> order[pi[j]] == order'[j]
  {
    pi := seq(|order'|, j requires 0 <= j < |order'| => Spanning.IndexOf(order, order'[j]));
    forall j | 0 <= j < |pi| ensures 0 <= pi[j] < |pi| && order[pi[j]] == order'[j] {
      assert order'[j] in nodes;
    }
    forall x | 0 <= x < |pi| ensures x in pi {
      assert order[x] in nodes;
      var j :| 0 <= j < |order'| && order'[j] == order[x];
      assert pi[j] == x;
    }
  }

  /** An edge of the other tree crossing greedy cut `c` weighs at most greedy link `c`. */
  lemma CrossingLighter<L(!new)>(nodes: set<JunctionTreeNode<L>>, order: seq<JunctionTreeNode<L>>, links: seq<JunctionTreeEdge<L>>,
                                 order': seq<JunctionTreeNode<L>>, par: seq<int>, pi: seq<int>, e: int, c: int)
    requires Attached(nodes, order, links) && Greedy(nodes, order, links) && SpanningTree(order', nodes, par)
    requires Spanning.Tree(pi, par) && |pi| == |order'| && |order| == |order'|
    requires forall j :: 0 <= j < |pi| ==> order[pi[j]] == order'[j]
    requires 0 <= e < |par| && 0 <= c < |links| && Spanning.Lo(pi, par, e) <= c < Spanning.Hi(pi, par, e)
    ensures Overlap(order'[e + 1], order'[par[e]]) <= links[c].weight
  {
    var p, q := pi[e + 1], pi[par[e]];
    var lo := if p <= q then order[p] else order[q];
    var hi := if p <= q then order[q] else order[p];
    assert GreedyAt(nodes, order, links, c + 1);
    assert lo in order[..c + 1];
    forall i | 0 <= i <= c ensures order[i] != hi { }
    assert hi in nodes;
    OverlapCommutes(lo, hi);
  }

  /** With no node, or an isolated one, no spanning tree of positive-overlap edges weighs anything. */
  lemma TrivialHeaviest<L(!new)>(nodes: set<JunctionTreeNode<L>>)
    requires nodes == {} || exists c :: c in nodes && Isolated(nodes, c)
    ensures MaximumSpanning<L>(nodes, [])
  {
    if |nodes| >= 2 {
      var c :| c in nodes && Isolated(nodes, c);
      forall order, par ensures !SpanningTree(order, nodes, par) {
        SpanningTouches(order, nodes, par, c);
      }
    } else {
      forall order, par | SpanningTree(order, nodes, par) ensures Spanning.Sum(TreeWeights(order, par), 0, |par|) <= Weight<L>([]) {
        assert |par| == 0;
      }
    }
  }

  /** A spanning tree over two nodes or more shares a class between each node and some other. */
  lemma SpanningTouches<L(!new)>(order: seq<JunctionTreeNode<L>>, nodes: set<JunctionTreeNode<L>>, par: seq<int>, c: JunctionTreeNode<L>)
    requires c in nodes && |nodes| >= 2
    ensures SpanningTree(order, nodes, par) ==> exists b :: b in nodes && b != c && Overlap(c, b) > 0
  {
    if SpanningTree(order, nodes, par) {
      var i :| 0 <= i < |order| && order[i] == c;
      if i >= 1 {
        var b := order[par[i - 1]];
        assert Overlap(order[i - 1 + 1], b) > 0;
        assert b in nodes && b != c && Overlap(c, b) > 0;
      } else {
        var b := order[1];
        assert Overlap(order[0 + 1], order[par[0]]) > 0;
        OverlapCommutes(b, c);
        assert b in nodes && b != c && Overlap(c, b) > 0;
      }
    }
  }

  class JunctionTreeEdge<L(==,!new)> {
    const first: JunctionTreeNode<L>
    const second: JunctionTreeNode<L>
    const weight: nat
    var phiStar: Factor
    var phiStarStar: Factor
    var divided: Factor

    /** The weight is the overlap of the endpoints; the three messages start empty. */
    constructor (f: JunctionTreeNode<L>, s: JunctionTreeNode<L>)
      ensures first == f && second == s && weight == Overlap(f, s)
      ensures fresh(phiStar) && fresh(phiStarStar) && fresh(divided)
      ensures phiStar.dist == map[] && phiStarStar.dist == map[] && divided.dist == map[]
    {
      first := f;
      second := s;
      weight := f.GetOverlap(s);
      phiStar := new Factor();
      phiStarStar := new Factor();
      divided := new Factor();
    }

    /** `contains(node)`: a null node is never an endpoint. */
    predicate Contains(node: JunctionTreeNode?<L>)
      ensures node == null ==> !Contains(node)
    {
      node != null && (node.Equals(first) || node.Equals(second))
    }

    /** `getOther(node)`: one of the two endpoints; a node that is neither gets `first`. */
    function GetOther(node: JunctionTreeNode<L>): (r: JunctionTreeNode<L>)
      ensures r == first || r == second
      ensures !Contains(node) ==> r == first
    {
      if node.Equals(first) then second else first
    }

    /**
     * `collectMessages(caller, stateSpaces, scores)`: a caller that is not an endpoint fails;
     * otherwise the other endpoint collects from its side, and the message `phiStar` is what
     * it returns projected onto the classes both endpoints hold. `sub` is what it returned.
     */
    method CollectMessages(caller: JunctionTreeNode<L>, stateSpaces: map<JunctionTreeNode<L>, set<seq<TriState>>>, scores: seq<real>,
                           lse: (real, real) -> real, ghost nodes: set<JunctionTreeNode<L>>,
                           ghost up: map<JunctionTreeNode<L>, JunctionTreeEdge<L>>, ghost level: map<JunctionTreeNode<L>, nat>)
      returns (r: Result<Factor>, ghost sub: Dist)
      requires Rooted(nodes, up, level) && caller in nodes
      requires Contains(caller) ==> ChildEdge(up, level, caller, this)
      modifies this`phiStar, Deeper(nodes, level, level[caller] + 1)`factor, DeeperEdges(up, level, level[caller] + 2)`phiStar
      decreases |nodes| - level[caller] - 1, 5
      ensures !Contains(caller) ==> r == Err(IllegalState) && phiStar == old(phiStar)
      ensures Contains(caller) && AllScorable(Deeper(nodes, level, level[caller] + 1), stateSpaces, scores) ==> r.Ok?
      ensures Contains(caller) && r.Err? ==> !AllScorable(Deeper(nodes, level, level[caller] + 1), stateSpaces, scores)
      ensures r.Err? ==> r.error == NullPointer || r.error == IllegalState || r.error == IndexOutOfBounds
      ensures r.Ok? ==> fresh(r.value) && fresh(phiStar) && r.value != phiStar && r.value.dist == phiStar.dist
      ensures r.Ok? ==> phiStar.vars == caller.GetOverlappingSet(GetOther(caller))
      ensures r.Ok? ==> sub == GetOther(caller).factor.dist && Projection(sub, caller.GetOverlappingSet(GetOther(caller)), lse, phiStar.dist)
    {
      sub := map[];
      if !Contains(caller) {
        return Err(IllegalState), sub;
      }
      var other := GetOther(caller);
      ChildEntered(nodes, up, level, caller, this);
      var result, _ := other.CollectMessages(caller, stateSpaces, scores, lse, nodes, up, level);
      if result.Err? {
        return Err(result.error), sub;
      }
      var projected := result.value.GetSubDistribution(caller.GetOverlappingSet(other), lse);
      assert projected.Ok?;
      phiStar := projected.value;
      sub := other.factor.dist;
      var copy := phiStar.GetDeepCopy();
      return Ok(copy), sub;
    }

    /**
     * `propagateMessages(caller)`: a caller that is not an endpoint fails; otherwise the message
     * `phiStarStar` is the caller's factor projected onto the classes both endpoints hold,
     * `divided` is that message divided by `phiStar`, and the other endpoint propagates on,
     * entered over this edge with `phiStarStar`. Only the factors of the nodes below the
     * caller change. `m` is the message sent.
     */
    method PropagateMessages(caller: JunctionTreeNode<L>, lse: (real, real) -> real,
                             ghost nodes: set<JunctionTreeNode<L>>, ghost up: map<JunctionTreeNode<L>, JunctionTreeEdge<L>>,
                             ghost level: map<JunctionTreeNode<L>, nat>,
                             ghost fac: map<JunctionTreeNode<L>, Factor>, ghost vs: map<JunctionTreeNode<L>, set<nat>>)
      returns (out: Outcome, ghost m: Dist)
      requires Rooted(nodes, up, level) && caller in nodes && Owned(nodes, fac, vs)
      requires Contains(caller) ==> this in caller.edges && ChildEdge(up, level, caller, this)
      modifies this`phiStarStar, this`divided, FactorsFrom(fac, level, level[caller] + 1)`dist
      modifies DeeperEdges(up, level, level[caller] + 2)`phiStarStar, DeeperEdges(up, level, level[caller] + 2)`divided
      decreases |nodes| - level[caller] - 1, 6
      ensures Rooted(nodes, up, level) && Owned(nodes, fac, vs)
      ensures !Contains(caller) ==> out == Fail(IllegalState) && phiStarStar == old(phiStarStar) && divided == old(divided)
      ensures Contains(caller) && !(caller.GetOverlappingSet(GetOther(caller)) <= caller.factor.vars) ==> out == Fail(IllegalArgument)
      ensures Contains(caller) && Covered(Deeper(nodes, level, level[caller]), vs) ==> out.Pass?
      ensures Contains(caller) && out.Fail? ==> out.error == IllegalArgument && !Covered(Deeper(nodes, level, level[caller]), vs)
      ensures Contains(caller) && caller.GetOverlappingSet(GetOther(caller)) <= caller.factor.vars ==>
        && Projection(old(caller.factor.dist), caller.GetOverlappingSet(GetOther(caller)), lse, m)
        && GetOther(caller).factor.dist == Absorbed(old(GetOther(caller).factor.dist), m)
      ensures Contains(caller) && caller.GetOverlappingSet(GetOther(caller)) <= caller.factor.vars ==>
        phiStarStar.dist == m && divided.dist == Quotient(m, old(phiStar.dist))
    {
      if !Contains(caller) {
        return Fail(IllegalState), map[];
      }
      out, m := Deliver(caller, lse, nodes, up, level, fac, vs);
    }

    /** `propagateMessages(caller)` past the endpoint check: the message is sent, then the other endpoint propagates on. */
    method Deliver(caller: JunctionTreeNode<L>, lse: (real, real) -> real,
                   ghost nodes: set<JunctionTreeNode<L>>, ghost up: map<JunctionTreeNode<L>, JunctionTreeEdge<L>>,
                   ghost level: map<JunctionTreeNode<L>, nat>,
                   ghost fac: map<JunctionTreeNode<L>, Factor>, ghost vs: map<JunctionTreeNode<L>, set<nat>>)
      returns (out: Outcome, ghost m: Dist)
      requires Rooted(nodes, up, level) && caller in nodes && Owned(nodes, fac, vs)
      requires this in caller.edges && ChildEdge(up, level, caller, this)
      modifies this`phiStarStar, this`divided, FactorsFrom(fac, level, level[caller] + 1)`dist
      modifies DeeperEdges(up, level, level[caller] + 2)`phiStarStar, DeeperEdges(up, level, level[caller] + 2)`divided
      decreases |nodes| - level[caller] - 1, 5
      ensures Rooted(nodes, up, level) && Owned(nodes, fac, vs)
      ensures !(caller.GetOverlappingSet(GetOther(caller)) <= caller.factor.vars) ==> out == Fail(IllegalArgument)
      ensures Covered(Deeper(nodes, level, level[caller]), vs) ==> out.Pass?
      ensures out.Fail? ==> out.error == IllegalArgument && !Covered(Deeper(nodes, level, level[caller]), vs)
      ensures caller.GetOverlappingSet(GetOther(caller)) <= caller.factor.vars ==>
        && Projection(old(caller.factor.dist), caller.GetOverlappingSet(GetOther(caller)), lse, m)
        && GetOther(caller).factor.dist == Absorbed(old(GetOther(caller).factor.dist), m)
      ensures caller.GetOverlappingSet(GetOther(caller)) <= caller.factor.vars ==>
        phiStarStar.dist == m && divided.dist == Quotient(m, old(phiStar.dist))
    {
      ChildShallow(nodes, up, level, caller, this);
      FactorOutside(nodes, level, fac, vs, caller);
      CoveredBelow(nodes, level, vs, caller);
      out, m := Send(caller, lse, FactorsFrom(fac, level, level[caller] + 1));
      if out.Fail? {
        return;
      }
      assert divided.dist == Quotient(m, old(phiStar.dist));
      out := Forward(caller, lse, m, nodes, up, level, fac, vs);
    }

    /** The second half of `propagateMessages(caller)`: the other endpoint propagates on, entered over this edge. */
    method Forward(caller: JunctionTreeNode<L>, lse: (real, real) -> real, ghost m: Dist,
                   ghost nodes: set<JunctionTreeNode<L>>, ghost up: map<JunctionTreeNode<L>, JunctionTreeEdge<L>>,
                   ghost level: map<JunctionTreeNode<L>, nat>,
                   ghost fac: map<JunctionTreeNode<L>, Factor>, ghost vs: map<JunctionTreeNode<L>, set<nat>>)
      returns (out: Outcome)
      requires Rooted(nodes, up, level) && caller in nodes && Owned(nodes, fac, vs)
      requires this in caller.edges && ChildEdge(up, level, caller, this)
      requires phiStarStar !in FactorsFrom(fac, level, level[caller] + 1) && phiStarStar.dist == m
      requires divided !in FactorsFrom(fac, level, level[caller] + 1)
      modifies FactorsFrom(fac, level, level[caller] + 1)`dist
      modifies DeeperEdges(up, level, level[caller] + 2)`phiStarStar, DeeperEdges(up, level, level[caller] + 2)`divided
      decreases |nodes| - level[caller] - 1, 4
      ensures Rooted(nodes, up, level) && Owned(nodes, fac, vs)
      ensures phiStarStar == old(phiStarStar) && divided == old(divided)
      ensures phiStarStar.dist == m && divided.dist == old(divided.dist)
      ensures Covered(Deeper(nodes, level, level[caller] + 1), vs) ==> out.Pass?
      ensures out.Fail? ==> out.error == IllegalArgument && !Covered(Deeper(nodes, level, level[caller] + 1), vs)
      ensures GetOther(caller).factor.dist == Absorbed(old(GetOther(caller).factor.dist), m)
    {
      var other := GetOther(caller);
      ChildShallow(nodes, up, level, caller, this);
      ChildEntered(nodes, up, level, caller, this);
      assert level[other] == level[caller] + 1;
      ghost var onward;
      out, onward := other.PropagateMessages(this, phiStarStar, lse, nodes, up, level, fac, vs);
    }

    /**
     * The first half of `propagateMessages(caller)`: the projection of the caller's factor,
     * which fails when the caller's factor lacks some of the overlap, then the division.
     * The new messages are none of the factors in `below`.
     */
    method Send(caller: JunctionTreeNode<L>, lse: (real, real) -> real, ghost below: set<Factor>) returns (out: Outcome, ghost m: Dist)
      modifies this`phiStarStar, this`divided
      ensures !(caller.GetOverlappingSet(GetOther(caller)) <= caller.factor.vars) ==>
        out == Fail(IllegalArgument) && phiStarStar == old(phiStarStar) && divided == old(divided)
      ensures caller.GetOverlappingSet(GetOther(caller)) <= caller.factor.vars ==>
        && out == Pass && fresh(phiStarStar) && fresh(divided) && phiStarStar !in below && divided !in below
        && Sent(caller, this, lse) && m == phiStarStar.dist
        && Projection(old(caller.factor.dist), caller.GetOverlappingSet(GetOther(caller)), lse, m)
    {
      m := map[];
      var callerFactor := caller.factor.GetDeepCopy();
      var projected := callerFactor.GetSubDistribution(caller.GetOverlappingSet(GetOther(caller)), lse);
      if projected.Err? {
        return Fail(projected.error), m;
      }
      phiStarStar := projected.value;
      m := phiStarStar.dist;
      var star := phiStar.GetDeepCopy();
      divided := phiStarStar.Divide(star);
      out := Pass;
    }
  }

  /** Between endpoints with different members, `getOther` swaps the endpoints. */
  lemma OtherEndpoint<L(!new)>(e: JunctionTreeEdge<L>)
    requires e.first.members != e.second.members
    ensures e.GetOther(e.first) == e.second && e.GetOther(e.second) == e.first
    ensures e.Contains(e.first) && e.Contains(e.second)
  {
  }

  /**
   * Node `equals` compares the member sets: an equivalence, under which a node overlaps an
   * equal node in all of its members.
   */
  lemma EqualsEquivalence<L(!new)>(a: JunctionTreeNode<L>, b: JunctionTreeNode<L>, c: JunctionTreeNode<L>)
    ensures a.Equals(a)
    ensures a.Equals(b) ==> b.Equals(a)
    ensures a.Equals(b) && b.Equals(c) ==> a.Equals(c)
    ensures a.Equals(b) ==> Overlap(a, b) == |a.members|
  {
    if a.Equals(b) {
      assert a.members * b.members == a.members;
    }
  }

  /** The overlap is symmetric and bounded by both sides. */
  lemma OverlapSymmetric<L(!new)>(a: JunctionTreeNode<L>, b: JunctionTreeNode<L>)
    ensures a.GetOverlappingSet(b) == b.GetOverlappingSet(a)
    ensures a.GetOverlap(b) == b.GetOverlap(a) && a.GetOverlap(b) <= |b.members|
  {
    assert a.GetOverlappingSet(b) == b.GetOverlappingSet(a);
    var _ := b.GetOverlap(a);
  }

  class JunctionTree<L(==,!new)> {
    var nodes: set<JunctionTreeNode<L>>
    var edges: set<JunctionTreeEdge<L>>
    const nameSpace: NameSpace<L>
    const numClasses: nat

    /**
     * Node equality is by members, so distinct nodes hold distinct members; every incident
     * edge joins two distinct nodes of the tree, has the overlap as its positive weight and
     * is registered at both of its endpoints.
     */
    ghost predicate Valid()
      reads this`nodes, nodes
    {
      DistinctMembers(nodes) &&
      (forall n :: n in nodes ==> n.numClasses == numClasses && n.nameSpace == nameSpace) &&
      EdgesValid(nodes)
    }

    constructor (ns: NameSpace<L>, numClasses: nat)
      ensures nodes == {} && edges == {} && nameSpace == ns && this.numClasses == numClasses
      ensures Valid()
    {
      nodes := {};
      edges := {};
      nameSpace := ns;
      this.numClasses := numClasses;
    }

    /** In a valid tree no two listed nodes are equal, so the set is also a set under `equals`. */
    function GetNodeSet(): (r: set<JunctionTreeNode<L>>)
      reads this, nodes
      ensures Valid() ==> forall a, b :: a in r && b in r && a.Equals(b) ==> a == b
    {
      nodes
    }

    /** Checks the members' indices against the node in hash order; an unknown member fails. */
    method NodeConsumes(node: JunctionTreeNode<L>, members: set<L>) returns (r: Result<bool>)
      requires nameSpace.Valid()
      ensures (forall v :: v in members ==> v in nameSpace.names) ==>
        r == Ok(Indices(nameSpace, members) <= node.members)
      ensures r == Ok(false) ==> !(Indices(nameSpace, members) <= node.members)
      ensures r == Ok(true) ==> (forall v :: v in members ==> v in nameSpace.names) && Indices(nameSpace, members) <= node.members
      ensures r.Err? ==> r.error == NullPointer && exists v :: v in members && v !in nameSpace.names
    {
      var todo := members;
      while todo != {}
        invariant todo <= members
        invariant forall v :: v in members - todo ==> v in nameSpace.names
        invariant Indices(nameSpace, members - todo) <= node.members
        decreases todo
      {
        var v := Pick(todo);
        var i := nameSpace.GetIndex(v);
        if i.Err? {
          return Err(NullPointer);
        }
        if i.value !in node.members {
          return Ok(false);
        }
        todo := todo - {v};
      }
      return Ok(true);
    }

    /**
     * `addNode(m)`: nothing changes when a node already holds every member; otherwise one
     * new node over `m` is added. An unknown member fails a lookup in either case.
     */
    method AddNode(members: set<L>) returns (out: Outcome)
      requires Valid() && nameSpace.Valid()
      modifies this
      ensures Valid() && edges == old(edges)
      ensures out.Pass? <==> forall v :: v in members ==> v in nameSpace.names
      ensures out.Fail? ==> out.error == NullPointer && nodes == old(nodes)
      ensures out.Pass? ==> Consumed(nodes, Indices(nameSpace, members))
      ensures out.Pass? && Consumed(old(nodes), Indices(nameSpace, members)) ==> nodes == old(nodes)
      ensures out.Pass? && !Consumed(old(nodes), Indices(nameSpace, members)) ==>
        exists n :: n !in old(nodes) && fresh(n) && nodes == old(nodes) + {n} && n.members == Indices(nameSpace, members) && n.edges == {}
      ensures old(nodes) <= nodes && forall n :: n in nodes - old(nodes) ==> fresh(n) && n.members == Indices(nameSpace, members)
    {
      var todo := nodes;
      while todo != {}
        invariant nodes == old(nodes) && edges == old(edges) && todo <= nodes
        invariant forall n :: n in nodes - todo ==> !(Indices(nameSpace, members) <= n.members)
        decreases todo
      {
        var node := Pick(todo);
        var c := NodeConsumes(node, members);
        if c.Err? {
          return Fail(NullPointer);
        }
        if c.value {
          return Pass;
        }
        todo := todo - {node};
      }
      if exists v :: v in members && v !in nameSpace.names {
        return Fail(NullPointer);
      }
      var n := new JunctionTreeNode(members, numClasses, nameSpace);
      nodes := nodes + {n};
      out := Pass;
    }

    /** The first loop of `buildEdges`: the candidate edges from every node to every other. */
    method BuildCandidates() returns (curr: JunctionTreeNode?<L>, unseen: set<JunctionTreeNode<L>>, ghost built: set<JunctionTreeEdge<L>>)
      requires Valid()
      modifies nodes
      ensures Valid() && Covers(nodes, nodes, built) && Registered(nodes, built)
      ensures unseen == nodes && (curr == null <==> nodes == {}) && (curr != null ==> curr in nodes)
    {
      curr, unseen, built := null, {}, {};
      var todo := nodes;
      while todo != {}
        invariant todo <= nodes && unseen == nodes - todo
        invariant (curr == null <==> unseen == {}) && (curr != null ==> curr in nodes)
        invariant Valid() && Covers(nodes, nodes - todo, built) && Registered(nodes, built)
        decreases todo
      {
        var first := Pick(todo);
        built := AddEdgesFrom(first, nodes - todo, built);
        assert nodes - (todo - {first}) == (nodes - todo) + {first};
        unseen := unseen + {first};
        curr := first;
        todo := todo - {first};
      }
    }

    /** The inner loop: an edge from `first` to every node not equal to it. */
    method AddEdgesFrom(first: JunctionTreeNode<L>, ghost done: set<JunctionTreeNode<L>>, ghost built: set<JunctionTreeEdge<L>>)
      returns (ghost built': set<JunctionTreeEdge<L>>)
      requires first in nodes && Valid() && Covers(nodes, done, built) && Registered(nodes, built)
      modifies nodes
      ensures Valid() && Covers(nodes, done + {first}, built') && Registered(nodes, built')
    {
      built' := built;
      var todo := nodes;
      while todo != {}
        invariant todo <= nodes && built <= built'
        invariant Valid() && Registered(nodes, built')
        invariant forall b :: b in nodes - todo && b != first && Overlap(first, b) > 0 ==>
          exists e :: e in built' && e.first == first && e.second == b
        decreases todo
      {
        var second := Pick(todo);
        if !first.Equals(second) {
          ghost var e := AddEdge(first, second);
          if e.weight > 0 {
            built' := built' + {e};
          }
        }
        todo := todo - {second};
      }
    }

    /** The heaviest edge of `es`, the first met among equals; null when `es` is empty. */
    static method Heaviest(es: set<JunctionTreeEdge<L>>) returns (best: JunctionTreeEdge?<L>)
      ensures best == null <==> es == {}
      ensures best != null ==> best in es && forall e :: e in es ==> e.weight <= best.weight
    {
      var maxCount: int := -1;
      best := null;
      var todo := es;
      while todo != {}
        invariant todo <= es
        invariant best == null <==> todo == es
        invariant best == null ==> maxCount == -1
        invariant best != null ==> best in es && best.weight == maxCount
        invariant maxCount >= -1 && forall e :: e in es - todo ==> e.weight <= maxCount
        decreases todo
      {
        var e := Pick(todo);
        if e.weight > maxCount {
          best := e;
          maxCount := e.weight;
        }
        todo := todo - {e};
      }
    }

    /** The heaviest edge from a seen node to an unseen one, scanning the seen nodes in turn. */
    static method HeaviestCrossing(seen: set<JunctionTreeNode<L>>, unseen: set<JunctionTreeNode<L>>)
      returns (best: JunctionTreeEdge?<L>, ghost from: JunctionTreeNode?<L>)
      ensures best == null ==> forall a, e :: a in seen && e in a.edges ==> e.GetOther(a) !in unseen
      ensures best != null ==> from != null && from in seen && best in from.edges && best.GetOther(from) in unseen
      ensures best != null ==> forall a, e :: a in seen && e in a.edges && e.GetOther(a) in unseen ==> e.weight <= best.weight
    {
      var maxCount: int := -1;
      best, from := null, null;
      var todo := seen;
      while todo != {}
        invariant todo <= seen && maxCount >= -1
        invariant best == null ==> maxCount == -1 && forall a, e :: a in seen - todo && e in a.edges ==> e.GetOther(a) !in unseen
        invariant best != null ==> from != null && from in seen && best in from.edges && best.GetOther(from) in unseen && best.weight == maxCount
        invariant forall a, e :: a in seen - todo && e in a.edges && e.GetOther(a) in unseen ==> e.weight <= maxCount
        decreases todo
      {
        var node := Pick(todo);
        var pending := node.GetEdges();
        while pending != {}
          invariant pending <= node.edges && maxCount >= -1
          invariant best == null ==> maxCount == -1 && forall a, e :: a in seen - todo && e in a.edges ==> e.GetOther(a) !in unseen
          invariant best == null ==> forall e :: e in node.edges - pending ==> e.GetOther(node) !in unseen
          invariant best != null ==> from != null && from in seen && best in from.edges && best.GetOther(from) in unseen && best.weight == maxCount
          invariant forall a, e :: a in seen - todo && e in a.edges && e.GetOther(a) in unseen ==> e.weight <= maxCount
          invariant forall e :: e in node.edges - pending && e.GetOther(node) in unseen ==> e.weight <= maxCount
          decreases pending
        {
          var edge := Pick(pending);
          if edge.weight > maxCount && edge.GetOther(node) in unseen {
            best, from := edge, node;
            maxCount := edge.weight;
          }
          pending := pending - {edge};
        }
        todo := todo - {node};
      }
    }

    /** The first Prim round: the heaviest edge at the start node, if it has any. */
    method FirstRound(curr: JunctionTreeNode<L>, ghost built: set<JunctionTreeEdge<L>>)
      returns (stop: Option<Outcome>, seen: set<JunctionTreeNode<L>>, unseen: set<JunctionTreeNode<L>>,
               finalEdges: set<JunctionTreeEdge<L>>, ghost order: seq<JunctionTreeNode<L>>, ghost links: seq<JunctionTreeEdge<L>>)
      requires Valid() && Covers(nodes, nodes, built) && Registered(nodes, built) && curr in nodes
      ensures stop.Some? ==> stop == Some(Pass) && Isolated(nodes, curr) && finalEdges == {} && links == []
      ensures stop.None? ==>
        Growing(nodes, seen, unseen, finalEdges, order, links) && links != [] && finalEdges != {} && |unseen| < |nodes|
    {
      var found := Heaviest(curr.GetEdges());
      if found == null {
        CrossingBound(nodes, built, {curr}, nodes - {curr}, 0);
        return Some(Pass), {}, nodes, {}, [], [];
      }
      var bestEdge: JunctionTreeEdge<L> := found;
      assert Attached({curr}, [curr], []);
      assert Listed<JunctionTreeEdge<L>>([]) == {};
      Grow(nodes, built, {curr}, nodes - {curr}, {}, [curr], [], curr, bestEdge);
      stop := None;
      order, links := [curr] + [bestEdge.GetOther(curr)], [] + [bestEdge];
      finalEdges := {} + {bestEdge};
      // The start node is an endpoint of its edge: these are the sets formed by moving both
      // endpoints from the unseen (all nodes) to the seen (none) nodes.
      unseen := nodes - {curr} - {bestEdge.first} - {bestEdge.second};
      seen := {curr} + {bestEdge.first} + {bestEdge.second};
    }

    /** A later Prim round: the heaviest edge from the nodes seen to the rest, or a failure. */
    method NextRound(ghost built: set<JunctionTreeEdge<L>>, seen: set<JunctionTreeNode<L>>, unseen: set<JunctionTreeNode<L>>,
                     finalEdges: set<JunctionTreeEdge<L>>, ghost order: seq<JunctionTreeNode<L>>, ghost links: seq<JunctionTreeEdge<L>>)
      returns (stop: Option<Outcome>, seen': set<JunctionTreeNode<L>>, unseen': set<JunctionTreeNode<L>>,
               finalEdges': set<JunctionTreeEdge<L>>, ghost order': seq<JunctionTreeNode<L>>, ghost links': seq<JunctionTreeEdge<L>>)
      requires Valid() && Covers(nodes, nodes, built) && Registered(nodes, built)
      requires Growing(nodes, seen, unseen, finalEdges, order, links) && links != [] && unseen != {}
      ensures stop.Some? ==> stop == Some(Fail(IllegalState)) && Cut(nodes, seen)
      ensures stop.None? ==>
        Growing(nodes, seen', unseen', finalEdges', order', links') && links' != [] && finalEdges' != {} && |unseen'| < |unseen|
    {
      var found;
      ghost var from;
      found, from := HeaviestCrossing(seen, unseen);
      if found == null {
        CrossingBound(nodes, built, seen, unseen, 0);
        return Some(Fail(IllegalState)), seen, unseen, finalEdges, order, links;
      }
      var bestEdge: JunctionTreeEdge<L> := found;
      Grow(nodes, built, seen, unseen, finalEdges, order, links, from, bestEdge);
      stop := None;
      order', links' := order + [bestEdge.GetOther(from)], links + [bestEdge];
      finalEdges' := finalEdges + {bestEdge};
      unseen' := unseen - {bestEdge.first} - {bestEdge.second};
      seen' := seen + {bestEdge.first} + {bestEdge.second};
    }

    /** The Prim rounds of `buildEdges`, over the candidate edges; nothing is changed. */
    method Span(curr: JunctionTreeNode?<L>, unseen0: set<JunctionTreeNode<L>>, ghost built: set<JunctionTreeEdge<L>>)
      returns (out: Outcome, finalEdges: set<JunctionTreeEdge<L>>, ghost order: seq<JunctionTreeNode<L>>, ghost links: seq<JunctionTreeEdge<L>>)
      requires Valid() && Covers(nodes, nodes, built) && Registered(nodes, built)
      requires unseen0 == nodes && (curr == null <==> nodes == {}) && (curr != null ==> curr in nodes)
      ensures out.Fail? ==> out.error == IllegalState && exists s :: Cut(nodes, s)
      ensures out.Pass? ==> (links == [] <==> finalEdges == {})
      ensures out.Pass? && links == [] ==> nodes == {} || exists c :: c in nodes && Isolated(nodes, c)
      ensures out.Pass? && links != [] ==>
        Attached(nodes, order, links) && Greedy(nodes, order, links) && finalEdges == Listed(links) && |finalEdges| + 1 == |nodes|
      ensures out.Pass? ==> forall e :: e in finalEdges ==> e.first in nodes && e in e.first.edges && e in e.second.edges
    {
      order, links := [], [];
      finalEdges := {};
      var unseen := unseen0;
      var seen: set<JunctionTreeNode<L>> := {};
      while unseen != {}
        invariant finalEdges == {} ==> seen == {} && unseen == nodes && links == []
        invariant finalEdges != {} ==> Growing(nodes, seen, unseen, finalEdges, order, links) && links != []
        decreases |unseen|
      {
        var stop;
        if finalEdges == {} {
          stop, seen, unseen, finalEdges, order, links := FirstRound(curr, built);
        } else {
          stop, seen, unseen, finalEdges, order, links := NextRound(built, seen, unseen, finalEdges, order, links);
        }
        if stop.Some? {
          return stop.value, finalEdges, order, links;
        }
      }
      out := Pass;
    }

    /**
     * `buildEdges`: builds the candidate edge from every node to every other node it overlaps,
     * then grows a spanning tree the way Prim's algorithm does, each round taking the heaviest
     * edge from the nodes seen to the rest, and finally prunes every node's edges to that tree.
     * When the start node has no candidate edge the method returns at once, before pruning;
     * when no edge leaves the nodes seen it fails.
     */
    method BuildEdges() returns (out: Outcome, ghost order: seq<JunctionTreeNode<L>>, ghost links: seq<JunctionTreeEdge<L>>)
      requires Valid()
      modifies this, nodes
      ensures Valid() && nodes == old(nodes)
      ensures out.Fail? ==> out.error == IllegalState && exists s :: Cut(nodes, s)
      ensures out.Pass? && links == [] ==>
        edges == old(edges) && Candidates(nodes, nodes) && (nodes == {} || exists c :: c in nodes && Isolated(nodes, c))
      ensures out.Pass? && links != [] ==>
        Attached(nodes, order, links) && Greedy(nodes, order, links) && edges == old(edges) + Listed(links) && |Listed(links)| + 1 == |nodes|
      ensures out.Pass? && links != [] ==> forall n :: n in nodes ==> n.edges == set e | e in Listed(links) && Incident(e, n)
      ensures out.Pass? ==> MaximumSpanning(nodes, links)
    {
      var curr, unseen;
      ghost var built;
      curr, unseen, built := BuildCandidates();
      var finalEdges;
      out, finalEdges, order, links := Span(curr, unseen, built);
      if out.Pass? {
        if finalEdges == {} {
          CandidatesRegistered(nodes, built);
          TrivialHeaviest(nodes);
        } else {
          PruneAll(finalEdges);
          GreedyHeaviest(nodes, order, links);
        }
      }
    }

    /**
     * `buildEdges` with its early return pruning as well: when the start node has no candidate
     * edge every node is left with none, so that, whatever the outcome of the search, the tree
     * handed to the message passes can be rooted at any node.
     */
    method BuildPrunedEdges() returns (out: Outcome, ghost order: seq<JunctionTreeNode<L>>, ghost links: seq<JunctionTreeEdge<L>>)
      requires Valid()
      modifies this, nodes
      ensures Valid() && nodes == old(nodes)
      ensures out.Fail? ==> out.error == IllegalState && exists s :: Cut(nodes, s)
      ensures out.Pass? ==>
        edges == old(edges) + Listed(links) && forall n :: n in nodes ==> n.edges == set e | e in Listed(links) && Incident(e, n)
      ensures out.Pass? && links == [] ==> nodes == {} || exists c :: c in nodes && Isolated(nodes, c)
      ensures out.Pass? && links != [] ==> Attached(nodes, order, links) && Greedy(nodes, order, links) && |Listed(links)| + 1 == |nodes|
      ensures out.Pass? ==> MaximumSpanning(nodes, links)
    {
      var curr, unseen;
      ghost var built;
      curr, unseen, built := BuildCandidates();
      var finalEdges;
      out, finalEdges, order, links := Span(curr, unseen, built);
      if out.Pass? {
        assert finalEdges == Listed(links);
        PruneAll(finalEdges);
        if links == [] {
          TrivialHeaviest(nodes);
        } else {
          GreedyHeaviest(nodes, order, links);
        }
      }
    }

    /** Keeps, at every node, only the incident edges of the final tree, and adds those to the tree's edges. */
    method PruneAll(finalEdges: set<JunctionTreeEdge<L>>)
      requires Valid() && forall e :: e in finalEdges ==> e.first in nodes && e in e.first.edges && e in e.second.edges
      modifies this`edges, nodes
      ensures Valid() && edges == old(edges) + finalEdges
      ensures forall n :: n in nodes ==> n.edges == set e | e in finalEdges && Incident(e, n)
    {
      ghost var before := map n | n in nodes :: n.edges;
      assert Sound(nodes, finalEdges);
      var todo := nodes;
      while todo != {}
        invariant todo <= nodes && edges == old(edges)
        invariant forall n :: n in nodes ==> n.edges == if n in todo then before[n] else before[n] * finalEdges
        decreases todo
      {
        var node := Pick(todo);
        node.Retain(finalEdges);
        todo := todo - {node};
      }
      PrunedValid(nodes, finalEdges);
      edges := edges + finalEdges;
    }

    /** Registers the edge at both endpoints only when the overlap weight is nonzero. */
    method AddEdge(first: JunctionTreeNode<L>, second: JunctionTreeNode<L>) returns (ghost e: JunctionTreeEdge<L>)
      modifies first, second
      ensures fresh(e) && e.first == first && e.second == second && e.weight == Overlap(first, second)
      ensures e.weight != 0 ==> first.edges == old(first.edges) + {e} && second.edges == old(second.edges) + {e}
      ensures e.weight == 0 ==> first.edges == old(first.edges) && second.edges == old(second.edges)
      ensures first.factor == old(first.factor) && second.factor == old(second.factor)
      ensures old(EdgesValid(nodes)) && first in nodes && second in nodes && first != second ==> EdgesValid(nodes)
    {
      var newEdge := new JunctionTreeEdge(first, second);
      e := newEdge;
      if newEdge.weight != 0 {
        first.AddEdge(newEdge);
        second.AddEdge(newEdge);
        if old(EdgesValid(nodes)) && first in nodes && second in nodes && first != second {
          forall n, x | n in nodes && x in n.edges
            ensures Incident(x, n) && x.first in nodes && x.second in nodes && x.first != x.second &&
              x.weight == Overlap(x.first, x.second) && x.weight > 0 && x in x.first.edges && x in x.second.edges
          {
            if x != newEdge {
              assert old(x in n.edges);
            }
          }
        }
      }
    }
  }

  /** Every node of `firsts` has its edge to each other node it overlaps registered at it. */
  ghost predicate Candidates<L(!new)>(nodes: set<JunctionTreeNode<L>>, firsts: set<JunctionTreeNode<L>>)
    reads nodes
  {
    forall a, b :: a in firsts && a in nodes && b in nodes && a != b && Overlap(a, b) > 0 ==>
      exists e :: e in a.edges && e.first == a && e.second == b
  }

  /** `built` holds an edge from every node of `firsts` to each other node it overlaps. */
  ghost predicate Covers<L(!new)>(nodes: set<JunctionTreeNode<L>>, firsts: set<JunctionTreeNode<L>>, built: set<JunctionTreeEdge<L>>) {
    forall a, b :: a in firsts && b in nodes && a != b && Overlap(a, b) > 0 ==>
      exists e :: e in built && e.first == a && e.second == b
  }

  /** Every edge of `built` joins two nodes, weighs their overlap and is registered at both. */
  ghost predicate Registered<L(!new)>(nodes: set<JunctionTreeNode<L>>, built: set<JunctionTreeEdge<L>>)
    reads nodes
  {
    forall e :: e in built ==>
      e.first in nodes && e.second in nodes && e.weight == Overlap(e.first, e.second) &&
      e in e.first.edges && e in e.second.edges
  }

  /** Distinct nodes of the tree hold distinct members. */
  ghost predicate DistinctMembers<L(!new)>(nodes: set<JunctionTreeNode<L>>) {
    forall a, b :: a in nodes && b in nodes && a != b ==> a.members != b.members
  }

  /** Built and registered candidate edges are candidate edges at their first endpoints. */
  lemma CandidatesRegistered<L(!new)>(nodes: set<JunctionTreeNode<L>>, built: set<JunctionTreeEdge<L>>)
    requires Covers(nodes, nodes, built) && Registered(nodes, built)
    ensures Candidates(nodes, nodes)
  {
    forall a, b | a in nodes && b in nodes && a != b && Overlap(a, b) > 0
      ensures exists e :: e in a.edges && e.first == a && e.second == b
    {
      var e :| e in built && e.first == a && e.second == b;
    }
  }

  /**
   * When every edge from `seen` to `unseen` weighs at most `w`, so does every overlap across:
   * an overlapping pair always has its candidate edge.
   */
  lemma CrossingBound<L(!new)>(nodes: set<JunctionTreeNode<L>>, built: set<JunctionTreeEdge<L>>,
                               seen: set<JunctionTreeNode<L>>, unseen: set<JunctionTreeNode<L>>, w: int)
    requires Covers(nodes, nodes, built) && Registered(nodes, built)
    requires seen + unseen == nodes && seen * unseen == {} && w >= 0
    requires forall a, e :: a in seen && e in a.edges && e.GetOther(a) in unseen ==> e.weight <= w
    ensures forall a, b :: a in seen && b in nodes && b !in seen ==> Overlap(a, b) <= w
  {
    forall a, b | a in seen && b in nodes && b !in seen ensures Overlap(a, b) <= w {
      if Overlap(a, b) > 0 {
        var e :| e in built && e.first == a && e.second == b;
        assert e in a.edges && e.GetOther(a) == b && b in unseen;
        assert e.weight <= w;
      }
    }
  }

  /** The state of the Prim rounds: the nodes seen, attached greedily by the final edges. */
  ghost predicate Growing<L(!new)>(nodes: set<JunctionTreeNode<L>>, seen: set<JunctionTreeNode<L>>, unseen: set<JunctionTreeNode<L>>,
                                   finalEdges: set<JunctionTreeEdge<L>>, order: seq<JunctionTreeNode<L>>, links: seq<JunctionTreeEdge<L>>)
    reads nodes
  {
    seen + unseen == nodes && seen * unseen == {} &&
    Attached(seen, order, links) && Greedy(nodes, order, links) &&
    finalEdges == Listed(links) && |finalEdges| == |links| &&
    forall e :: e in finalEdges ==>
      e.first in seen && e.second in seen && e in e.first.edges && e in e.second.edges
  }

  /** One more node, joined to a seen one by `best`, keeps the order attached. */
  lemma AttachedExtend<L(!new)>(seen: set<JunctionTreeNode<L>>, order: seq<JunctionTreeNode<L>>, links: seq<JunctionTreeEdge<L>>,
                                from: JunctionTreeNode<L>, x: JunctionTreeNode<L>, best: JunctionTreeEdge<L>)
    requires Attached(seen, order, links) && from in seen && x !in seen
    requires Joins(best, x, from) && best.weight > 0 && best.weight == Overlap(best.first, best.second)
    ensures Attached(seen + {best.first} + {best.second}, order + [x], links + [best])
  {
    assert seen + {best.first} + {best.second} == seen + {x};
    var order', links' := order + [x], links + [best];
    forall k | 1 <= k < |order'| ensures AttachedAt(order', links', k) {
      if k < |order| {
        assert AttachedAt(order, links, k);
        var j :| 0 <= j < k && Joins(links[k - 1], order[k], order[j]);
        assert Joins(links'[k - 1], order'[k], order'[j]);
      } else {
        var j :| 0 <= j < |order| && order[j] == from;
        assert Joins(links'[k - 1], order'[k], order'[j]);
      }
    }
  }

  /** A link weighing at least every overlap leaving the order keeps the order greedy. */
  lemma GreedyExtend<L(!new)>(nodes: set<JunctionTreeNode<L>>, order: seq<JunctionTreeNode<L>>, links: seq<JunctionTreeEdge<L>>,
                              x: JunctionTreeNode<L>, best: JunctionTreeEdge<L>)
    requires |links| + 1 == |order| && Greedy(nodes, order, links)
    requires forall a, b :: a in order && b in nodes && b !in order ==> Overlap(a, b) <= best.weight
    ensures Greedy(nodes, order + [x], links + [best])
  {
    var order', links' := order + [x], links + [best];
    forall k | 1 <= k < |order'| ensures GreedyAt(nodes, order', links', k) {
      if k < |order| {
        assert GreedyAt(nodes, order, links, k);
        assert order'[..k] == order[..k];
      } else {
        assert order'[..k] == order;
      }
    }
  }

  /** At a node of the tree, `getOther` of an incident edge is its other endpoint. */
  lemma OtherEnd<L(!new)>(nodes: set<JunctionTreeNode<L>>, n: JunctionTreeNode<L>, e: JunctionTreeEdge<L>)
    requires DistinctMembers(nodes) && EdgesValid(nodes) && n in nodes && e in n.edges
    ensures e.GetOther(n) in nodes && e.GetOther(n) != n && Joins(e, e.GetOther(n), n)
    ensures {e.first, e.second} == {n, e.GetOther(n)}
  {
  }

  /** Moving the new node across keeps the seen and unseen nodes a partition, and shrinks the unseen. */
  lemma PartitionStep<L(!new)>(nodes: set<JunctionTreeNode<L>>, seen: set<JunctionTreeNode<L>>, unseen: set<JunctionTreeNode<L>>,
                               from: JunctionTreeNode<L>, x: JunctionTreeNode<L>, best: JunctionTreeEdge<L>)
    requires seen + unseen == nodes && seen * unseen == {} && from in seen && x in unseen
    requires {best.first, best.second} == {from, x}
    ensures (seen + {best.first} + {best.second}) + (unseen - {best.first} - {best.second}) == nodes
    ensures (seen + {best.first} + {best.second}) * (unseen - {best.first} - {best.second}) == {}
    ensures |unseen - {best.first} - {best.second}| < |unseen|
  {
    assert seen + {best.first} + {best.second} == seen + {x};
    assert unseen - {best.first} - {best.second} == unseen - {x};
  }

  /** The new link is not an old one, and it is registered with both endpoints seen. */
  lemma LinksStep<L(!new)>(seen: set<JunctionTreeNode<L>>, finalEdges: set<JunctionTreeEdge<L>>, links: seq<JunctionTreeEdge<L>>,
                           from: JunctionTreeNode<L>, x: JunctionTreeNode<L>, best: JunctionTreeEdge<L>)
    requires finalEdges == Listed(links) && |finalEdges| == |links|
    requires forall e :: e in finalEdges ==> e.first in seen && e.second in seen && e in e.first.edges && e in e.second.edges
    requires from in seen && x !in seen && {best.first, best.second} == {from, x}
    requires best in best.first.edges && best in best.second.edges
    ensures finalEdges + {best} == Listed(links + [best]) && |finalEdges + {best}| == |links + [best]|
    ensures forall e :: e in finalEdges + {best} ==>
      e.first in seen + {best.first} + {best.second} && e.second in seen + {best.first} + {best.second} &&
      e in e.first.edges && e in e.second.edges
  {
    assert best !in finalEdges by {
      assert x == best.first || x == best.second;
    }
    assert Listed(links + [best]) == finalEdges + {best};
  }

  /** A Prim round: the heaviest edge leaving the nodes seen attaches one node more. */
  lemma Grow<L(!new)>(nodes: set<JunctionTreeNode<L>>, built: set<JunctionTreeEdge<L>>,
                      seen: set<JunctionTreeNode<L>>, unseen: set<JunctionTreeNode<L>>,
                      finalEdges: set<JunctionTreeEdge<L>>, order: seq<JunctionTreeNode<L>>, links: seq<JunctionTreeEdge<L>>,
                      from: JunctionTreeNode<L>, best: JunctionTreeEdge<L>)
    requires DistinctMembers(nodes) && EdgesValid(nodes) && Covers(nodes, nodes, built) && Registered(nodes, built)
    requires Growing(nodes, seen, unseen, finalEdges, order, links)
    requires from in seen && best in from.edges && best.GetOther(from) in unseen
    requires forall a, e :: a in seen && e in a.edges && e.GetOther(a) in unseen ==> e.weight <= best.weight
    ensures {best.first, best.second} == {from, best.GetOther(from)}
    ensures |unseen - {best.first} - {best.second}| < |unseen|
    ensures Growing(nodes, seen + {best.first} + {best.second}, unseen - {best.first} - {best.second}, finalEdges + {best},
                    order + [best.GetOther(from)], links + [best])
  {
    var x := best.GetOther(from);
    OtherEnd(nodes, from, best);
    PartitionStep(nodes, seen, unseen, from, x, best);
    CrossingBound(nodes, built, seen, unseen, best.weight);
    AttachedExtend(seen, order, links, from, x, best);
    GreedyExtend(nodes, order, links, x, best);
    LinksStep(seen, finalEdges, links, from, x, best);
  }

  /** Every edge of `es` joins two distinct nodes and weighs their positive overlap. */
  ghost predicate Sound<L(!new)>(nodes: set<JunctionTreeNode<L>>, es: set<JunctionTreeEdge<L>>) {
    forall e :: e in es ==>
      e.first in nodes && e.second in nodes && e.first != e.second && e.weight == Overlap(e.first, e.second) && e.weight > 0
  }

  /** Nodes holding exactly their incident edges of a sound edge set satisfy the edge invariant. */
  lemma PrunedValid<L(!new)>(nodes: set<JunctionTreeNode<L>>, es: set<JunctionTreeEdge<L>>)
    requires Sound(nodes, es)
    requires forall n :: n in nodes ==> n.edges == set e | e in es && Incident(e, n)
    ensures EdgesValid(nodes)
  {
  }

  /** Every incident edge joins two distinct nodes, weighs their positive overlap, and is at both ends. */
  ghost predicate EdgesValid<L(!new)>(nodes: set<JunctionTreeNode<L>>)
    reads nodes
  {
    forall n, e :: n in nodes && e in n.edges ==>
      Incident(e, n) && e.first in nodes && e.second in nodes && e.first != e.second &&
      e.weight == Overlap(e.first, e.second) && e.weight > 0 &&
      e in e.first.edges && e in e.second.edges
  }

  /**
   * A rooted-tree certificate for the two message passes: `up` maps every node but the root to
   * the edge towards its parent and `level` gives each node's depth. Every incident edge joins
   * two distinct nodes and is the parent edge of one of them, which lies one level deeper.
   */
  ghost predicate Rooted<L(!new)>(nodes: set<JunctionTreeNode<L>>, up: map<JunctionTreeNode<L>, JunctionTreeEdge<L>>, level: map<JunctionTreeNode<L>, nat>)
    reads nodes`edges
  {
    && DistinctMembers(nodes) && level.Keys == nodes && up.Keys <= nodes
    && (forall n :: n in nodes ==> level[n] < |nodes|)
    && (forall n, e {:trigger TreeEdge(nodes, up, n, e)} :: n in nodes && e in n.edges ==> TreeEdge(nodes, up, n, e))
    && (forall n {:trigger ParentEdge(up, level, n)} :: n in up ==> ParentEdge(up, level, n))
  }

  /** `e`, an edge of `n`, joins two distinct nodes and is the parent edge of one of them. */
  ghost predicate TreeEdge<L(!new)>(nodes: set<JunctionTreeNode<L>>, up: map<JunctionTreeNode<L>, JunctionTreeEdge<L>>,
                                    n: JunctionTreeNode<L>, e: JunctionTreeEdge<L>) {
    Incident(e, n) && e.first in nodes && e.second in nodes && e.first != e.second &&
    ((e.GetOther(n) in up && up[e.GetOther(n)] == e) || (n in up && up[n] == e))
  }

  /** The parent edge of `n` is one of its edges and leads one level up. */
  ghost predicate ParentEdge<L(!new)>(up: map<JunctionTreeNode<L>, JunctionTreeEdge<L>>, level: map<JunctionTreeNode<L>, nat>, n: JunctionTreeNode<L>)
    reads n`edges
  {
    n in up && n in level && up[n] in n.edges && up[n].GetOther(n) in level && level[up[n].GetOther(n)] + 1 == level[n]
  }

  /** `e` leads from `n` down to a child: it is the child's parent edge, one level deeper. */
  ghost predicate ChildEdge<L(!new)>(up: map<JunctionTreeNode<L>, JunctionTreeEdge<L>>, level: map<JunctionTreeNode<L>, nat>,
                                     n: JunctionTreeNode<L>, e: JunctionTreeEdge<L>) {
    var o := e.GetOther(n);
    o in up && up[o] == e && n in level && o in level && level[o] == level[n] + 1
  }

  /** `n` is entered from `parent`: nothing at the root, else the other end of its parent edge. */
  ghost predicate EnteredFrom<L(!new)>(up: map<JunctionTreeNode<L>, JunctionTreeEdge<L>>, n: JunctionTreeNode<L>, parent: JunctionTreeNode?<L>) {
    if n in up then parent == up[n].GetOther(n) else parent == null
  }

  /** The nodes at depth `k` or deeper. */
  ghost function Deeper<L(!new)>(nodes: set<JunctionTreeNode<L>>, level: map<JunctionTreeNode<L>, nat>, k: int): set<JunctionTreeNode<L>> {
    set m | m in nodes && m in level && level[m] >= k
  }

  /** The parent edges of the nodes at depth `k` or deeper. */
  ghost function DeeperEdges<L(!new)>(up: map<JunctionTreeNode<L>, JunctionTreeEdge<L>>, level: map<JunctionTreeNode<L>, nat>, k: int): set<JunctionTreeEdge<L>> {
    set m | m in up && m in level && level[m] >= k :: up[m]
  }

  /** The tree part of `Rooted` over the nodes `seen` and the edge set `es` in place of the nodes' own edges. */
  ghost predicate TreeOver<L(!new)>(nodes: set<JunctionTreeNode<L>>, seen: set<JunctionTreeNode<L>>, es: set<JunctionTreeEdge<L>>,
                                    up: map<JunctionTreeNode<L>, JunctionTreeEdge<L>>, level: map<JunctionTreeNode<L>, nat>) {
    && level.Keys == seen && up.Keys <= seen
    && (forall n, e {:trigger TreeEdge(nodes, up, n, e)} :: n in seen && e in es && Incident(e, n) ==> TreeEdge(nodes, up, n, e))
    && (forall n {:trigger ParentOver(es, up, level, n)} :: n in up ==> ParentOver(es, up, level, n))
  }

  /** The parent edge of `n` is an edge of `es` at `n` and leads one level up. */
  ghost predicate ParentOver<L(!new)>(es: set<JunctionTreeEdge<L>>, up: map<JunctionTreeNode<L>, JunctionTreeEdge<L>>,
                                      level: map<JunctionTreeNode<L>, nat>, n: JunctionTreeNode<L>) {
    n in up && n in level && up[n] in es && Incident(up[n], n) &&
    up[n].GetOther(n) in level && level[up[n].GetOther(n)] + 1 == level[n]
  }

  /**
   * A tree pruned to the links of an attachment order, or to no edge at all, can be rooted at any
   * node: this is the certificate the collecting and propagating passes require.
   */
  lemma PrunedRooted<L(!new)>(nodes: set<JunctionTreeNode<L>>, order: seq<JunctionTreeNode<L>>, links: seq<JunctionTreeEdge<L>>)
    requires DistinctMembers(nodes) && (links == [] || Attached(nodes, order, links))
    requires forall n :: n in nodes ==> n.edges == set e | e in Listed(links) && Incident(e, n)
    ensures forall root :: root in nodes ==> exists up, level :: Rooted(nodes, up, level) && root !in up
  {
    forall root | root in nodes ensures exists up, level :: Rooted(nodes, up, level) && root !in up {
      if links == [] {
        var up: map<JunctionTreeNode<L>, JunctionTreeEdge<L>> := map[];
        var level := map n | n in nodes :: 0;
        assert Rooted(nodes, up, level);
      } else {
        var up, level := SpanningRooted(nodes, order, links, root);
      }
    }
  }

  /**
   * Left with every candidate edge, as the early return of `buildEdges` leaves it, a tree with
   * two overlapping nodes holds two parallel edges between them, and no certificate roots it.
   */
  lemma CandidatesUnrooted<L(!new)>(nodes: set<JunctionTreeNode<L>>, a: JunctionTreeNode<L>, b: JunctionTreeNode<L>)
    requires DistinctMembers(nodes) && EdgesValid(nodes) && Candidates(nodes, nodes)
    requires a in nodes && b in nodes && a != b && Overlap(a, b) > 0
    ensures forall up, level :: !Rooted(nodes, up, level)
  {
    OverlapCommutes(a, b);
    var e :| e in a.edges && e.first == a && e.second == b;
    var e' :| e' in b.edges && e'.first == b && e'.second == a;
    forall up, level ensures !Rooted(nodes, up, level) {
      ParallelUnrooted(nodes, up, level, a, b, e, e');
    }
  }

  /** Two distinct edges at `a` joining it to the same node leave no way to root the tree. */
  lemma ParallelUnrooted<L(!new)>(nodes: set<JunctionTreeNode<L>>, up: map<JunctionTreeNode<L>, JunctionTreeEdge<L>>,
                                  level: map<JunctionTreeNode<L>, nat>, a: JunctionTreeNode<L>, b: JunctionTreeNode<L>,
                                  e: JunctionTreeEdge<L>, e': JunctionTreeEdge<L>)
    requires a in nodes && b in nodes && a != b && DistinctMembers(nodes)
    requires e in a.edges && e' in a.edges && e != e' && Joins(e, a, b) && Joins(e', a, b)
    ensures !Rooted(nodes, up, level)
  {
    ParentSide(nodes, up, level, a, b, e);
    ParentSide(nodes, up, level, a, b, e');
  }

  /** Under a certificate, an edge between `a` and `b` is the parent edge of one of them, one level below the other. */
  lemma ParentSide<L(!new)>(nodes: set<JunctionTreeNode<L>>, up: map<JunctionTreeNode<L>, JunctionTreeEdge<L>>,
                            level: map<JunctionTreeNode<L>, nat>, a: JunctionTreeNode<L>, b: JunctionTreeNode<L>, e: JunctionTreeEdge<L>)
    requires a in nodes && b in nodes && a != b && DistinctMembers(nodes) && e in a.edges && Joins(e, a, b)
    ensures Rooted(nodes, up, level) ==>
      (b in up && up[b] == e && level[b] == level[a] + 1) || (a in up && up[a] == e && level[a] == level[b] + 1)
  {
    OtherEndpoint(e);
    if Rooted(nodes, up, level) {
      assert TreeEdge(nodes, up, a, e);
      if b in up && up[b] == e {
        assert ParentEdge(up, level, b);
      } else {
        assert ParentEdge(up, level, a);
      }
    }
  }

  /** A tree pruned to a spanning tree's links, rooted at `root`. */
  lemma SpanningRooted<L(!new)>(nodes: set<JunctionTreeNode<L>>, order: seq<JunctionTreeNode<L>>, links: seq<JunctionTreeEdge<L>>,
                                root: JunctionTreeNode<L>) returns (up: map<JunctionTreeNode<L>, JunctionTreeEdge<L>>, level: map<JunctionTreeNode<L>, nat>)
    requires DistinctMembers(nodes) && Attached(nodes, order, links) && root in nodes
    requires forall n :: n in nodes ==> n.edges == set e | e in Listed(links) && Incident(e, n)
    ensures Rooted(nodes, up, level) && root !in up
  {
    assert order[..|order|] == order && links[..|order| - 1] == links;
    assert Listed(order) == nodes;
    up, level := PrefixRooted(nodes, order, links, |order|, root);
    forall n, e | n in nodes && e in n.edges ensures TreeEdge(nodes, up, n, e) {
      assert e in Listed(links) && Incident(e, n);
    }
    forall n | n in up ensures ParentEdge(up, level, n) {
      assert ParentOver(Listed(links), up, level, n);
    }
  }

  /**
   * The first `k` nodes of an attachment order, with the links among them, rooted at any one of
   * them at depth 0; the depths stay below `k`.
   */
  lemma {:induction false} PrefixRooted<L(!new)>(nodes: set<JunctionTreeNode<L>>, order: seq<JunctionTreeNode<L>>, links: seq<JunctionTreeEdge<L>>,
                                                 k: int, root: JunctionTreeNode<L>)
    returns (up: map<JunctionTreeNode<L>, JunctionTreeEdge<L>>, level: map<JunctionTreeNode<L>, nat>)
    requires DistinctMembers(nodes) && Attached(nodes, order, links) && 1 <= k <= |order| && root in order[..k]
    ensures TreeOver(nodes, Listed(order[..k]), Listed(links[..k - 1]), up, level)
    ensures root !in up && root in level && level[root] == 0 && forall n :: n in level ==> level[n] < k
    decreases k
  {
    if k == 1 {
      assert Listed(order[..1]) == {order[0]} && Listed(links[..0]) == {};
      up, level := map[], map[order[0] := 0];
    } else {
      var j := PrefixGrow(nodes, order, links, k);
      var x, y, l := order[k - 1], order[j], links[k - 2];
      if root != x {
        var up0, level0 := PrefixRooted(nodes, order, links, k - 1, root);
        up, level := LeafStep(nodes, Listed(order[..k - 1]), Listed(links[..k - 2]), up0, level0, x, y, l);
      } else {
        var up0, level0 := PrefixRooted(nodes, order, links, k - 1, y);
        up, level := RerootStep(nodes, Listed(order[..k - 1]), Listed(links[..k - 2]), up0, level0, x, y, l);
      }
    }
  }

  /** The `k`-th node of an attachment order is new, and its link joins it to an earlier node. */
  lemma PrefixGrow<L(!new)>(nodes: set<JunctionTreeNode<L>>, order: seq<JunctionTreeNode<L>>, links: seq<JunctionTreeEdge<L>>, k: int)
    returns (j: int)
    requires Attached(nodes, order, links) && 2 <= k <= |order|
    ensures 0 <= j < k - 1 && Joins(links[k - 2], order[k - 1], order[j])
    ensures Listed(order[..k]) == Listed(order[..k - 1]) + {order[k - 1]}
    ensures Listed(links[..k - 1]) == Listed(links[..k - 2]) + {links[k - 2]}
    ensures Listed(order[..k - 1]) <= nodes && order[k - 1] in nodes
    ensures order[k - 1] !in Listed(order[..k - 1]) && order[j] in Listed(order[..k - 1])
    ensures forall n :: n in order[..k] && n != order[k - 1] ==> n in order[..k - 1]
    ensures forall e :: e in Listed(links[..k - 2]) ==> e.first in Listed(order[..k - 1]) && e.second in Listed(order[..k - 1])
  {
    assert AttachedAt(order, links, k - 1);
    j := AttachIndex(order, links, k - 1);
    assert order[..k] == order[..k - 1] + [order[k - 1]] && links[..k - 1] == links[..k - 2] + [links[k - 2]];
    assert order[j] in order[..k - 1];
    LinksInside(order, links, k - 1);
  }

  /** The links among the first `k` nodes of an attachment order join two of those nodes. */
  lemma LinksInside<L(!new)>(order: seq<JunctionTreeNode<L>>, links: seq<JunctionTreeEdge<L>>, k: int)
    requires |links| + 1 == |order| && 1 <= k <= |order| && forall i :: 1 <= i < |order| ==> AttachedAt(order, links, i)
    ensures forall e :: e in Listed(links[..k - 1]) ==> e.first in order[..k] && e.second in order[..k]
  {
    forall e | e in Listed(links[..k - 1]) ensures e.first in order[..k] && e.second in order[..k] {
      var i :| 0 <= i < k - 1 && links[i] == e;
      assert AttachedAt(order, links, i + 1);
    }
  }

  /** A new node `x` joined by `l` to `y` becomes a leaf below `y`. */
  lemma LeafStep<L(!new)>(nodes: set<JunctionTreeNode<L>>, seen: set<JunctionTreeNode<L>>, es: set<JunctionTreeEdge<L>>,
                          up: map<JunctionTreeNode<L>, JunctionTreeEdge<L>>, level: map<JunctionTreeNode<L>, nat>,
                          x: JunctionTreeNode<L>, y: JunctionTreeNode<L>, l: JunctionTreeEdge<L>)
    returns (up': map<JunctionTreeNode<L>, JunctionTreeEdge<L>>, level': map<JunctionTreeNode<L>, nat>)
    requires DistinctMembers(nodes) && seen <= nodes && x in nodes && x !in seen && y in seen && Joins(l, x, y)
    requires forall e :: e in es ==> e.first in seen && e.second in seen
    requires TreeOver(nodes, seen, es, up, level)
    ensures up' == up[x := l] && level' == level[x := level[y] + 1]
    ensures TreeOver(nodes, seen + {x}, es + {l}, up', level')
  {
    up', level' := up[x := l], level[x := level[y] + 1];
    OtherEndpoint(l);
    forall n, e | n in seen + {x} && e in es + {l} && Incident(e, n) ensures TreeEdge(nodes, up', n, e) {
      if e != l {
        assert TreeEdge(nodes, up, n, e);
      }
    }
    forall n | n in up' ensures ParentOver(es + {l}, up', level', n) {
      if n != x {
        assert ParentOver(es, up, level, n);
      }
    }
  }

  /** A new node `x` joined by `l` to the root `y` becomes the root, one level above everything else. */
  lemma RerootStep<L(!new)>(nodes: set<JunctionTreeNode<L>>, seen: set<JunctionTreeNode<L>>, es: set<JunctionTreeEdge<L>>,
                            up: map<JunctionTreeNode<L>, JunctionTreeEdge<L>>, level: map<JunctionTreeNode<L>, nat>,
                            x: JunctionTreeNode<L>, y: JunctionTreeNode<L>, l: JunctionTreeEdge<L>)
    returns (up': map<JunctionTreeNode<L>, JunctionTreeEdge<L>>, level': map<JunctionTreeNode<L>, nat>)
    requires DistinctMembers(nodes) && seen <= nodes && x in nodes && x !in seen && y in seen && Joins(l, x, y)
    requires forall e :: e in es ==> e.first in seen && e.second in seen
    requires TreeOver(nodes, seen, es, up, level) && y !in up && level[y] == 0
    ensures up' == up[y := l] && level' == (map n | n in seen :: level[n] + 1)[x := 0]
    ensures TreeOver(nodes, seen + {x}, es + {l}, up', level')
  {
    up', level' := up[y := l], (map n | n in seen :: level[n] + 1)[x := 0];
    OtherEndpoint(l);
    forall n, e | n in seen + {x} && e in es + {l} && Incident(e, n) ensures TreeEdge(nodes, up', n, e) {
      if e != l {
        assert TreeEdge(nodes, up, n, e);
      }
    }
    forall n | n in up' ensures ParentOver(es + {l}, up', level', n) {
      if n != y {
        assert ParentOver(es, up, level, n);
      }
    }
  }

  /**
   * Under the certificate, an edge of `n` leads to a child exactly when it does not touch the
   * node `n` was entered from, and exactly when it is not `n`'s parent edge.
   */
  lemma ChildStep<L(!new)>(nodes: set<JunctionTreeNode<L>>, up: map<JunctionTreeNode<L>, JunctionTreeEdge<L>>, level: map<JunctionTreeNode<L>, nat>,
                           n: JunctionTreeNode<L>, parent: JunctionTreeNode?<L>, e: JunctionTreeEdge<L>)
    requires Rooted(nodes, up, level) && n in nodes && e in n.edges && EnteredFrom(up, n, parent)
    ensures !e.Contains(parent) <==> ChildEdge(up, level, n, e)
    ensures (n in up && up[n] == e) <==> !ChildEdge(up, level, n, e)
  {
    var o := e.GetOther(n);
    assert TreeEdge(nodes, up, n, e);
    assert e.first.members != e.second.members;
    OtherEndpoint(e);
    assert o in nodes && o != n && e.Contains(n) && e.GetOther(o) == n;
    if o in up && up[o] == e {
      assert ParentEdge(up, level, o);
    }
    if n in up {
      var pe := up[n];
      var p := pe.GetOther(n);
      assert ParentEdge(up, level, n);
      assert TreeEdge(nodes, up, n, pe);
      assert pe.first.members != pe.second.members;
      OtherEndpoint(pe);
      assert p in nodes && p != n && level[p] + 1 == level[n];
      if pe == e {
        assert p == o;
        assert o in up ==> up[o] != e;
      } else {
        assert o in up && up[o] == e;
        assert p != o;
        assert !e.Contains(p);
      }
    } else {
      assert o in up && up[o] == e;
    }
  }

  /**
   * A child edge of `n` touches `n`, and it is the parent edge of a node one level below `n`
   * but of no node two levels below.
   */
  lemma ChildShallow<L(!new)>(nodes: set<JunctionTreeNode<L>>, up: map<JunctionTreeNode<L>, JunctionTreeEdge<L>>, level: map<JunctionTreeNode<L>, nat>,
                              n: JunctionTreeNode<L>, e: JunctionTreeEdge<L>)
    requires Rooted(nodes, up, level) && n in nodes && e in n.edges && ChildEdge(up, level, n, e)
    ensures e.Contains(n) && e in DeeperEdges(up, level, level[n] + 1) && e !in DeeperEdges(up, level, level[n] + 2)
  {
    var o := e.GetOther(n);
    assert TreeEdge(nodes, up, n, e);
    assert o in up && up[o] == e && level[o] >= level[n] + 1;
    forall x | x in up && up[x] == e
      ensures x == n || x == o
    {
      assert ParentEdge(up, level, x);
      assert TreeEdge(nodes, up, x, e);
    }
  }

  /** The child at the far end of a child edge of `n` is a node entered from `n`. */
  lemma ChildEntered<L(!new)>(nodes: set<JunctionTreeNode<L>>, up: map<JunctionTreeNode<L>, JunctionTreeEdge<L>>, level: map<JunctionTreeNode<L>, nat>,
                              n: JunctionTreeNode<L>, e: JunctionTreeEdge<L>)
    requires Rooted(nodes, up, level) && n in nodes && e.Contains(n) && ChildEdge(up, level, n, e)
    ensures e.GetOther(n) in nodes && e.GetOther(n) != n && EnteredFrom(up, e.GetOther(n), n)
  {
    var o := e.GetOther(n);
    assert ParentEdge(up, level, o);
    assert TreeEdge(nodes, up, o, e);
    assert e.first.members != e.second.members;
    OtherEndpoint(e);
  }

  /**
   * `f` holds the collected factor: each configuration scores 1.0 plus its TRUE classes plus
   * what it absorbs from the messages, and each message is the one its edge keeps.
   */
  ghost predicate Gathered<L(!new)>(f: Factor, scores: seq<real>, messages: map<JunctionTreeEdge<L>, Dist>)
    reads f, messages.Keys, set e | e in messages :: e.phiStar
  {
    && (forall c :: c in f.dist ==> |scores| <= |c| && f.dist[c] == Score(c, scores) + Inflow(messages, messages.Keys, c))
    && (forall e :: e in messages ==> e.phiStar.dist == messages[e])
  }

  /** Deeper levels hold fewer nodes and parent edges. */
  lemma DeeperShrinks<L(!new)>(nodes: set<JunctionTreeNode<L>>, up: map<JunctionTreeNode<L>, JunctionTreeEdge<L>>, level: map<JunctionTreeNode<L>, nat>, k: int)
    ensures Deeper(nodes, level, k + 1) <= Deeper(nodes, level, k)
    ensures DeeperEdges(up, level, k + 1) <= DeeperEdges(up, level, k)
  {
  }

  /** A node entered from a parent with a single edge has no child edges: that edge leads up. */
  lemma LeafHasNoChildren<L(!new)>(nodes: set<JunctionTreeNode<L>>, up: map<JunctionTreeNode<L>, JunctionTreeEdge<L>>, level: map<JunctionTreeNode<L>, nat>,
                                   n: JunctionTreeNode<L>, parent: JunctionTreeNode?<L>)
    requires Rooted(nodes, up, level) && n in nodes && EnteredFrom(up, n, parent) && |n.edges| == 1 && parent != null
    ensures forall e :: e in n.edges ==> !ChildEdge(up, level, n, e)
  {
    assert ParentEdge(up, level, n);
    Singleton(n.edges, up[n]);
    ChildStep(nodes, up, level, n, parent, up[n]);
  }

  /**
   * `n` has a state space, and each of its configurations is over exactly the node's members
   * and at least as long as the scores: the factor constructor accepts it.
   */
  ghost predicate Scorable<L(!new)>(n: JunctionTreeNode<L>, stateSpaces: map<JunctionTreeNode<L>, set<seq<TriState>>>, scores: seq<real>) {
    n in stateSpaces && forall c :: c in stateSpaces[n] ==> Members(c) == n.members && |scores| <= |c|
  }

  /**
   * What `e` holds once `n` has sent over it: `phiStarStar` is `n`'s factor projected onto
   * the overlap and `divided` is that divided by `phiStar`.
   */
  ghost predicate Sent<L(!new)>(n: JunctionTreeNode<L>, e: JunctionTreeEdge<L>, lse: (real, real) -> real)
    reads n`factor, n.factor`dist, e`phiStarStar, e`divided, e`phiStar, e.phiStarStar`dist, e.phiStarStar`vars, e.divided`dist, e.phiStar`dist
  {
    var overlap := n.GetOverlappingSet(e.GetOther(n));
    && e.phiStarStar.vars == overlap && Projection(n.factor.dist, overlap, lse, e.phiStarStar.dist)
    && e.divided.dist == Quotient(e.phiStarStar.dist, e.phiStar.dist)
  }

  /**
   * The loop over the edges of `n` so far: `sent` holds a message for each child edge of `es`
   * outside `todo`, and each is `n`'s factor `d` projected onto the overlap over its edge.
   */
  ghost predicate Progress<L(!new)>(n: JunctionTreeNode<L>, es: set<JunctionTreeEdge<L>>, todo: set<JunctionTreeEdge<L>>,
                                    sent: map<JunctionTreeEdge<L>, Dist>, d: Dist, lse: (real, real) -> real,
                                    up: map<JunctionTreeNode<L>, JunctionTreeEdge<L>>, level: map<JunctionTreeNode<L>, nat>) {
    && (forall e :: e in sent ==> e in es && e !in todo && ChildEdge(up, level, n, e))
    && (forall e :: e in es && e !in todo && ChildEdge(up, level, n, e) ==> e in sent)
    && SentAll(n, d, lse, sent)
  }

  /** Propagating over the child edge `e`, which sends `m`, moves the loop over the edges of `n` one edge on. */
  lemma ProgressAdd<L(!new)>(n: JunctionTreeNode<L>, es: set<JunctionTreeEdge<L>>, todo: set<JunctionTreeEdge<L>>,
                             sent: map<JunctionTreeEdge<L>, Dist>, d: Dist, lse: (real, real) -> real,
                             up: map<JunctionTreeNode<L>, JunctionTreeEdge<L>>, level: map<JunctionTreeNode<L>, nat>,
                             e: JunctionTreeEdge<L>, m: Dist)
    requires Progress(n, es, todo, sent, d, lse, up, level) && e in todo && todo <= es && ChildEdge(up, level, n, e)
    requires Projection(d, n.GetOverlappingSet(e.GetOther(n)), lse, m)
    ensures Progress(n, es, todo - {e}, sent[e := m], d, lse, up, level)
  {
    forall x | x in sent[e := m]
      ensures Projection(d, n.GetOverlappingSet(x.GetOther(n)), lse, sent[e := m][x])
    {
      if x != e {
        assert x in sent;
      }
    }
  }

  /** Skipping the edge `e`, which leads to no child, moves that loop one edge on. */
  lemma ProgressSkip<L(!new)>(n: JunctionTreeNode<L>, es: set<JunctionTreeEdge<L>>, todo: set<JunctionTreeEdge<L>>,
                              sent: map<JunctionTreeEdge<L>, Dist>, d: Dist, lse: (real, real) -> real,
                              up: map<JunctionTreeNode<L>, JunctionTreeEdge<L>>, level: map<JunctionTreeNode<L>, nat>,
                              e: JunctionTreeEdge<L>)
    requires Progress(n, es, todo, sent, d, lse, up, level) && e in todo && !ChildEdge(up, level, n, e)
    ensures Progress(n, es, todo - {e}, sent, d, lse, up, level)
  {
  }

  /** Each message of `sent` is the factor `d` of `n` projected onto the overlap over its edge. */
  ghost predicate SentAll<L(!new)>(n: JunctionTreeNode<L>, d: Dist, lse: (real, real) -> real, sent: map<JunctionTreeEdge<L>, Dist>) {
    forall e :: e in sent ==> Projection(d, n.GetOverlappingSet(e.GetOther(n)), lse, sent[e])
  }

  /**
   * `fac` records each node's factor, no two nodes sharing one, and `vs` each factor's
   * variables; the passes change neither.
   */
  ghost predicate Owned<L(!new)>(nodes: set<JunctionTreeNode<L>>, fac: map<JunctionTreeNode<L>, Factor>, vs: map<JunctionTreeNode<L>, set<nat>>)
    reads nodes`factor, fac.Values`vars
  {
    && fac.Keys == vs.Keys == nodes
    && (forall m :: m in nodes ==> m.factor == fac[m] && fac[m].vars == vs[m])
    && (forall a, b :: a in fac && b in fac && a != b ==> fac[a] != fac[b])
  }

  /** The factors of the nodes from depth `k` on. */
  ghost function FactorsFrom<L(!new)>(fac: map<JunctionTreeNode<L>, Factor>, level: map<JunctionTreeNode<L>, nat>, k: int): set<Factor> {
    set m | m in fac && m in level && level[m] >= k :: fac[m]
  }

  /** A node's factor is among the factors from its depth on, but not among those below it. */
  lemma FactorOutside<L(!new)>(nodes: set<JunctionTreeNode<L>>, level: map<JunctionTreeNode<L>, nat>,
                               fac: map<JunctionTreeNode<L>, Factor>, vs: map<JunctionTreeNode<L>, set<nat>>, n: JunctionTreeNode<L>)
    requires Owned(nodes, fac, vs) && n in nodes && n in level
    ensures n.factor == fac[n] && n.factor.vars == vs[n]
    ensures n.factor !in FactorsFrom(fac, level, level[n] + 1) && n.factor in FactorsFrom(fac, level, level[n])
    ensures FactorsFrom(fac, level, level[n] + 1) <= FactorsFrom(fac, level, level[n])
  {
  }

  /** No separator of the map is the factor `f`. */
  ghost predicate Clear<L(!new)>(separators: map<JunctionTreeEdge<L>, Factor>, f: Factor) {
    forall e :: e in separators ==> separators[e] != f
  }

  /** A separator other than `f` keeps the map clear of it. */
  lemma ClearAdd<L(!new)>(separators: map<JunctionTreeEdge<L>, Factor>, e: JunctionTreeEdge<L>, v: Factor, f: Factor)
    requires Clear(separators, f) && v != f
    ensures Clear(separators[e := v], f)
  {
  }

  /** Coverage from a node's depth on covers the node itself and everything below it. */
  lemma CoveredBelow<L(!new)>(nodes: set<JunctionTreeNode<L>>, level: map<JunctionTreeNode<L>, nat>,
                              vs: map<JunctionTreeNode<L>, set<nat>>, n: JunctionTreeNode<L>)
    requires n in nodes && n in level
    ensures Covered(Deeper(nodes, level, level[n]), vs) ==> n in vs && n.members <= vs[n] && Covered(Deeper(nodes, level, level[n] + 1), vs)
  {
    if Covered(Deeper(nodes, level, level[n]), vs) {
      assert n in Deeper(nodes, level, level[n]);
    }
  }

  /** Every node of `s` has a factor over all of its members: the projections onto overlaps succeed. */
  ghost predicate Covered<L(!new)>(s: set<JunctionTreeNode<L>>, vs: map<JunctionTreeNode<L>, set<nat>>) {
    forall m :: m in s ==> m in vs && m.members <= vs[m]
  }

  /** Every node of `s` is scorable. */
  ghost predicate AllScorable<L(!new)>(s: set<JunctionTreeNode<L>>, stateSpaces: map<JunctionTreeNode<L>, set<seq<TriState>>>, scores: seq<real>) {
    forall m :: m in s ==> Scorable(m, stateSpaces, scores)
  }

  lemma Singleton<T>(s: set<T>, x: T)
    requires |s| == 1 && x in s
    ensures s == {x}
  {
    assert |s - {x}| == 0;
  }
}
