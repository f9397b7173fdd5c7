/**
 * Reachability along hierarchy edges. A graph's direct-children relation is a map from
 * each label to its set of children; the descendants of a label are everything reachable
 * along one or more such edges.
 */
module Hierarchy {
  type Rel<L(==)> = map<L, set<L>>

  /** The direct children of `x`, empty when `x` has no entry. */
  function Succ<L(==,!new)>(r: Rel<L>, x: L): set<L> {
    if x in r then r[x] else {}
  }

  /** A walk of at least one edge. */
  ghost predicate IsPath<L(!new)>(r: Rel<L>, p: seq<L>) {
    |p| >= 2 && forall i :: 0 <= i < |p| - 1 ==> p[i + 1] in Succ(r, p[i])
  }

  /** `y` is a (strict) descendant of `x`. */
  ghost predicate Reaches<L(!new)>(r: Rel<L>, x: L, y: L) {
    exists p :: IsPath(r, p) && p[0] == x && p[|p| - 1] == y
  }

  ghost predicate Acyclic<L(!new)>(r: Rel<L>) {
    forall x :: !Reaches(r, x, x)
  }

  /** Every label that is somebody's child. */
  function Universe<L(==,!new)>(r: Rel<L>): set<L> {
    set x, z | x in r && z in r[x] :: z
  }

  /** The children of all labels in `frontier`. */
  function Expand<L(==,!new)>(r: Rel<L>, frontier: set<L>): (e: set<L>)
    ensures e <= Universe(r)
    ensures forall x, z :: x in frontier && z in Succ(r, x) ==> z in e
    ensures forall z :: z in e ==> exists x :: x in frontier && z in Succ(r, x)
  {
    set x, z | x in frontier && z in Succ(r, x) :: z
  }

  lemma ProperSubsetCard<T>(a: set<T>, b: set<T>)
    requires a < b
    ensures |a| < |b|
  {
    var x :| x in b && x !in a;
    assert a <= b - {x};
    assert |b - {x}| == |b| - 1;
    SubsetCard(a, b - {x});
  }

  lemma SubsetCard<T>(a: set<T>, b: set<T>)
    requires a <= b
    ensures |a| <= |b|
    decreases |b|
  {
    if a != {} {
      var x :| x in a;
      SubsetCard(a - {x}, b - {x});
    }
  }

  /** Any set holding exactly the keys of a map has the map's size. */
  lemma KeysCard<K(!new), V>(m: map<K, V>)
    ensures forall s: set<K> :: (forall k :: k in s <==> k in m) ==> |s| == |m|
  {
    forall s: set<K> | forall k :: k in s <==> k in m
      ensures |s| == |m|
    {
      assert s == m.Keys;
    }
  }

  /** Breadth-first closure: each round adds the children of the last round's new labels. */
  function CloseFrom<L(==,!new)>(r: Rel<L>, acc: set<L>, frontier: set<L>): set<L>
    requires frontier <= acc <= Universe(r)
    decreases |Universe(r) - acc|
  {
    var next := Expand(r, frontier) - acc;
    if next == {} then acc
    else
      ProperSubsetCard(Universe(r) - (acc + next), Universe(r) - acc);
      CloseFrom(r, acc + next, next)
  }

  /**
   * The labels reachable from `x` by one hierarchy edge or more. The recursive `getDescendants` of
   * the graph nodes computes this set only on an acyclic hierarchy; on a cycle it never returns.
   */
  function Descendants<L(==,!new)>(r: Rel<L>, x: L): (d: set<L>)
    ensures forall y :: y in d <==> Reaches(r, x, y)
  {
    var d := CloseFrom(r, Succ(r, x), Succ(r, x));
    forall z | z in Succ(r, x) ensures Reaches(r, x, z) {
      Edge(r, x, z);
    }
    CloseFromCorrect(r, x, Succ(r, x), Succ(r, x));
    d
  }

  lemma Edge<L(!new)>(r: Rel<L>, x: L, y: L)
    requires y in Succ(r, x)
    ensures Reaches(r, x, y)
  {
    var p := [x, y];
    assert IsPath(r, p);
  }

  lemma ReachesTrans<L(!new)>(r: Rel<L>, x: L, y: L, z: L)
    requires Reaches(r, x, y) && Reaches(r, y, z)
    ensures Reaches(r, x, z)
  {
    var p :| IsPath(r, p) && p[0] == x && p[|p| - 1] == y;
    var q :| IsPath(r, q) && q[0] == y && q[|q| - 1] == z;
    var w := p + q[1..];
    forall i | 0 <= i < |w| - 1 ensures w[i + 1] in Succ(r, w[i]) {
      if i < |p| - 1 {
        assert w[i] == p[i] && w[i + 1] == p[i + 1];
      } else {
        assert w[i] == q[i - |p| + 1] && w[i + 1] == q[i - |p| + 2];
      }
    }
    assert IsPath(r, w) && w[0] == x && w[|w| - 1] == z;
  }

  /** The last label of a path from `x` lies in any set that holds `x`'s children and is closed under children. */
  lemma PathInClosed<L(!new)>(r: Rel<L>, p: seq<L>, a: set<L>)
    requires IsPath(r, p)
    requires Succ(r, p[0]) <= a
    requires forall z :: z in a ==> Succ(r, z) <= a
    ensures p[|p| - 1] in a
    decreases |p|
  {
    if |p| > 2 {
      var q := p[..|p| - 1];
      assert IsPath(r, q) by {
        forall i | 0 <= i < |q| - 1 ensures q[i + 1] in Succ(r, q[i]) {
          assert q[i] == p[i] && q[i + 1] == p[i + 1];
        }
      }
      PathInClosed(r, q, a);
      assert p[|p| - 1] in Succ(r, p[|p| - 2]);
    } else {
      assert p[1] in Succ(r, p[0]);
    }
  }

  lemma CloseFromCorrect<L(!new)>(r: Rel<L>, x: L, acc: set<L>, frontier: set<L>)
    requires frontier <= acc <= Universe(r)
    requires Succ(r, x) <= acc
    requires forall z :: z in acc ==> Reaches(r, x, z)
    requires forall z :: z in acc - frontier ==> Succ(r, z) <= acc
    ensures forall y :: y in CloseFrom(r, acc, frontier) <==> Reaches(r, x, y)
    decreases |Universe(r) - acc|
  {
    var e := Expand(r, frontier);
    var next := e - acc;
    forall z | z in acc ensures Succ(r, z) <= acc + next {
      if z in frontier {
        assert Succ(r, z) <= e;
      }
    }
    if next == {} {
      forall y | Reaches(r, x, y) ensures y in acc {
        var p :| IsPath(r, p) && p[0] == x && p[|p| - 1] == y;
        PathInClosed(r, p, acc);
      }
    } else {
      var grown := acc + next;
      forall z | z in next ensures Reaches(r, x, z) {
        var w :| w in frontier && z in Succ(r, w);
        Edge(r, w, z);
        ReachesTrans(r, x, w, z);
      }
      assert forall z :: z in grown ==> Reaches(r, x, z);
      assert forall z :: z in grown - next ==> Succ(r, z) <= grown;
      ProperSubsetCard(Universe(r) - grown, Universe(r) - acc);
      CloseFromCorrect(r, x, grown, next);
    }
  }

  /**
   * Simulation: when every edge of `r` is matched by a walk in `s`, every walk of `r`
   * is matched by a walk in `s`.
   */
  lemma {:induction false} Simulate<L(!new)>(r: Rel<L>, s: Rel<L>, p: seq<L>)
    requires IsPath(r, p)
    requires forall u, v :: v in Succ(r, u) ==> Reaches(s, u, v)
    ensures Reaches(s, p[0], p[|p| - 1])
    decreases |p|
  {
    if |p| == 2 {
      assert p[1] in Succ(r, p[0]);
    } else {
      var q := p[..|p| - 1];
      assert IsPath(r, q) by {
        forall i | 0 <= i < |q| - 1 ensures q[i + 1] in Succ(r, q[i]) {
          assert q[i] == p[i] && q[i + 1] == p[i + 1];
        }
      }
      Simulate(r, s, q);
      assert p[|p| - 1] in Succ(r, p[|p| - 2]);
      ReachesTrans(s, p[0], p[|p| - 2], p[|p| - 1]);
    }
  }

  lemma SimulateAll<L(!new)>(r: Rel<L>, s: Rel<L>)
    requires forall u, v :: v in Succ(r, u) ==> Reaches(s, u, v)
    ensures forall x, y :: Reaches(r, x, y) ==> Reaches(s, x, y)
  {
    forall x, y | Reaches(r, x, y) ensures Reaches(s, x, y) {
      var p :| IsPath(r, p) && p[0] == x && p[|p| - 1] == y;
      Simulate(r, s, p);
    }
  }

  /** Two relations whose direct edges reach each other have the same descendants. */
  lemma SameReach<L(!new)>(r: Rel<L>, s: Rel<L>)
    requires forall u, v :: v in Succ(r, u) ==> Reaches(s, u, v)
    requires forall u, v :: v in Succ(s, u) ==> Reaches(r, u, v)
    ensures forall x, y :: Reaches(r, x, y) <==> Reaches(s, x, y)
  {
    SimulateAll(r, s);
    SimulateAll(s, r);
  }

  /** Adding an edge `a -> d` that is already a descendant relation keeps reachability. */
  lemma AddReachedEdge<L(!new)>(r: Rel<L>, a: L, d: L)
    requires a in r && Reaches(r, a, d)
    ensures forall x, y :: Reaches(r, x, y) <==> Reaches(r[a := r[a] + {d}], x, y)
  {
    var s := r[a := r[a] + {d}];
    forall u, v | v in Succ(r, u) ensures Reaches(s, u, v) {
      assert v in Succ(s, u);
      Edge(s, u, v);
    }
    forall u, v | v in Succ(s, u) ensures Reaches(r, u, v) {
      if v in Succ(r, u) {
        Edge(r, u, v);
      }
    }
    SameReach(r, s);
  }

  /** A walk that never reaches `n` after its end cannot use the edge `a -> n`. */
  lemma AvoidsEdgeByTarget<L(!new)>(r: Rel<L>, p: seq<L>, a: L, n: L)
    requires IsPath(r, p)
    requires p[|p| - 1] != n && !Reaches(r, n, p[|p| - 1])
    ensures IsPath(r[a := Succ(r, a) - {n}], p)
  {
    var s := r[a := Succ(r, a) - {n}];
    forall i | 0 <= i < |p| - 1 ensures p[i + 1] in Succ(s, p[i]) {
      assert p[i + 1] in Succ(r, p[i]);
      if p[i] == a && p[i + 1] == n {
        if i + 1 < |p| - 1 {
          var tail := p[i + 1..];
          assert IsPath(r, tail) by {
            forall j | 0 <= j < |tail| - 1 ensures tail[j + 1] in Succ(r, tail[j]) {
              assert tail[j] == p[i + 1 + j] && tail[j + 1] == p[i + 2 + j];
            }
          }
        }
        assert false;
      }
    }
  }

  /** A walk whose start does not reach `a` cannot use the edge `a -> n`. */
  lemma AvoidsEdgeBySource<L(!new)>(r: Rel<L>, p: seq<L>, a: L, n: L)
    requires IsPath(r, p)
    requires p[0] != a && !Reaches(r, p[0], a)
    ensures IsPath(r[a := Succ(r, a) - {n}], p)
  {
    var s := r[a := Succ(r, a) - {n}];
    forall i | 0 <= i < |p| - 1 ensures p[i + 1] in Succ(s, p[i]) {
      assert p[i + 1] in Succ(r, p[i]);
      if p[i] == a && p[i + 1] == n {
        if i > 0 {
          var head := p[..i + 1];
          assert IsPath(r, head) by {
            forall j | 0 <= j < |head| - 1 ensures head[j + 1] in Succ(r, head[j]) {
              assert head[j] == p[j] && head[j + 1] == p[j + 1];
            }
          }
        }
        assert false;
      }
    }
  }

  /**
   * Removing an edge `a -> n` of an acyclic relation keeps reachability when `n` is also
   * reached through some `m` that `a` reaches.
   */
  lemma RemoveRedundantEdge<L(!new)>(r: Rel<L>, a: L, m: L, n: L)
    requires Acyclic(r)
    requires Reaches(r, a, m) && Reaches(r, m, n)
    ensures forall x, y :: Reaches(r, x, y) <==> Reaches(r[a := Succ(r, a) - {n}], x, y)
  {
    var s := r[a := Succ(r, a) - {n}];
    var pa :| IsPath(r, pa) && pa[0] == a && pa[|pa| - 1] == m;
    var pm :| IsPath(r, pm) && pm[0] == m && pm[|pm| - 1] == n;
    if m == n || Reaches(r, n, m) {
      if m != n {
        ReachesTrans(r, n, m, n);
      }
      assert false;
    }
    AvoidsEdgeByTarget(r, pa, a, n);
    if m == a || Reaches(r, m, a) {
      if m != a {
        ReachesTrans(r, a, m, a);
      }
      assert false;
    }
    AvoidsEdgeBySource(r, pm, a, n);
    assert Reaches(s, a, m) && Reaches(s, m, n);
    ReachesTrans(s, a, m, n);
    forall u, v | v in Succ(r, u) ensures Reaches(s, u, v) {
      if u == a && v == n {
      } else {
        assert v in Succ(s, u);
        Edge(s, u, v);
      }
    }
    forall u, v | v in Succ(s, u) ensures Reaches(r, u, v) {
      assert v in Succ(r, u);
      Edge(r, u, v);
    }
    SameReach(r, s);
  }
}
