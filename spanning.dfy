/**
 * Why a tree grown the way Prim's algorithm grows it weighs at least as much as any other
 * spanning tree, argued on positions. Nodes are numbered 0..m in the greedy attachment order;
 * greedy link `c` is the one that attached node `c + 1`, and no edge between positions `<= c`
 * and positions `> c` weighs more than it. The other tree is given by its own attachment
 * order: `pi[j]` is the position of its j-th node, and its edge `e` joins `pi[e + 1]` to the
 * earlier `pi[par[e]]`.
 *
 * The argument counts by thresholds: for every weight `t`, the other tree has no more edges of
 * weight `t` or more than the greedy tree has links of weight `t` or more. The edges of weight
 * `t` or more only cross cuts whose links weigh `t` or more, and a tree has fewer edges inside
 * a run of positions than the run has positions.
 */
module Spanning {

  /** How many of `lo..hi-1` satisfy `f`. */
  function Count(f: int -> bool, lo: int, hi: int): nat
    decreases hi - lo
  {
    if lo >= hi then 0 else (if f(lo) then 1 else 0) + Count(f, lo + 1, hi)
  }

  function Sum(s: seq<int>, lo: int, hi: int): int
    requires 0 <= lo <= hi <= |s|
    decreases hi - lo
  {
    if lo == hi then 0 else s[lo] + Sum(s, lo + 1, hi)
  }

  function Min(x: int, y: int): int { if x <= y then x else y }

  function Max(x: int, y: int): int { if x <= y then y else x }

  /** Some position of `x` in `s`, when it occurs. */
  ghost function IndexOf<T>(s: seq<T>, x: T): (r: int)
    ensures x in s ==> 0 <= r < |s| && s[r] == x
  {
    if x in s then var i :| 0 <= i < |s| && s[i] == x; i else 0
  }

  lemma {:induction false} CountMono(f: int -> bool, g: int -> bool, lo: int, hi: int)
    requires forall i :: lo <= i < hi && f(i) ==> g(i)
    ensures Count(f, lo, hi) <= Count(g, lo, hi)
    decreases hi - lo
  {
    if lo < hi {
      CountMono(f, g, lo + 1, hi);
    }
  }

  lemma {:induction false} CountSplit(f: int -> bool, g: int -> bool, h: int -> bool, lo: int, hi: int)
    requires forall i :: lo <= i < hi ==> (f(i) <==> g(i) || h(i)) && !(g(i) && h(i))
    ensures Count(f, lo, hi) == Count(g, lo, hi) + Count(h, lo, hi)
    decreases hi - lo
  {
    if lo < hi {
      CountSplit(f, g, h, lo + 1, hi);
    }
  }

  lemma {:induction false} CountAll(f: int -> bool, lo: int, hi: int)
    requires lo <= hi && forall i :: lo <= i < hi ==> f(i)
    ensures Count(f, lo, hi) == hi - lo
    decreases hi - lo
  {
    if lo < hi {
      CountAll(f, lo + 1, hi);
    }
  }

  lemma {:induction false} CountNone(f: int -> bool, lo: int, hi: int)
    requires forall i :: lo <= i < hi ==> !f(i)
    ensures Count(f, lo, hi) == 0
    decreases hi - lo
  {
    if lo < hi {
      CountNone(f, lo + 1, hi);
    }
  }

  lemma {:induction false} CountConcat(f: int -> bool, lo: int, mid: int, hi: int)
    requires lo <= mid <= hi
    ensures Count(f, lo, hi) == Count(f, lo, mid) + Count(f, mid, hi)
    decreases mid - lo
  {
    if lo < mid {
      CountConcat(f, lo + 1, mid, hi);
    }
  }

  /** What `g` maps one-to-one into `t` is no more than `t` holds. */
  lemma {:induction false} CountInjective(f: int -> bool, g: int -> int, lo: int, hi: int, t: set<int>)
    requires forall i :: lo <= i < hi && f(i) ==> g(i) in t
    requires forall i, j :: lo <= i < j < hi && f(i) && f(j) ==> g(i) != g(j)
    ensures Count(f, lo, hi) <= |t|
    decreases hi - lo
  {
    if lo < hi {
      if f(lo) {
        CountInjective(f, g, lo + 1, hi, t - {g(lo)});
      } else {
        CountInjective(f, g, lo + 1, hi, t);
      }
    }
  }

  /** The integers `a..k`. */
  function Range(a: int, k: int): (r: set<int>)
    ensures forall x :: x in r <==> a <= x <= k
    ensures |r| == Max(0, k - a + 1)
    decreases k - a
  {
    if a > k then {} else {a} + Range(a + 1, k)
  }

  lemma {:induction false} SumNonnegative(s: seq<int>, lo: int, hi: int)
    requires 0 <= lo <= hi <= |s| && forall i :: lo <= i < hi ==> 0 <= s[i]
    ensures 0 <= Sum(s, lo, hi)
    ensures forall i :: lo <= i < hi ==> s[i] <= Sum(s, lo, hi)
    decreases hi - lo
  {
    if lo < hi {
      SumNonnegative(s, lo + 1, hi);
    }
  }

  /** Whether entry `i` of `s` weighs `t` or more. */
  function AtLeastAt(s: seq<int>, t: int): int -> bool {
    i => 0 <= i < |s| && s[i] >= t
  }

  /** How many of `s[lo..hi]` weigh `t` or more. */
  function AtLeast(s: seq<int>, t: int, lo: int, hi: int): nat {
    Count(AtLeastAt(s, t), lo, hi)
  }

  /** `AtLeast` added up over the thresholds `1..top`. */
  function Layers(s: seq<int>, top: nat, lo: int, hi: int): nat {
    if top == 0 then 0 else Layers(s, top - 1, lo, hi) + AtLeast(s, top, lo, hi)
  }

  lemma {:induction false} LayersEmpty(s: seq<int>, top: nat, lo: int)
    ensures Layers(s, top, lo, lo) == 0
  {
    if top > 0 {
      LayersEmpty(s, top - 1, lo);
    }
  }

  /** Entry `lo` counts at the thresholds it reaches. */
  lemma {:induction false} LayersFirst(s: seq<int>, top: nat, lo: int, hi: int)
    requires 0 <= lo < hi <= |s| && 0 <= s[lo]
    ensures Layers(s, top, lo, hi) == Layers(s, top, lo + 1, hi) + Min(s[lo], top)
  {
    if top > 0 {
      LayersFirst(s, top - 1, lo, hi);
    }
  }

  /** A sum of weights from 0 to `top` is the sum over the thresholds of those reaching it. */
  lemma {:induction false} SumByLayers(s: seq<int>, top: nat, lo: int, hi: int)
    requires 0 <= lo <= hi <= |s| && forall i :: lo <= i < hi ==> 0 <= s[i] <= top
    ensures Sum(s, lo, hi) == Layers(s, top, lo, hi)
    decreases hi - lo
  {
    if lo < hi {
      SumByLayers(s, top, lo + 1, hi);
      LayersFirst(s, top, lo, hi);
    } else {
      LayersEmpty(s, top, lo);
    }
  }

  lemma {:induction false} LayersMono(v: seq<int>, w: seq<int>, top: nat, lo: int, hi: int)
    requires forall t :: 1 <= t <= top ==> AtLeast(v, t, lo, hi) <= AtLeast(w, t, lo, hi)
    ensures Layers(v, top, lo, hi) <= Layers(w, top, lo, hi)
  {
    if top > 0 {
      LayersMono(v, w, top - 1, lo, hi);
    }
  }

  /** The lower and the higher position edge `e` of the other tree joins. */
  function Lo(pi: seq<int>, par: seq<int>, e: int): int {
    if 0 <= e < |par| && e + 1 < |pi| && 0 <= par[e] < |pi| then Min(pi[e + 1], pi[par[e]]) else 0
  }

  function Hi(pi: seq<int>, par: seq<int>, e: int): int {
    if 0 <= e < |par| && e + 1 < |pi| && 0 <= par[e] < |pi| then Max(pi[e + 1], pi[par[e]]) else 0
  }

  /**
   * The other tree, over positions `0..|par|`: `pi` lists every position once, and each edge
   * attaches a node to one listed before it.
   */
  ghost predicate Tree(pi: seq<int>, par: seq<int>) {
    |pi| == |par| + 1 &&
    (forall j :: 0 <= j < |pi| ==> 0 <= pi[j] < |pi|) &&
    (forall j, j' :: 0 <= j < j' < |pi| ==> pi[j] != pi[j']) &&
    (forall x :: 0 <= x < |pi| ==> x in pi) &&
    (forall e :: 0 <= e < |par| ==> 0 <= par[e] <= e)
  }

  /** Every edge of the other tree weighs at most each greedy link whose cut it crosses. */
  ghost predicate Dominated(pi: seq<int>, par: seq<int>, v: seq<int>, w: seq<int>) {
    |v| == |par| && |w| == |par| &&
    forall e, c :: 0 <= e < |v| && 0 <= c < |w| && Lo(pi, par, e) <= c < Hi(pi, par, e) ==> v[e] <= w[c]
  }

  /** Edge `e` has both ends in positions `a..k`. */
  function InsideAt(pi: seq<int>, par: seq<int>, a: int, k: int): int -> bool {
    e => 0 <= e < |par| && a <= Lo(pi, par, e) && Hi(pi, par, e) <= k
  }

  /** The position edge `e` attaches. */
  function AttachedPosition(pi: seq<int>): int -> int {
    e => if 0 <= e + 1 < |pi| then pi[e + 1] else -1
  }

  /** The first node of the other tree's order whose position lies in `a..k`. */
  lemma FirstInside(pi: seq<int>, a: int, k: int, j: int) returns (i: int)
    requires 0 <= j < |pi| && a <= pi[j] <= k
    ensures 0 <= i <= j && a <= pi[i] <= k && forall j' :: 0 <= j' < i ==> !(a <= pi[j'] <= k)
  {
    i := 0;
    while !(a <= pi[i] <= k)
      invariant 0 <= i <= j
      invariant forall j' :: 0 <= j' < i ==> !(a <= pi[j'] <= k)
      decreases j - i
    {
      i := i + 1;
    }
  }

  /**
   * A tree has fewer edges inside positions `a..k` than there are positions: each such edge
   * attaches a distinct node of the run, and the run's first node in the tree's order is attached
   * from outside it.
   */
  lemma ForestBound(pi: seq<int>, par: seq<int>, a: int, k: int)
    requires Tree(pi, par) && 0 <= a <= k < |pi|
    ensures Count(InsideAt(pi, par, a, k), 0, |par|) <= k - a
  {
    var first := RunFirst(pi, par, a, k);
    InsideInRoom(pi, par, a, k, first);
    InsideInjective(pi, par, a, k);
    CountInjective(InsideAt(pi, par, a, k), AttachedPosition(pi), 0, |par|, Range(a, k) - {pi[first]});
    RangeLessOne(a, k, pi[first]);
  }

  /** Every edge inside `a..k` attaches a node of the run other than the run's first one. */
  lemma InsideInRoom(pi: seq<int>, par: seq<int>, a: int, k: int, first: int)
    requires Tree(pi, par) && 0 <= first < |pi| && a <= pi[first] <= k
    requires forall j' :: 0 <= j' < first ==> !(a <= pi[j'] <= k)
    ensures forall e :: 0 <= e < |par| && InsideAt(pi, par, a, k)(e) ==> AttachedPosition(pi)(e) in Range(a, k) - {pi[first]}
  {
    forall e | 0 <= e < |par| && InsideAt(pi, par, a, k)(e)
      ensures AttachedPosition(pi)(e) in Range(a, k) - {pi[first]}
    {
      AttachedInside(pi, par, a, k, first, e);
    }
  }

  /** Distinct edges inside `a..k` attach distinct nodes. */
  lemma InsideInjective(pi: seq<int>, par: seq<int>, a: int, k: int)
    requires Tree(pi, par)
    ensures forall e, e' :: 0 <= e < e' < |par| && InsideAt(pi, par, a, k)(e) && InsideAt(pi, par, a, k)(e') ==>
      AttachedPosition(pi)(e) != AttachedPosition(pi)(e')
  {
    forall e, e' | 0 <= e < e' < |par|
      ensures AttachedPosition(pi)(e) != AttachedPosition(pi)(e')
    {
      AttachedDistinct(pi, par, e, e');
    }
  }

  /** The first node of the tree's order whose position lies in `a..k`. */
  lemma RunFirst(pi: seq<int>, par: seq<int>, a: int, k: int) returns (first: int)
    requires Tree(pi, par) && 0 <= a <= k < |pi|
    ensures 0 <= first < |pi| && a <= pi[first] <= k
    ensures forall j' :: 0 <= j' < first ==> !(a <= pi[j'] <= k)
  {
    assert a in pi;
    var j :| 0 <= j < |pi| && pi[j] == a;
    first := FirstInside(pi, a, k, j);
  }

  /** Distinct edges attach distinct nodes. */
  lemma AttachedDistinct(pi: seq<int>, par: seq<int>, e: int, e': int)
    requires Tree(pi, par) && 0 <= e < e' < |par|
    ensures AttachedPosition(pi)(e) != AttachedPosition(pi)(e')
  {
    assert AttachedPosition(pi)(e) == pi[e + 1] && AttachedPosition(pi)(e') == pi[e' + 1];
  }

  /** Taking one member out of `a..k` leaves `k - a` of them. */
  lemma RangeLessOne(a: int, k: int, x: int)
    requires a <= x <= k
    ensures |Range(a, k) - {x}| == k - a
  {
    assert x in Range(a, k);
  }

  /** An edge inside positions `a..k` attaches a node of the run other than its first one. */
  lemma AttachedInside(pi: seq<int>, par: seq<int>, a: int, k: int, first: int, e: int)
    requires Tree(pi, par) && 0 <= first < |pi| && a <= pi[first] <= k
    requires forall j' :: 0 <= j' < first ==> !(a <= pi[j'] <= k)
    requires 0 <= e < |par| && a <= Lo(pi, par, e) && Hi(pi, par, e) <= k
    ensures a <= pi[e + 1] <= k && pi[e + 1] != pi[first]
  {
    assert a <= pi[par[e]] <= k && a <= pi[e + 1] <= k;
    assert pi[e + 1] == pi[first] ==> e + 1 == first;
  }

  /** The start of the run of links weighing `t` or more that ends at link `k - 1`. */
  lemma RunStart(w: seq<int>, t: int, k: int) returns (a: int)
    requires 1 <= k <= |w| && w[k - 1] >= t
    ensures 0 <= a < k && (a == 0 || w[a - 1] < t) && forall c :: a <= c < k ==> w[c] >= t
  {
    a := k - 1;
    while a > 0 && w[a - 1] >= t
      invariant 0 <= a < k && forall c :: a <= c < k ==> w[c] >= t
    {
      a := a - 1;
    }
  }

  /** Edge `e` weighs `t` or more and its higher end lies in `a + 1..k`. */
  function HeavyEndingIn(pi: seq<int>, par: seq<int>, v: seq<int>, t: int, a: int, k: int): int -> bool {
    e => 0 <= e < |v| && v[e] >= t && a < Hi(pi, par, e) <= k
  }

  /**
   * The heavy edges of the other tree ending at position `k` or before are no more than the heavy
   * links among the first `k`.
   */
  lemma {:induction false} HeavyBelow(pi: seq<int>, par: seq<int>, v: seq<int>, w: seq<int>, t: int, k: int)
    requires Tree(pi, par) && Dominated(pi, par, v, w) && 0 <= k <= |w|
    ensures Count(HeavyEndingIn(pi, par, v, t, -1, k), 0, |v|) <= AtLeast(w, t, 0, k)
    decreases k
  {
    var below := HeavyEndingIn(pi, par, v, t, -1, k);
    if k == 0 {
      forall e | 0 <= e < |v| ensures !below(e) {
        assert pi[e + 1] != pi[par[e]];
      }
      CountNone(below, 0, |v|);
    } else if w[k - 1] < t {
      var before := HeavyEndingIn(pi, par, v, t, -1, k - 1);
      forall e | 0 <= e < |v| && below(e) ensures before(e) {
        assert pi[e + 1] != pi[par[e]];
        assert Hi(pi, par, e) != k;
      }
      CountMono(below, before, 0, |v|);
      HeavyBelow(pi, par, v, w, t, k - 1);
      CountConcat(AtLeastAt(w, t), 0, k - 1, k);
    } else {
      var a := RunStart(w, t, k);
      var before := HeavyEndingIn(pi, par, v, t, -1, a);
      var run := HeavyEndingIn(pi, par, v, t, a, k);
      var inside := InsideAt(pi, par, a, k);
      CountSplit(below, before, run, 0, |v|);
      forall e | 0 <= e < |v| && run(e) ensures inside(e) {
        assert a <= Lo(pi, par, e);
      }
      CountMono(run, inside, 0, |v|);
      ForestBound(pi, par, a, k);
      HeavyBelow(pi, par, v, w, t, a);
      CountConcat(AtLeastAt(w, t), 0, a, k);
      CountAll(AtLeastAt(w, t), a, k);
    }
  }

  /** At every threshold the other tree has no more heavy edges than the greedy tree has links. */
  lemma Threshold(pi: seq<int>, par: seq<int>, v: seq<int>, w: seq<int>, t: int)
    requires Tree(pi, par) && Dominated(pi, par, v, w)
    ensures AtLeast(v, t, 0, |v|) <= AtLeast(w, t, 0, |w|)
  {
    var heavy := AtLeastAt(v, t);
    var below := HeavyEndingIn(pi, par, v, t, -1, |w|);
    forall e | 0 <= e < |v| && heavy(e) ensures below(e) {
      assert 0 <= pi[e + 1] < |pi| && 0 <= pi[par[e]] < |pi|;
    }
    CountMono(heavy, below, 0, |v|);
    HeavyBelow(pi, par, v, w, t, |w|);
  }

  /** The other tree weighs no more than the greedy links. */
  lemma {:induction false} GreedyOutweighs(pi: seq<int>, par: seq<int>, v: seq<int>, w: seq<int>)
    requires Tree(pi, par) && Dominated(pi, par, v, w)
    requires forall e :: 0 <= e < |v| ==> 0 <= v[e]
    requires forall c :: 0 <= c < |w| ==> 0 <= w[c]
    ensures Sum(v, 0, |v|) <= Sum(w, 0, |w|)
  {
    SumNonnegative(v, 0, |v|);
    SumNonnegative(w, 0, |w|);
    var top: nat := Sum(v, 0, |v|) + Sum(w, 0, |w|);
    SumByLayers(v, top, 0, |v|);
    SumByLayers(w, top, 0, |w|);
    forall t | 1 <= t <= top ensures AtLeast(v, t, 0, |v|) <= AtLeast(w, t, 0, |w|) {
      Threshold(pi, par, v, w, t);
    }
    LayersMono(v, w, top, 0, |v|);
  }
}
