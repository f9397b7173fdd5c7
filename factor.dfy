/**
 * A factor maps configurations over a fixed variable set to scores. Configurations are
 * hash keys by their array contents, so the model keys the map by tri-state vectors.
 */
module Factors {
  import opened Wrappers
  import opened Configurations

  type Dist = map<seq<TriState>, real>

  /** The sum of the values of `d` at the keys in `keys`. */
  ghost function Sum(d: Dist, keys: set<seq<TriState>>): real
    requires keys <= d.Keys
    decreases keys
  {
    if keys == {} then 0.0 else var k :| k in keys; d[k] + Sum(d, keys - {k})
  }

  lemma {:induction false} SumRemove(d: Dist, keys: set<seq<TriState>>, x: seq<TriState>)
    requires keys <= d.Keys && x in keys
    ensures Sum(d, keys) == d[x] + Sum(d, keys - {x})
    decreases keys
  {
    var k :| k in keys && Sum(d, keys) == d[k] + Sum(d, keys - {k});
    if k != x {
      SumRemove(d, keys - {k}, x);
      SumRemove(d, keys - {x}, k);
      assert keys - {k} - {x} == keys - {x} - {k};
    }
  }

  /** The total that `c` absorbs from the messages at `keys`: each adds its entries subsumed by `c`. */
  ghost function Inflow<K>(msgs: map<K, Dist>, keys: set<K>, c: seq<TriState>): real
    requires keys <= msgs.Keys
    decreases keys
  {
    if keys == {} then 0.0 else var k :| k in keys; Sum(msgs[k], SubsumedKeys(msgs[k], c)) + Inflow(msgs, keys - {k}, c)
  }

  /** The inflow does not depend on the order in which the messages are taken. */
  lemma {:induction false} InflowRemove<K>(msgs: map<K, Dist>, keys: set<K>, x: K, c: seq<TriState>)
    requires keys <= msgs.Keys && x in keys
    ensures Inflow(msgs, keys, c) == Sum(msgs[x], SubsumedKeys(msgs[x], c)) + Inflow(msgs, keys - {x}, c)
    decreases keys
  {
    var k :| k in keys && Inflow(msgs, keys, c) == Sum(msgs[k], SubsumedKeys(msgs[k], c)) + Inflow(msgs, keys - {k}, c);
    if k != x {
      InflowRemove(msgs, keys - {k}, x, c);
      InflowRemove(msgs, keys - {x}, k, c);
      assert keys - {k} - {x} == keys - {x} - {k};
    }
  }

  /** `d` after absorbing the separator `sep`: each key gains the separator values it subsumes. */
  ghost function Absorbed(d: Dist, sep: Dist): Dist {
    map c | c in d :: d[c] + Sum(sep, SubsumedKeys(sep, c))
  }

  lemma AbsorbedFrom(d: Dist, e: Dist, sep: Dist)
    requires e.Keys == d.Keys && forall c :: c in e ==> e[c] == d[c] + Sum(sep, SubsumedKeys(sep, c))
    ensures e == Absorbed(d, sep)
  {
  }

  /** `d` divided by `o`: each key loses the values of the keys of `o` with the same entries. */
  ghost function Quotient(d: Dist, o: Dist): Dist {
    map c | c in d :: d[c] - Sum(o, SameEntryKeys(o, c))
  }

  lemma QuotientFrom(d: Dist, e: Dist, o: Dist)
    requires e.Keys == d.Keys && forall c :: c in e ==> e[c] == d[c] - Sum(o, SameEntryKeys(o, c))
    ensures e == Quotient(d, o)
  {
  }

  /** The keys of `sep` subsumed by `c`: the separator entries absorbed into `c`. */
  function SubsumedKeys(sep: Dist, c: seq<TriState>): set<seq<TriState>> {
    set s | s in sep.Keys && IsSubsumed(s, c)
  }

  /** The keys of `other` with the same entries as `c`. */
  function SameEntryKeys(other: Dist, c: seq<TriState>): set<seq<TriState>> {
    set o | o in other.Keys && HasSameEntries(c, o)
  }

  /** The keys of `d` that `q` is subsumed by. */
  function SubsumingKeys(d: Dist, q: seq<TriState>): set<seq<TriState>> {
    set c | c in d.Keys && IsSubsumed(q, c)
  }

  /** The keys among `keys` that trim to `t`. */
  function Preimage(keys: set<seq<TriState>>, indices: set<nat>, t: seq<TriState>): set<seq<TriState>> {
    set c | c in keys && Trimmed(c, indices) == t
  }

  /** The trimmed images of `keys`. */
  function TrimmedKeys(keys: set<seq<TriState>>, indices: set<nat>): set<seq<TriState>> {
    set c | c in keys :: Trimmed(c, indices)
  }

  /**
   * What the projection loop has built after visiting `done`: one entry per trimmed image,
   * the original value where the image has a single preimage, and the fold of all
   * preimages when the merge is commutative and associative.
   */
  ghost predicate ProjectionOf(dist: Dist, indices: set<nat>, lse: (real, real) -> real, nd: Dist, done: set<seq<TriState>>)
    requires done <= dist.Keys
  {
    && nd.Keys == TrimmedKeys(done, indices)
    && (forall t, c :: t in nd && Preimage(done, indices, t) == {c} ==> nd[t] == dist[c])
    && (CommutativeAssociative(lse) ==>
          forall t :: t in nd ==> Preimage(done, indices, t) != {} && nd[t] == Fold(lse, dist, Preimage(done, indices, t)))
  }

  /** `out` is a projection of all of `src` onto `indices`, as the projection loop leaves it. */
  ghost predicate Projection(src: Dist, indices: set<nat>, lse: (real, real) -> real, out: Dist) {
    ProjectionOf(src, indices, lse, out, src.Keys)
  }

  lemma PreimageAdd(done: set<seq<TriState>>, indices: set<nat>, c: seq<TriState>, u: seq<TriState>)
    ensures Preimage(done + {c}, indices, u) ==
      if Trimmed(c, indices) == u then Preimage(done, indices, u) + {c} else Preimage(done, indices, u)
  {
  }

  /** The entry written for a newly visited key `c`. */
  function StepEntry(dist: Dist, indices: set<nat>, lse: (real, real) -> real, nd: Dist, c: seq<TriState>): Dist
    requires c in dist
  {
    var t := Trimmed(c, indices);
    if t in nd then nd[t := lse(dist[c], nd[t])] else nd[t := dist[c]]
  }

  lemma StepSingles(dist: Dist, indices: set<nat>, lse: (real, real) -> real, nd: Dist, done: set<seq<TriState>>, c: seq<TriState>)
    requires done <= dist.Keys && c in dist && c !in done
    requires nd.Keys == TrimmedKeys(done, indices)
    requires forall t, e :: t in nd && Preimage(done, indices, t) == {e} ==> nd[t] == dist[e]
    ensures var nd' := StepEntry(dist, indices, lse, nd, c);
      forall t, e :: t in nd' && Preimage(done + {c}, indices, t) == {e} ==> nd'[t] == dist[e]
  {
    var t := Trimmed(c, indices);
    var nd' := StepEntry(dist, indices, lse, nd, c);
    forall u, e | u in nd' && Preimage(done + {c}, indices, u) == {e} ensures nd'[u] == dist[e] {
      PreimageAdd(done, indices, c, u);
      if u == t {
        if t in nd {
          assert false;
        } else {
          forall w | w in done ensures Trimmed(w, indices) != t {
            assert Trimmed(w, indices) in TrimmedKeys(done, indices);
          }
          assert c in Preimage(done + {c}, indices, u);
        }
      }
    }
  }

  lemma StepFolds(dist: Dist, indices: set<nat>, lse: (real, real) -> real, nd: Dist, done: set<seq<TriState>>, c: seq<TriState>)
    requires done <= dist.Keys && c in dist && c !in done
    requires CommutativeAssociative(lse)
    requires nd.Keys == TrimmedKeys(done, indices)
    requires forall t :: t in nd ==> Preimage(done, indices, t) != {} && nd[t] == Fold(lse, dist, Preimage(done, indices, t))
    ensures var nd' := StepEntry(dist, indices, lse, nd, c);
      forall t :: t in nd' ==> Preimage(done + {c}, indices, t) != {} && nd'[t] == Fold(lse, dist, Preimage(done + {c}, indices, t))
  {
    var t := Trimmed(c, indices);
    var nd' := StepEntry(dist, indices, lse, nd, c);
    forall u | u in nd' ensures Preimage(done + {c}, indices, u) != {} && nd'[u] == Fold(lse, dist, Preimage(done + {c}, indices, u)) {
      PreimageAdd(done, indices, c, u);
      if u == t {
        var p := Preimage(done, indices, t);
        if t in nd {
          FoldAny(lse, dist, p + {c}, c);
          assert c !in p;
          assert p + {c} - {c} == p;
        } else {
          forall w | w in done ensures Trimmed(w, indices) != t {
            assert Trimmed(w, indices) in TrimmedKeys(done, indices);
          }
          assert p == {};
          assert Fold(lse, dist, {c}) == dist[c];
        }
      }
    }
  }

  lemma ProjectionStep(dist: Dist, indices: set<nat>, lse: (real, real) -> real, nd: Dist, done: set<seq<TriState>>, c: seq<TriState>)
    requires done <= dist.Keys && c in dist && c !in done
    requires ProjectionOf(dist, indices, lse, nd, done)
    ensures ProjectionOf(dist, indices, lse, StepEntry(dist, indices, lse, nd, c), done + {c})
  {
    assert TrimmedKeys(done + {c}, indices) == TrimmedKeys(done, indices) + {Trimmed(c, indices)};
    StepSingles(dist, indices, lse, nd, done, c);
    if CommutativeAssociative(lse) {
      StepFolds(dist, indices, lse, nd, done, c);
    }
  }

  ghost predicate CommutativeAssociative(f: (real, real) -> real) {
    (forall a, b :: f(a, b) == f(b, a)) && (forall a, b, c :: f(a, f(b, c)) == f(f(a, b), c))
  }

  lemma Commute(f: (real, real) -> real, a: real, b: real)
    requires CommutativeAssociative(f)
    ensures f(a, b) == f(b, a)
  {
  }

  lemma Associate(f: (real, real) -> real, a: real, b: real, c: real)
    requires CommutativeAssociative(f)
    ensures f(a, f(b, c)) == f(f(a, b), c)
  {
  }

  /** The values of `d` at `keys` merged pairwise by `f`. */
  ghost function Fold(f: (real, real) -> real, d: Dist, keys: set<seq<TriState>>): real
    requires keys != {} && keys <= d.Keys
    decreases keys
  {
    var k :| k in keys;
    if keys == {k} then d[k] else f(d[k], Fold(f, d, keys - {k}))
  }

  /** For a commutative and associative merge the fold may start from any key. */
  lemma {:induction false} FoldAny(f: (real, real) -> real, d: Dist, keys: set<seq<TriState>>, y: seq<TriState>)
    requires CommutativeAssociative(f)
    requires keys <= d.Keys && y in keys && keys != {y}
    ensures Fold(f, d, keys) == f(d[y], Fold(f, d, keys - {y}))
    decreases keys
  {
    var z :| z in keys && Fold(f, d, keys) == (if keys == {z} then d[z] else f(d[z], Fold(f, d, keys - {z})));
    if z != y {
      assert keys != {z};
      var rest := keys - {z} - {y};
      if rest == {} {
        assert keys - {z} == {y} && keys - {y} == {z};
        assert Fold(f, d, {y}) == d[y] && Fold(f, d, {z}) == d[z];
        Commute(f, d[z], d[y]);
      } else {
        FoldAny(f, d, keys - {z}, y);
        FoldAny(f, d, keys - {y}, z);
        assert keys - {z} - {y} == keys - {y} - {z};
        var x := Fold(f, d, rest);
        calc {
          f(d[z], f(d[y], x));
          { Associate(f, d[z], d[y], x); }
          f(f(d[z], d[y]), x);
          { Commute(f, d[z], d[y]); }
          f(f(d[y], d[z]), x);
          { Associate(f, d[y], d[z], x); }
          f(d[y], f(d[z], x));
        }
      }
    }
  }

  /** The sum over the first `n` scores of the TRUE entries of `c`. */
  function ScoreSum(c: seq<TriState>, scores: seq<real>, n: nat): real
    requires n <= |scores| && n <= |c|
  {
    if n == 0 then 0.0 else ScoreSum(c, scores, n - 1) + (if c[n - 1] == TRUE then scores[n - 1] else 0.0)
  }

  /** The score of a configuration: 1.0 plus the scores of its TRUE classes. */
  function Score(c: seq<TriState>, scores: seq<real>): real
    requires |scores| <= |c|
  {
    1.0 + ScoreSum(c, scores, |scores|)
  }

  /** A configuration with no TRUE entry scores exactly 1.0. */
  lemma {:induction false} ScoreOfNoTrue(c: seq<TriState>, scores: seq<real>, n: nat)
    requires n <= |scores| <= |c|
    requires forall i :: 0 <= i < |c| ==> c[i] != TRUE
    ensures ScoreSum(c, scores, n) == 0.0
  {
    if n > 0 {
      ScoreOfNoTrue(c, scores, n - 1);
    }
  }

  /** Turning one scored class TRUE adds exactly its score. */
  lemma {:induction false} ScoreOfSetTrue(c: seq<TriState>, scores: seq<real>, i: nat, n: nat)
    requires n <= |scores| <= |c| && i < |c| && c[i] != TRUE
    ensures ScoreSum(c[i := TRUE], scores, n) == ScoreSum(c, scores, n) + (if i < n then scores[i] else 0.0)
  {
    if n > 0 {
      ScoreOfSetTrue(c, scores, i, n - 1);
    }
  }

  /** The per-configuration score loop; a score array longer than the configuration fails in `get`. */
  method ConfigurationScore(c: seq<TriState>, scores: seq<real>) returns (r: Result<real>)
    ensures r.Ok? <==> |scores| <= |c|
    ensures r.Ok? ==> r.value == Score(c, scores)
    ensures r.Err? ==> r.error == IndexOutOfBounds
  {
    var score := 1.0;
    var i := 0;
    while i < |scores|
      invariant 0 <= i <= |scores| && i <= |c|
      invariant score == 1.0 + ScoreSum(c, scores, i)
    {
      if i >= |c| {
        return Err(IndexOutOfBounds);
      }
      score := score + (if c[i] == TRUE then 1.0 else 0.0) * scores[i];
      i := i + 1;
    }
    return Ok(score);
  }

  class Factor {
    var dist: Dist
    var vars: set<nat>

    /** `Factor()`: no configurations over no variables. */
    constructor ()
      ensures dist == map[] && vars == {}
    {
      dist := map[];
      vars := {};
    }

    constructor Of(d: Dist, members: set<nat>)
      ensures dist == d && vars == members
    {
      dist := d;
      vars := members;
    }

    /**
     * `Factor(configSet, memberClasses, scores)`: every configuration must be over exactly
     * `memberClasses`; each is scored 1.0 plus the scores of its TRUE classes. The set is
     * visited in hash order, so when both a membership mismatch and a configuration shorter
     * than the scores occur, either exception may surface.
     */
    static method FromConfigs(configSet: set<seq<TriState>>, memberClasses: set<nat>, scores: seq<real>)
      returns (r: Result<Factor>)
      ensures r.Ok? <==> forall c :: c in configSet ==> Members(c) == memberClasses && |scores| <= |c|
      ensures r.Ok? ==> fresh(r.value) && r.value.vars == memberClasses && r.value.dist.Keys == configSet
      ensures r.Ok? ==> forall c :: c in configSet ==> r.value.dist[c] == Score(c, scores)
      ensures r.Err? ==>
        (r.error == IllegalState && exists c :: c in configSet && Members(c) != memberClasses) ||
        (r.error == IndexOutOfBounds && exists c :: c in configSet && |scores| > |c|)
    {
      var f := new Factor();
      f.vars := memberClasses;
      var todo := configSet;
      while todo != {}
        invariant todo <= configSet && f.vars == memberClasses && fresh(f)
        invariant f.dist.Keys == configSet - todo
        invariant forall c :: c in configSet - todo ==> Members(c) == memberClasses && |scores| <= |c| && f.dist[c] == Score(c, scores)
        decreases todo
      {
        var c := Pick(todo);
        if Members(c) != memberClasses {
          return Err(IllegalState);
        }
        var s := ConfigurationScore(c, scores);
        if s.Err? {
          return Err(s.error);
        }
        f.dist := f.dist[c := s.value];
        todo := todo - {c};
      }
      return Ok(f);
    }

    /** `Factor(configSet, memberClasses)`: the same check, every configuration scored 1.0. */
    static method FromConfigsUniform(configSet: set<seq<TriState>>, memberClasses: set<nat>)
      returns (r: Result<Factor>)
      ensures r.Ok? <==> forall c :: c in configSet ==> Members(c) == memberClasses
      ensures r.Ok? ==> fresh(r.value) && r.value.vars == memberClasses && r.value.dist.Keys == configSet
      ensures r.Ok? ==> forall c :: c in configSet ==> r.value.dist[c] == 1.0
      ensures r.Err? ==> r.error == IllegalState
    {
      var f := new Factor();
      f.vars := memberClasses;
      var todo := configSet;
      while todo != {}
        invariant todo <= configSet && f.vars == memberClasses && fresh(f)
        invariant f.dist.Keys == configSet - todo
        invariant forall c :: c in configSet - todo ==> Members(c) == memberClasses && f.dist[c] == 1.0
        decreases todo
      {
        var c := Pick(todo);
        if Members(c) != memberClasses {
          return Err(IllegalState);
        }
        f.dist := f.dist[c := 1.0];
        todo := todo - {c};
      }
      return Ok(f);
    }

    /** `getDeepCopy`: a fresh factor with the same entries and variables. */
    method GetDeepCopy() returns (f: Factor)
      ensures fresh(f) && f.dist == dist && f.vars == vars
    {
      var newDist: Dist := map[];
      var todo := dist.Keys;
      while todo != {}
        invariant todo <= dist.Keys
        invariant newDist == map c | c in dist.Keys - todo :: dist[c]
        decreases todo
      {
        var c := Pick(todo);
        newDist := newDist[c := dist[c]];
        todo := todo - {c};
      }
      f := new Factor.Of(newDist, vars);
    }

    /** `getVariables`: a clone of the variable set. */
    function GetVariables(): set<nat>
      reads this
    {
      vars
    }

    /**
     * `addConfiguration(config, score)`: an empty variable set adopts the configuration's
     * members; otherwise they must match.
     */
    method AddConfiguration(config: Configuration, score: real) returns (out: Outcome)
      requires config.Valid()
      modifies this
      ensures out.Fail? <==> old(vars) != {} && old(vars) != Members(config.Value())
      ensures out.Fail? ==> out.error == IllegalArgument && dist == old(dist) && vars == old(vars)
      ensures out.Pass? ==> vars == Members(config.Value()) && dist == old(dist)[config.Value() := score]
    {
      if vars == {} {
        vars := config.GetMembers();
      } else if vars != config.GetMembers() {
        return Fail(IllegalArgument);
      }
      dist := dist[config.Value() := score];
      return Pass;
    }

    /**
     * `getSubDistribution(indices)`: every key trimmed to `indices`; keys that trim to the
     * same configuration are merged with `lse` (`logSumOfExponentials`) in iteration order.
     */
    method GetSubDistribution(indices: set<nat>, lse: (real, real) -> real) returns (r: Result<Factor>)
      ensures r.Err? <==> !(indices <= vars)
      ensures r.Err? ==> r.error == IllegalArgument
      ensures r.Ok? ==> fresh(r.value) && r.value.vars == indices
      ensures r.Ok? ==> r.value.dist.Keys == TrimmedKeys(dist.Keys, indices)
      ensures r.Ok? ==> forall t, c :: t in r.value.dist && Preimage(dist.Keys, indices, t) == {c} ==> r.value.dist[t] == dist[c]
      ensures r.Ok? && CommutativeAssociative(lse) ==>
        forall t :: t in r.value.dist ==>
          Preimage(dist.Keys, indices, t) != {} && r.value.dist[t] == Fold(lse, dist, Preimage(dist.Keys, indices, t))
      ensures r.Ok? ==> Projection(dist, indices, lse, r.value.dist)
    {
      if !(indices <= vars) {
        return Err(IllegalArgument);
      }
      var nd: Dist := map[];
      var todo := dist.Keys;
      while todo != {}
        invariant todo <= dist.Keys
        invariant ProjectionOf(dist, indices, lse, nd, dist.Keys - todo)
        decreases todo
      {
        var c := Pick(todo);
        var d := dist[c];
        var t := Trimmed(c, indices);
        ProjectionStep(dist, indices, lse, nd, dist.Keys - todo, c);
        assert dist.Keys - (todo - {c}) == (dist.Keys - todo) + {c};
        if t in nd {
          nd := nd[t := lse(d, nd[t])];
        } else {
          nd := nd[t := d];
        }
        todo := todo - {c};
      }
      assert dist.Keys - todo == dist.Keys;
      var f := new Factor.Of(nd, indices);
      return Ok(f);
    }

    /**
     * `combineDistributionProduct(separator)`: every key absorbs the separator value of each
     * separator key it subsumes.
     */
    method CombineDistributionProduct(separator: Factor)
      requires separator != this
      modifies this`dist
      ensures dist.Keys == old(dist.Keys) && vars == old(vars)
      ensures forall c :: c in dist ==> dist[c] == old(dist[c]) + Sum(separator.dist, SubsumedKeys(separator.dist, c))
      ensures forall c :: c in dist && SubsumedKeys(separator.dist, c) == {} ==> dist[c] == old(dist[c])
      ensures dist == Absorbed(old(dist), separator.dist)
    {
      ghost var d0 := dist;
      var todo := dist.Keys;
      while todo != {}
        invariant todo <= dist.Keys == old(dist.Keys) && vars == old(vars)
        invariant forall c :: c in dist && c !in todo ==> dist[c] == old(dist[c]) + Sum(separator.dist, SubsumedKeys(separator.dist, c))
        invariant forall c :: c in todo ==> dist[c] == old(dist[c])
        decreases todo
      {
        var c := Pick(todo);
        var inner := separator.dist.Keys;
        while inner != {}
          invariant inner <= separator.dist.Keys
          invariant dist.Keys == old(dist.Keys) && vars == old(vars)
          invariant forall e :: e in dist && e != c && e !in todo ==> dist[e] == old(dist[e]) + Sum(separator.dist, SubsumedKeys(separator.dist, e))
          invariant forall e :: e in todo && e != c ==> dist[e] == old(dist[e])
          invariant dist[c] == old(dist[c]) + Sum(separator.dist, SubsumedKeys(separator.dist, c) - inner)
          decreases inner
        {
          var s := Pick(inner);
          if IsSubsumed(s, c) {
            SumRemove(separator.dist, SubsumedKeys(separator.dist, c) - (inner - {s}), s);
            assert SubsumedKeys(separator.dist, c) - (inner - {s}) - {s} == SubsumedKeys(separator.dist, c) - inner;
            dist := dist[c := dist[c] + separator.dist[s]];
          } else {
            assert SubsumedKeys(separator.dist, c) - (inner - {s}) == SubsumedKeys(separator.dist, c) - inner;
          }
          inner := inner - {s};
        }
        assert SubsumedKeys(separator.dist, c) - inner == SubsumedKeys(separator.dist, c);
        todo := todo - {c};
      }
      AbsorbedFrom(d0, dist, separator.dist);
    }

    /**
     * `divide(other)`: a copy in which each key loses the values of all keys of `other`
     * with the same entries; the receiver is unchanged.
     */
    method Divide(other: Factor) returns (f: Factor)
      ensures fresh(f) && f.vars == vars && f.dist.Keys == dist.Keys
      ensures forall c :: c in f.dist ==> f.dist[c] == dist[c] - Sum(other.dist, SameEntryKeys(other.dist, c))
      ensures forall c :: c in f.dist && SameEntryKeys(other.dist, c) == {} ==> f.dist[c] == dist[c]
      ensures f.dist == Quotient(dist, other.dist)
    {
      f := GetDeepCopy();
      var todo := f.dist.Keys;
      while todo != {}
        invariant fresh(f) && todo <= f.dist.Keys == dist.Keys && f.vars == vars
        invariant forall c :: c in f.dist && c !in todo ==> f.dist[c] == dist[c] - Sum(other.dist, SameEntryKeys(other.dist, c))
        invariant forall c :: c in todo ==> f.dist[c] == dist[c]
        decreases todo
      {
        var c := Pick(todo);
        var inner := other.dist.Keys;
        while inner != {}
          invariant inner <= other.dist.Keys
          invariant fresh(f) && f.dist.Keys == dist.Keys && f.vars == vars
          invariant forall e :: e in f.dist && e != c && e !in todo ==> f.dist[e] == dist[e] - Sum(other.dist, SameEntryKeys(other.dist, e))
          invariant forall e :: e in todo && e != c ==> f.dist[e] == dist[e]
          invariant f.dist[c] == dist[c] - Sum(other.dist, SameEntryKeys(other.dist, c) - inner)
          decreases inner
        {
          var o := Pick(inner);
          if HasSameEntries(c, o) {
            SumRemove(other.dist, SameEntryKeys(other.dist, c) - (inner - {o}), o);
            assert SameEntryKeys(other.dist, c) - (inner - {o}) - {o} == SameEntryKeys(other.dist, c) - inner;
            f.dist := f.dist[c := f.dist[c] - other.dist[o]];
          } else {
            assert SameEntryKeys(other.dist, c) - (inner - {o}) == SameEntryKeys(other.dist, c) - inner;
          }
          inner := inner - {o};
        }
        assert SameEntryKeys(other.dist, c) - inner == SameEntryKeys(other.dist, c);
        todo := todo - {c};
      }
      QuotientFrom(dist, f.dist, other.dist);
    }

    /**
     * `getScoreIfSubsumed(query)`: the total value of the keys that subsume `query`, or 1
     * when that total is exactly zero.
     */
    method GetScoreIfSubsumed(query: Configuration) returns (r: real)
      requires query.Valid()
      ensures var s := Sum(dist, SubsumingKeys(dist, query.Value())); r == if s == 0.0 then 1.0 else s
      ensures SubsumingKeys(dist, query.Value()) == {} ==> r == 1.0
    {
      var q := query.Value();
      var sum := 0.0;
      var todo := dist.Keys;
      while todo != {}
        invariant todo <= dist.Keys
        invariant sum == Sum(dist, SubsumingKeys(dist, q) - todo)
        decreases todo
      {
        var c := Pick(todo);
        if IsSubsumed(q, c) {
          SumRemove(dist, SubsumingKeys(dist, q) - (todo - {c}), c);
          assert SubsumingKeys(dist, q) - (todo - {c}) - {c} == SubsumingKeys(dist, q) - todo;
          sum := sum + dist[c];
        } else {
          assert SubsumingKeys(dist, q) - (todo - {c}) == SubsumingKeys(dist, q) - todo;
        }
        todo := todo - {c};
      }
      assert SubsumingKeys(dist, q) - todo == SubsumingKeys(dist, q);
      r := if sum == 0.0 then 1.0 else sum;
    }
  }
}
