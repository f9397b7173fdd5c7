/**
 * The earlier map-based configuration: every label maps to a value, `Unset` until a value is
 * written, and a label that already holds a value is never overwritten with another one.
 */
module LegacyConfigurations {
  import opened Wrappers
  import Hierarchy

  const ConfigFalse: int := 0
  const ConfigTrue: int := 1
  const Unset: int := -1

  /** `setValues` may write `val` at `item`: the label is present and unset or already `val`. */
  ghost predicate Settable<V(!new)>(c: map<V, int>, item: V, val: int) {
    item in c && (c[item] == Unset || c[item] == val)
  }

  /** `d` is `c` with `val` written at every label of `among`, each of which was settable. */
  ghost predicate WrittenOn<V(!new)>(c: map<V, int>, d: map<V, int>, among: set<V>, val: int) {
    d.Keys == c.Keys && among <= c.Keys &&
    forall k :: k in d ==> if k in among then Settable(c, k, val) && d[k] == val else d[k] == c[k]
  }

  /** Every entry of `o` is an entry of `c`: what `isSubsumed` tests with `c` as the receiver. */
  ghost predicate Covers<V(!new)>(c: map<V, int>, o: map<V, int>) {
    forall k :: k in o ==> k in c && c[k] == o[k]
  }

  /** The entries of `c` whose labels are in `vals`. */
  ghost function Restrict<V(!new)>(c: map<V, int>, vals: set<V>): map<V, int> {
    map k | k in c && k in vals :: c[k]
  }

  /** A label once set keeps its value through `setValues`. */
  lemma WrittenKeepsSet<V(!new)>(c: map<V, int>, d: map<V, int>, among: set<V>, val: int, k: V)
    requires WrittenOn(c, d, among, val) && k in c && c[k] != Unset
    ensures d[k] == c[k]
  {
    if k in among {
      assert Settable(c, k, val);
    }
  }

  /** Repeating a successful `setValues` succeeds again and changes nothing. */
  lemma WrittenAgain<V(!new)>(c: map<V, int>, d: map<V, int>, among: set<V>, val: int)
    requires WrittenOn(c, d, among, val)
    ensures forall i :: i in among ==> Settable(d, i, val)
    ensures WrittenOn(d, d, among, val)
  {
    forall i | i in among ensures Settable(d, i, val) {
      assert i in c;
    }
  }

  /** After a successful `setValues`, the new configuration covers the written entries and every label it does not touch. */
  lemma WrittenCovers<V(!new)>(c: map<V, int>, d: map<V, int>, among: set<V>, val: int)
    requires WrittenOn(c, d, among, val)
    ensures Covers(d, map i | i in among :: val)
    ensures Covers(d, Restrict(c, c.Keys - among))
  {
    forall i | i in among ensures i in d && d[i] == val {
      assert Settable(c, i, val);
    }
  }

  lemma RestrictCovered<V(!new)>(c: map<V, int>, vals: set<V>)
    ensures Restrict(c, vals).Keys == c.Keys * vals
    ensures Covers(c, Restrict(c, vals))
    ensures Restrict(Restrict(c, vals), vals) == Restrict(c, vals)
  {
    var r := Restrict(c, vals);
    assert r.Keys == c.Keys * vals;
    assert Restrict(r, vals).Keys == r.Keys;
  }

  lemma CoversReflexive<V(!new)>(c: map<V, int>)
    ensures Covers(c, c)
  {
  }

  lemma CoversTransitive<V(!new)>(a: map<V, int>, b: map<V, int>, c: map<V, int>)
    requires Covers(a, b) && Covers(b, c)
    ensures Covers(a, c)
  {
    forall k | k in c ensures k in a && a[k] == c[k] {
      assert k in b;
    }
  }

  /** `equals` compares the maps; that is the same as each covering the other. */
  lemma EqualIffCovering<V(!new)>(a: map<V, int>, b: map<V, int>)
    ensures a == b <==> Covers(a, b) && Covers(b, a)
  {
    if Covers(a, b) && Covers(b, a) {
      assert a.Keys == b.Keys;
      forall k | k in a ensures a[k] == b[k] {
      }
    }
  }

  /** Equal sizes and one key set inside the other: the key sets are equal. */
  lemma SameSizeSubset<V>(a: set<V>, b: set<V>)
    requires a <= b && |a| == |b|
    ensures a == b
  {
    if a != b {
      Hierarchy.ProperSubsetCard(a, b);
    }
  }

  class Configuration<V(==,!new)> {
    var config: map<V, int>

    /** `Configuration()`: no labels. */
    constructor Empty()
      ensures config == map[]
    {
      config := map[];
    }

    /** `Configuration(classes)`: every class unset. */
    constructor (classes: set<V>)
      ensures config.Keys == classes
      ensures forall i :: i in classes ==> config[i] == Unset
    {
      var m: map<V, int> := map[];
      var todo := classes;
      while todo != {}
        invariant todo <= classes && m.Keys == classes - todo
        invariant forall i :: i in m ==> m[i] == Unset
        decreases |todo|
      {
        var item, rest := Take(todo);
        m := m[item := Unset];
        todo := rest;
      }
      config := m;
    }

    predicate Contains(key: V)
      reads this
    {
      key in config
    }

    /** `get`: unboxing the missing value of an absent label throws. */
    function Get(key: V): (r: Result<int>)
      reads this
      ensures r.Err? <==> key !in config
      ensures r.Err? ==> r.error == NullPointer
      ensures r.Ok? ==> config[key] == r.value
    {
      if key in config then Ok(config[key]) else Err(NullPointer)
    }

    /** `isSet`: the label holds `ConfigTrue`; an absent label throws. */
    function IsSet(key: V): (r: Result<bool>)
      reads this
      ensures r.Err? <==> key !in config
      ensures r.Err? ==> r.error == NullPointer
      ensures r == Ok(true) <==> Get(key) == Ok(ConfigTrue)
    {
      if key in config then Ok(config[key] == ConfigTrue) else Err(NullPointer)
    }

    function KeySet(): (r: set<V>)
      reads this
      ensures forall k :: k in r <==> Contains(k)
    {
      config.Keys
    }

    /** `containsMapping`: every entry of `mapping` is an entry of the receiver. */
    method ContainsMapping(mapping: map<V, int>) returns (r: bool)
      ensures r <==> Covers(config, mapping)
    {
      var todo := mapping.Keys;
      while todo != {}
        invariant todo <= mapping.Keys
        invariant forall k :: k in mapping && k !in todo ==> k in config && config[k] == mapping[k]
        decreases |todo|
      {
        var variable, rest := Take(todo);
        if !(variable in config && mapping[variable] == config[variable]) {
          return false;
        }
        todo := rest;
      }
      return true;
    }

    /** `getDeepCopy`: a new configuration with the same entries. */
    method GetDeepCopy() returns (copy: Configuration<V>)
      ensures fresh(copy) && copy.config == config
    {
      copy := new Configuration.Empty();
      var todo := config.Keys;
      while todo != {}
        invariant todo <= config.Keys
        invariant copy.config.Keys == config.Keys - todo
        invariant forall k :: k in copy.config ==> copy.config[k] == config[k]
        decreases |todo|
      {
        var item, rest := Take(todo);
        copy.config := copy.config[item := config[item]];
        todo := rest;
      }
    }

    /**
     * `setValues(classes, val)`: walks the classes in hash order and stops at the first one that
     * is absent (the unboxing throws) or already holds another value; the labels written before
     * it keep `val`. `written` is the set of labels that were written.
     */
    method SetValues(classes: set<V>, val: int) returns (r: Result<bool>, ghost written: set<V>)
      modifies this
      ensures written <= classes && WrittenOn(old(config), config, written, val)
      ensures r == Ok(true) <==> forall i :: i in classes ==> Settable(old(config), i, val)
      ensures r == Ok(true) ==> written == classes
      ensures r.Err? ==> r.error == NullPointer && exists i :: i in classes && i !in old(config)
      ensures r == Ok(false) ==> exists i :: i in classes && i in old(config) && !Settable(old(config), i, val)
    {
      ghost var c := config;
      written := {};
      var todo := classes;
      while todo != {}
        invariant todo <= classes && written == classes - todo
        invariant WrittenOn(c, config, written, val)
        decreases |todo|
      {
        var item, rest := Take(todo);
        if item !in config {
          return Err(NullPointer), written;
        }
        var curr := config[item];
        if !(curr == Unset || curr == val) {
          return Ok(false), written;
        }
        config := config[item := val];
        written, todo := written + {item}, rest;
      }
      return Ok(true), written;
    }

    /** `setValues(item, val)`: writes when the label is unset or already holds `val`. */
    method SetValue(item: V, val: int) returns (r: Result<bool>)
      modifies this
      ensures item !in old(config) ==> r == Err(NullPointer) && config == old(config)
      ensures item in old(config) ==> r == Ok(Settable(old(config), item, val))
      ensures WrittenOn(old(config), config, if r == Ok(true) then {item} else {}, val)
    {
      if item !in config {
        return Err(NullPointer);
      }
      var curr := config[item];
      if !(curr == Unset || curr == val) {
        return Ok(false);
      }
      config := config[item := val];
      return Ok(true);
    }

    /** `hasSameEntries`: the same labels, whatever their values. */
    method HasSameEntries(other: Configuration<V>) returns (r: bool)
      ensures r <==> config.Keys == other.config.Keys
    {
      if |other.config| != |config| {
        return false;
      }
      var otherKeys := other.config.Keys;
      var todo := config.Keys;
      while todo != {}
        invariant todo <= config.Keys && config.Keys - todo <= otherKeys
        decreases |todo|
      {
        var item, rest := Take(todo);
        if item !in otherKeys {
          return false;
        }
        todo := rest;
      }
      SameSizeSubset(config.Keys, otherKeys);
      return true;
    }

    /**
     * `isSubsumed(other)`: every label of `other` is a label of the receiver with the same value,
     * so it is the receiver that covers `other`.
     */
    method IsSubsumed(other: Configuration<V>) returns (r: bool)
      ensures r <==> Covers(config, other.config)
    {
      var todo := other.config.Keys;
      while todo != {}
        invariant todo <= other.config.Keys
        invariant forall k :: k in other.config && k !in todo ==> k in config && config[k] == other.config[k]
        decreases |todo|
      {
        var key, rest := Take(todo);
        if !(key in config && config[key] == other.config[key]) {
          return false;
        }
        todo := rest;
      }
      return true;
    }

    /** `equals`: the two maps are equal. */
    function Equals(other: Configuration<V>): (r: bool)
      reads this, other
      ensures r <==> KeySet() == other.KeySet() && forall k :: k in KeySet() ==> Get(k) == other.Get(k)
    {
      config == other.config
    }

    /** `trim(vals)`: removes, through the entry iterator, every label not in `vals`. */
    method Trim(vals: set<V>)
      modifies this
      ensures config == Restrict(old(config), vals)
    {
      ghost var c := config;
      var todo := config.Keys;
      while todo != {}
        invariant todo <= c.Keys
        invariant config.Keys == (c.Keys * vals) + todo
        invariant forall k :: k in config ==> config[k] == c[k]
        decreases |todo|
      {
        var key, rest := Take(todo);
        if key !in vals {
          config := config - {key};
        }
        todo := rest;
      }
      assert config.Keys == Restrict(c, vals).Keys;
    }
  }
}
