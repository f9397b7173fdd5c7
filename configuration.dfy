/**
 * A configuration is a tri-state vector over the global class indices, together with two
 * bitsets derived from it: `members` (set entries) and `positive` (TRUE entries).
 */
module Configurations {
  import opened Wrappers

  datatype TriState = TRUE | FALSE | UNSET

  /** The indices whose entry is TRUE or FALSE. */
  function Members(s: seq<TriState>): set<nat> {
    set i: nat | i < |s| && s[i] != UNSET
  }

  /** The indices whose entry is TRUE. */
  function Positive(s: seq<TriState>): set<nat> {
    set i: nat | i < |s| && s[i] == TRUE
  }

  /** `isSubsumed`, computed on the two bitsets. */
  predicate IsSubsumed(a: seq<TriState>, b: seq<TriState>) {
    Positive(a) <= Positive(b) && Members(a) <= Members(b)
  }

  /** `hasSameEntries`: both bitsets agree. */
  predicate HasSameEntries(a: seq<TriState>, b: seq<TriState>) {
    Positive(a) == Positive(b) && Members(a) == Members(b)
  }

  /** The entries outside `indices` reset to UNSET. */
  function Trimmed(s: seq<TriState>, indices: set<nat>): seq<TriState> {
    seq(|s|, i requires 0 <= i < |s| => if i in indices then s[i] else UNSET)
  }

  /** Every index of `indices` that lies in range set to `v`. */
  function Assigned(s: seq<TriState>, indices: set<int>, v: TriState): seq<TriState> {
    seq(|s|, i requires 0 <= i < |s| => if i in indices then v else s[i])
  }

  /** The indices listed in an `int[]`. */
  function Elements(s: seq<int>): set<int> {
    set k | k in s
  }

  lemma MembersUpdate(s: seq<TriState>, i: nat, v: TriState)
    requires i < |s|
    ensures Members(s[i := v]) == if v == UNSET then Members(s) - {i} else Members(s) + {i}
    ensures Positive(s[i := v]) == if v == TRUE then Positive(s) + {i} else Positive(s) - {i}
  {
  }

  /** Trimming restricts both bitsets to the kept indices. */
  lemma TrimmedBitsets(s: seq<TriState>, indices: set<nat>)
    ensures Members(Trimmed(s, indices)) == Members(s) * indices
    ensures Positive(Trimmed(s, indices)) == Positive(s) * indices
  {
    var t := Trimmed(s, indices);
    assert forall i: nat :: i < |s| ==> t[i] == if i in indices then s[i] else UNSET;
  }

  /** Trimming twice to the same indices is trimming once. */
  lemma TrimIdempotent(s: seq<TriState>, indices: set<nat>)
    ensures Trimmed(Trimmed(s, indices), indices) == Trimmed(s, indices)
  {
  }

  /** A trimmed configuration is subsumed by the configuration it was cut from. */
  lemma TrimmedIsSubsumed(s: seq<TriState>, indices: set<nat>)
    ensures IsSubsumed(Trimmed(s, indices), s)
  {
    TrimmedBitsets(s, indices);
  }

  /**
   * Subsumption entry by entry: a TRUE entry must meet TRUE and a set entry must meet a
   * set entry, so FALSE against TRUE passes.
   */
  lemma SubsumedEntrywise(a: seq<TriState>, b: seq<TriState>)
    ensures IsSubsumed(a, b) <==>
      forall i :: 0 <= i < |a| ==>
        (a[i] == TRUE ==> i < |b| && b[i] == TRUE) && (a[i] != UNSET ==> i < |b| && b[i] != UNSET)
  {
    if IsSubsumed(a, b) {
      forall i | 0 <= i < |a|
        ensures (a[i] == TRUE ==> i < |b| && b[i] == TRUE) && (a[i] != UNSET ==> i < |b| && b[i] != UNSET)
      {
        if a[i] == TRUE {
          assert i in Positive(a);
        }
        if a[i] != UNSET {
          assert i in Members(a);
        }
      }
    }
  }

  /** The doc comment asks for equal values, but a FALSE entry is subsumed by a TRUE one. */
  lemma FalseSubsumedByTrue()
    ensures IsSubsumed([FALSE], [TRUE]) && [FALSE] != [TRUE]
  {
    assert Positive([FALSE]) == {} by {
      assert [FALSE][0] != TRUE;
    }
    assert Members([FALSE]) == {0} && Members([TRUE]) == {0} by {
      assert [FALSE][0] != UNSET && [TRUE][0] != UNSET;
    }
  }

  lemma SubsumedPreorder(a: seq<TriState>, b: seq<TriState>, c: seq<TriState>)
    ensures IsSubsumed(a, a)
    ensures IsSubsumed(a, b) && IsSubsumed(b, c) ==> IsSubsumed(a, c)
  {
  }

  lemma SameEntriesEquivalence(a: seq<TriState>, b: seq<TriState>)
    ensures HasSameEntries(a, a)
    ensures HasSameEntries(a, b) ==> HasSameEntries(b, a)
  {
  }

  /**
   * On equal lengths `hasSameEntries` coincides with `equals`, which compares the arrays:
   * the two bitsets determine every tri-state entry.
   */
  lemma SameEntriesIffEqual(a: seq<TriState>, b: seq<TriState>)
    requires |a| == |b|
    ensures HasSameEntries(a, b) <==> a == b
  {
    if HasSameEntries(a, b) {
      forall i | 0 <= i < |a| ensures a[i] == b[i] {
        assert (i in Positive(a)) == (i in Positive(b));
        assert (i in Members(a)) == (i in Members(b));
      }
    }
  }

  /** Across different lengths the two differ: trailing UNSET entries are invisible to the bitsets. */
  lemma SameEntriesIgnoresLength()
    ensures HasSameEntries([UNSET], []) && [UNSET] != []
  {
    assert Members([UNSET]) == {} by {
      assert [UNSET][0] == UNSET;
    }
  }

  class Configuration {
    var config: array<TriState>
    var members: set<nat>
    var positive: set<nat>

    /** The two bitsets are exactly the ones derived from the array. */
    ghost predicate Valid()
      reads this, config
    {
      members == Members(config[..]) && positive == Positive(config[..])
    }

    /** The tri-state vector, the value `equals` and `hashCode` look at. */
    function Value(): seq<TriState>
      reads this, config
    {
      config[..]
    }

    /** `Configuration(n)`: n entries, all UNSET, with empty bitsets. */
    constructor (numClasses: nat)
      ensures Valid() && fresh(config)
      ensures Value() == seq(numClasses, _ => UNSET)
      ensures members == {} && positive == {}
    {
      var a := new TriState[numClasses];
      var i := 0;
      while i < numClasses
        modifies a
        invariant 0 <= i <= numClasses
        invariant forall j :: 0 <= j < i ==> a[j] == UNSET
      {
        a[i] := UNSET;
        i := i + 1;
      }
      config := a;
      members := {};
      positive := {};
      new;
      assert Members(config[..]) == {};
    }

    /**
     * `Configuration(TriState[])`: keeps the given array and derives both bitsets; a TRUE
     * entry falls through to the member case.
     */
    constructor FromArray(arr: array<TriState>)
      ensures config == arr && Valid()
    {
      var m: set<nat> := {};
      var p: set<nat> := {};
      var i := 0;
      while i < arr.Length
        invariant 0 <= i <= arr.Length
        invariant m == Members(arr[..i]) && p == Positive(arr[..i])
      {
        assert arr[..i + 1] == arr[..i] + [arr[i]];
        if arr[i] == TRUE {
          p := p + {i};
        }
        if arr[i] != UNSET {
          m := m + {i};
        }
        i := i + 1;
      }
      assert arr[..i] == arr[..];
      config := arr;
      members := m;
      positive := p;
    }

    /** `Configuration(n, int[])`: all UNSET, then every listed index set TRUE in order. */
    static method FromIndices(numClasses: nat, indices: seq<int>) returns (r: Result<Configuration>)
      ensures r.Ok? <==> forall k :: 0 <= k < |indices| ==> 0 <= indices[k] < numClasses
      ensures r.Ok? ==> fresh(r.value) && fresh(r.value.config) && r.value.Valid()
      ensures r.Ok? ==> r.value.Value() == Assigned(seq(numClasses, _ => UNSET), Elements(indices), TRUE)
    {
      var c := new Configuration(numClasses);
      var out := c.SetValues(indices, TRUE);
      if out.Fail? {
        return Err(out.error);
      }
      return Ok(c);
    }

    /** `size()`: the length of the tri-state vector, above every member index. */
    function Size(): (r: nat)
      reads this, config
      ensures r == |Value()|
      ensures Valid() ==> forall i :: i in members ==> i < r
    {
      config.Length
    }

    /** `contains(idx)` reads the array: out of range fails. */
    function Contains(idx: int): (r: Result<bool>)
      reads this, config
      ensures r.Ok? <==> 0 <= idx < Size()
      ensures r.Ok? && Valid() ==> (r.value <==> idx in members)
    {
      if 0 <= idx < config.Length then Ok(config[idx] != UNSET) else Err(IndexOutOfBounds)
    }

    /** `isSet(idx)`: the entry is TRUE. */
    function IsSet(idx: int): (r: Result<bool>)
      reads this, config
      ensures r.Ok? <==> 0 <= idx < Size()
      ensures r.Ok? && Valid() ==> (r.value <==> idx in positive)
    {
      if 0 <= idx < config.Length then Ok(config[idx] == TRUE) else Err(IndexOutOfBounds)
    }

    function Get(idx: int): (r: Result<TriState>)
      reads this, config
      ensures r.Ok? <==> 0 <= idx < Size()
      ensures r.Ok? && Valid() ==> (r.value == TRUE <==> idx in positive) && (r.value == UNSET <==> idx !in members)
    {
      if 0 <= idx < config.Length then Ok(config[idx]) else Err(IndexOutOfBounds)
    }

    /** `getMembers` and `getBitwiseConfig` hand out clones, i.e. the values of the bitsets. */
    function GetMembers(): (r: set<nat>)
      reads this, config
      ensures Valid() ==> forall i :: i in r <==> Contains(i) == Ok(true)
    {
      members
    }

    function GetBitwiseConfig(): (r: set<nat>)
      reads this, config
      ensures Valid() ==> forall i :: i in r <==> IsSet(i) == Ok(true)
      ensures Valid() ==> r <= GetMembers()
    {
      positive
    }

    /** `isSubsumed(other)` on the stored bitsets. */
    function IsSubsumedBy(other: Configuration): (r: bool)
      reads this, config, other, other.config
      ensures Valid() && other.Valid() ==> (r <==> IsSubsumed(Value(), other.Value()))
    {
      positive <= other.positive && members <= other.members
    }

    /** `hasSameEntries(other)`: the xor of either pair of bitsets is empty. */
    function HasSameEntriesAs(other: Configuration): (r: bool)
      reads this, config, other, other.config
      ensures Valid() && other.Valid() ==> (r <==> HasSameEntries(Value(), other.Value()))
    {
      (positive - other.positive) + (other.positive - positive) == {} &&
      (members - other.members) + (other.members - members) == {}
    }

    /** `equals`: element-wise array comparison, lengths included. */
    function Equals(other: Configuration): (r: bool)
      reads this, config, other, other.config
      ensures Valid() && other.Valid() ==> (r <==> Size() == other.Size() && HasSameEntriesAs(other))
    {
      if config.Length == other.config.Length then
        SameEntriesIffEqual(config[..], other.config[..]);
        config[..] == other.config[..]
      else
        false
    }

    /** `getDeepCopy`: a configuration over a fresh copy of the array. */
    method GetDeepCopy() returns (c: Configuration)
      ensures fresh(c) && fresh(c.config) && c.Valid()
      ensures c.Value() == Value()
    {
      var a := new TriState[config.Length](i reads this, config requires 0 <= i < config.Length => config[i]);
      c := new Configuration.FromArray(a);
    }

    /**
     * `setValue(idx, v)`: the array write comes first, so an index out of range fails
     * before anything changes; otherwise only entry `idx` and its two bits change.
     */
    method SetValue(idx: int, v: TriState) returns (out: Outcome)
      requires Valid()
      modifies this, config
      ensures Valid() && config == old(config)
      ensures out == if 0 <= idx < config.Length then Pass else Fail(IndexOutOfBounds)
      ensures Value() == if out.Pass? then old(Value())[idx := v] else old(Value())
    {
      if !(0 <= idx < config.Length) {
        return Fail(IndexOutOfBounds);
      }
      MembersUpdate(config[..], idx, v);
      config[idx] := v;
      out := Pass;
      match v
      case TRUE =>
        positive := positive + {idx};
        members := members + {idx};
      case FALSE =>
        positive := positive - {idx};
        members := members + {idx};
      case UNSET =>
        positive := positive - {idx};
        members := members - {idx};
    }

    /**
     * `setValues(int[], v)`: `setValue` on each listed index in order; the first index out
     * of range fails, and the writes before it stay.
     */
    method SetValues(indices: seq<int>, v: TriState) returns (out: Outcome)
      requires Valid()
      modifies this, config
      ensures Valid() && config == old(config)
      ensures out.Pass? <==> forall k :: 0 <= k < |indices| ==> 0 <= indices[k] < config.Length
      ensures out.Pass? ==> Value() == Assigned(old(Value()), Elements(indices), v)
      ensures out.Fail? ==> out.error == IndexOutOfBounds && exists n ::
        0 <= n < |indices| && !(0 <= indices[n] < config.Length) &&
        (forall k :: 0 <= k < n ==> 0 <= indices[k] < config.Length) &&
        Value() == Assigned(old(Value()), Elements(indices[..n]), v)
    {
      var i := 0;
      while i < |indices|
        invariant 0 <= i <= |indices|
        invariant Valid() && config == old(config)
        invariant forall k :: 0 <= k < i ==> 0 <= indices[k] < config.Length
        invariant Value() == Assigned(old(Value()), Elements(indices[..i]), v)
      {
        assert Elements(indices[..i + 1]) == Elements(indices[..i]) + {indices[i]} by {
          assert indices[..i + 1] == indices[..i] + [indices[i]];
        }
        out := SetValue(indices[i], v);
        if out.Fail? {
          return;
        }
        i := i + 1;
      }
      assert indices[..i] == indices;
      out := Pass;
    }

    /**
     * `setValues(Set<Integer>, v)`: the same in hash-set order; when an index is out of range
     * some of the others may already be written.
     */
    method SetValuesSet(indices: set<int>, v: TriState) returns (out: Outcome)
      requires Valid()
      modifies this, config
      ensures Valid() && config == old(config)
      ensures out.Pass? <==> forall k :: k in indices ==> 0 <= k < config.Length
      ensures out.Pass? ==> Value() == Assigned(old(Value()), indices, v)
      ensures out.Fail? ==>
        out.error == IndexOutOfBounds && exists w :: w <= indices && Value() == Assigned(old(Value()), w, v)
    {
      var todo := indices;
      var done: set<int> := {};
      while todo != {}
        invariant todo + done == indices && todo * done == {}
        invariant Valid() && config == old(config)
        invariant forall k :: k in done ==> 0 <= k < config.Length
        invariant Value() == Assigned(old(Value()), done, v)
        decreases todo
      {
        var i := Pick(todo);
        out := SetValue(i, v);
        if out.Fail? {
          return;
        }
        todo := todo - {i};
        done := done + {i};
      }
      out := Pass;
    }

    /**
     * `containsMapping(mapping)`: every mapped index holds the mapped value. The keys are
     * visited in hash order, so an index out of range fails unless a mismatch comes first.
     */
    method ContainsMapping(mapping: map<int, TriState>) returns (r: Result<bool>)
      ensures r == Ok(true) ==> forall k :: k in mapping ==> 0 <= k < Size() && config[k] == mapping[k]
      ensures r == Ok(false) ==> exists k :: k in mapping && 0 <= k < Size() && config[k] != mapping[k]
      ensures r.Err? ==> r.error == IndexOutOfBounds && exists k :: k in mapping && !(0 <= k < Size())
      ensures (forall k :: k in mapping ==> 0 <= k < Size()) ==> r.Ok?
    {
      var todo := mapping.Keys;
      while todo != {}
        invariant todo <= mapping.Keys
        invariant forall k :: k in mapping && k !in todo ==> 0 <= k < Size() && config[k] == mapping[k]
        decreases todo
      {
        var i := Pick(todo);
        if !(0 <= i < config.Length) {
          return Err(IndexOutOfBounds);
        }
        if mapping[i] != config[i] {
          return Ok(false);
        }
        todo := todo - {i};
      }
      return Ok(true);
    }

    /** `trimTo(indices)`: a copy with every entry outside `indices` reset; the receiver is unchanged. */
    method TrimTo(indices: set<nat>) returns (c: Configuration)
      ensures fresh(c) && fresh(c.config) && c.Valid()
      ensures c.Value() == Trimmed(Value(), indices)
    {
      c := GetDeepCopy();
      var i := 0;
      while i < config.Length
        invariant 0 <= i <= config.Length
        invariant fresh(c) && fresh(c.config) && c.Valid() && c.config.Length == config.Length
        invariant forall j :: 0 <= j < i ==> c.config[j] == if j in indices then config[j] else UNSET
        invariant forall j :: i <= j < config.Length ==> c.config[j] == config[j]
      {
        if i !in indices {
          var _ := c.SetValue(i, UNSET);
        }
        i := i + 1;
      }
    }
  }
}
