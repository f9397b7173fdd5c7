/** The bidirectional table between class names and their integer indices. */
module Names {
  import opened Wrappers

  /** `i` is the position of the last occurrence of `n` in `names`. */
  ghost predicate IsLastIndex<V>(names: seq<V>, n: V, i: int) {
    0 <= i < |names| && names[i] == n && forall j :: i < j < |names| ==> names[j] != n
  }

  ghost predicate Distinct<V>(names: seq<V>) {
    forall i, j :: 0 <= i < j < |names| ==> names[i] != names[j]
  }

  class NameSpace<V(==,!new)> {
    const names: seq<V>
    const mapping: map<V, nat>

    /** The table maps exactly the listed names, each to its last position. */
    ghost predicate Valid() {
      (forall n :: n in mapping <==> n in names) &&
      (forall n :: n in mapping ==> IsLastIndex(names, n, mapping[n]))
    }

    /** Fills the table in list order, so a repeated name keeps its last index. */
    constructor (classNames: seq<V>)
      ensures names == classNames && Valid()
    {
      var m: map<V, nat> := map[];
      var i := 0;
      while i < |classNames|
        invariant 0 <= i <= |classNames|
        invariant forall n :: n in m <==> n in classNames[..i]
        invariant forall n :: n in m ==> IsLastIndex(classNames[..i], n, m[n])
      {
        assert classNames[..i + 1] == classNames[..i] + [classNames[i]];
        m := m[classNames[i] := i];
        i := i + 1;
      }
      assert classNames[..i] == classNames;
      names := classNames;
      mapping := m;
    }

    /** `size()`: the length of the name list, above every index in the table. */
    function Size(): (r: nat)
      ensures Valid() ==> forall n :: n in mapping ==> mapping[n] < r
    {
      |names|
    }

    /** `get(i)`: an index outside the array fails. */
    function Get(i: int): (r: Result<V>)
      ensures r.Ok? <==> 0 <= i < Size()
      ensures r.Ok? ==> r.value == names[i]
    {
      if 0 <= i < |names| then Ok(names[i]) else Err(IndexOutOfBounds)
    }

    /** `getIndex(n)`: unboxing the missing entry of an unknown name fails. */
    function GetIndex(n: V): (r: Result<nat>)
      requires Valid()
      ensures r.Ok? <==> n in names
      ensures r.Ok? ==> IsLastIndex(names, n, r.value)
    {
      if n in mapping then Ok(mapping[n]) else Err(NullPointer)
    }

    /** The index of a known name leads back to that name. */
    lemma GetOfGetIndex(n: V)
      requires Valid() && n in names
      ensures GetIndex(n).Ok? && Get(GetIndex(n).value) == Ok(n)
    {
    }

    /** With distinct names, every position is the index of the name found there. */
    lemma GetIndexOfGet(i: int)
      requires Valid() && Distinct(names) && 0 <= i < Size()
      ensures Get(i).Ok? && GetIndex(Get(i).value) == Ok(i)
    {
    }

    /** Distinct known names have distinct indices, even when the list repeats names. */
    lemma GetIndexInjective(a: V, b: V)
      requires Valid() && a in names && b in names && a != b
      ensures GetIndex(a).value != GetIndex(b).value
    {
    }
  }
}
