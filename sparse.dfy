/**
 * Map-backed sparse vectors and sparse matrices stored as arrays of row vectors. A vector
 * keeps only its nonzero entries; every other index reads as zero. Values are reals.
 */
module Sparse {
  import opened Wrappers

  type Entries = map<int, real>

  const IllegalIndex: Exception := Runtime("Illegal index")
  const LengthsDisagree: Exception := Runtime("Vector lengths disagree")
  const DimensionsDisagree: Exception := Runtime("Dimensions disagree")

  /** The message of a dot product between vectors of lengths `a` and `b`. */
  function LengthsDisagreeOf(a: int, b: int): Exception {
    Runtime("Vector lengths disagree: " + Decimal(a) + " " + Decimal(b))
  }

  /** Java's decimal rendering of an `int`. */
  function Decimal(k: int): string {
    if k < 0 then "-" + Digits(-k) else Digits(k)
  }

  function Digits(k: nat): string
    decreases k
  {
    var d := ['0', '1', '2', '3', '4', '5', '6', '7', '8', '9'][k % 10];
    if k < 10 then [d] else Digits(k / 10) + [d]
  }

  /** The value at index `i`: the stored entry, or zero. */
  function At(m: Entries, i: int): real {
    if i in m then m[i] else 0.0
  }

  /** The entries after `put(i, v)`: a zero removes the index, anything else is stored. */
  function Stored(m: Entries, i: int, v: real): Entries {
    if v == 0.0 then m - {i} else m[i := v]
  }

  /** Every stored index lies in `[0, n)` and no stored value is zero. */
  ghost predicate NoZeros(m: Entries, n: int) {
    forall i :: i in m ==> 0 <= i < n && m[i] != 0.0
  }

  /** Entry `j` of the window `from .. to - 1` of `m`: entry `from + j`, or zero outside. */
  function WindowAt(m: Entries, from: int, to: int, j: int): real {
    if 0 <= j < to - from then At(m, from + j) else 0.0
  }

  /** A dense array as entries. */
  function Dense(b: seq<real>): Entries {
    map i | 0 <= i < |b| :: b[i]
  }

  /** The dot product of the first `n` entries: the sum of `a[i] * b[i]` for `0 <= i < n`. */
  function DenseDot(a: Entries, b: Entries, n: int): real
    decreases n
  {
    if n <= 0 then 0.0 else DenseDot(a, b, n - 1) + Product(a, b, n - 1)
  }

  function Product(a: Entries, b: Entries, i: int): real {
    At(a, i) * At(b, i)
  }

  /** Some element of a non-empty set. */
  ghost function Choose<T>(s: set<T>): T
    requires s != {}
  {
    var x :| x in s; x
  }

  /** The sum of `a[i] * b[i]` over the indices in `s`, in any order. */
  ghost function PairSum(a: Entries, b: Entries, s: set<int>): real
    decreases s
  {
    if s == {} then 0.0 else var i := Choose(s); Product(a, b, i) + PairSum(a, b, s - {i})
  }

  lemma {:induction false} PairSumRemove(a: Entries, b: Entries, s: set<int>, x: int)
    requires x in s
    ensures PairSum(a, b, s) == Product(a, b, x) + PairSum(a, b, s - {x})
    decreases s
  {
    var i := Choose(s);
    if i != x {
      PairSumRemove(a, b, s - {i}, x);
      PairSumRemove(a, b, s - {x}, i);
      assert s - {i} - {x} == s - {x} - {i};
    }
  }

  /**
   * Summing the products over any index set inside `[0, n)` that holds every index with a
   * nonzero product gives the dense dot product.
   */
  lemma {:induction false} PairSumIsDenseDot(a: Entries, b: Entries, s: set<int>, n: int)
    requires forall i :: i in s ==> 0 <= i < n
    requires forall i :: 0 <= i < n && i !in s ==> Product(a, b, i) == 0.0
    ensures PairSum(a, b, s) == DenseDot(a, b, n)
    decreases if n < 0 then 0 else n
  {
    if n <= 0 {
      assert forall i :: i !in s;
      assert s == {};
    } else if n - 1 in s {
      PairSumRemove(a, b, s, n - 1);
      PairSumIsDenseDot(a, b, s - {n - 1}, n - 1);
    } else {
      PairSumIsDenseDot(a, b, s, n - 1);
    }
  }

  /** After `put(i, v)`, index `i` reads `v` and every other index reads as before. */
  lemma AtStored(m: Entries, i: int, v: real, j: int)
    ensures At(Stored(m, i, v), j) == if j == i then v else At(m, j)
  {
  }

  /** `put` inside the bounds keeps zeros out of the storage. */
  lemma StoredNoZeros(m: Entries, n: int, i: int, v: real)
    requires NoZeros(m, n) && 0 <= i < n
    ensures NoZeros(Stored(m, i, v), n)
  {
  }

  /** Without stored zeros, the number of stored entries is the number of nonzero indices. */
  lemma NnzCountsNonzeros(m: Entries, n: int)
    requires NoZeros(m, n)
    ensures |m| == |set i | 0 <= i < n && At(m, i) != 0.0|
  {
    assert (set i | 0 <= i < n && At(m, i) != 0.0) == m.Keys;
  }

  class SparseVector {
    const n: int
    var entries: Entries

    ghost predicate Valid()
      reads this
    {
      NoZeros(entries, n)
    }

    /** `SparseVector(length)`: a vector of the given length whose entries are all zero. */
    constructor (length: int)
      ensures n == length && entries == map[] && Valid()
    {
      n := length;
      entries := map[];
    }

    /** `put(i, value)`: indices outside `[0, n)` fail; a zero value removes the entry. */
    method Put(i: int, value: real) returns (out: Outcome)
      requires Valid()
      modifies this
      ensures Valid()
      ensures out.Fail? <==> !(0 <= i < n)
      ensures out.Fail? ==> out.error == IllegalIndex && entries == old(entries)
      ensures out.Pass? ==> entries == Stored(old(entries), i, value)
      ensures out.Pass? ==> forall j :: At(entries, j) == if j == i then value else old(At(entries, j))
    {
      if i < 0 || i >= n {
        return Fail(IllegalIndex);
      }
      StoredNoZeros(entries, n, i, value);
      entries := Stored(entries, i, value);
      forall j
        ensures At(entries, j) == if j == i then value else old(At(entries, j))
      {
        AtStored(old(entries), i, value, j);
      }
      out := Pass;
    }

    /** `get(i)`: indices outside `[0, n)` fail; unstored indices read zero. */
    function Get(i: int): (r: Result<real>)
      reads this
      ensures r.Ok? <==> 0 <= i < n
      ensures r.Err? ==> r.error == IllegalIndex
      ensures r.Ok? && r.value != 0.0 ==> i in entries
    {
      if 0 <= i < n then Ok(At(entries, i)) else Err(IllegalIndex)
    }

    /** `nnz()`: the number of nonzero entries. */
    function Nnz(): (r: nat)
      requires Valid()
      reads this
      ensures r == |set i | 0 <= i < n && At(entries, i) != 0.0|
    {
      NnzCountsNonzeros(entries, n);
      |entries|
    }

    /** `size()`: the length, above every stored index. */
    function Size(): (r: int)
      reads this
      ensures Valid() ==> forall i :: i in entries ==> 0 <= i < r
    {
      n
    }

    /** `nzindices()`: exactly the indices with a nonzero value. */
    function NzIndices(): (r: set<int>)
      requires Valid()
      reads this
      ensures forall i :: i in r <==> 0 <= i < n && At(entries, i) != 0.0
    {
      entries.Keys
    }

    /** A window that runs backwards is empty: the scan over the stored entries keeps none. */
    method ScanEntries(from: int, to: int) returns (res: SparseVector)
      requires to < from
      ensures fresh(res) && res.n == to - from && res.entries == map[] && res.Valid()
    {
      res := new SparseVector(to - from);
      var todo := entries.Keys;
      while todo != {}
        invariant res.entries == map[]
        invariant res.Valid()
        decreases todo
      {
        var i := Pick(todo);
        if i >= from && i < to {
          assert false;
        }
        todo := todo - {i};
      }
    }

    /**
     * `subVector(from, to)`: a fresh vector of length `to - from` whose entry `j` is entry
     * `from + j`. Reading an index outside `[0, n)` fails. The branch that walks only the
     * stored indices is taken only when `to < from`, where no index lies in the window.
     */
    method SubVector(from: int, to: int) returns (r: Result<SparseVector>)
      requires Valid()
      ensures r.Err? <==> from < to && (from < 0 || to > n)
      ensures r.Err? ==> r.error == IllegalIndex
      ensures r.Ok? ==> fresh(r.value) && r.value.n == to - from && r.value.Valid()
      ensures r.Ok? ==> forall j :: At(r.value.entries, j) == WindowAt(entries, from, to, j)
    {
      if |entries| < from - to {
        var res := ScanEntries(from, to);
        return Ok(res);
      }
      var res := new SparseVector(to - from);
      var i := from;
      while i < to
        invariant from <= i && (from < to ==> i <= to) && (to <= from ==> i == from)
        invariant i == from || (0 <= from && i <= n)
        invariant fresh(res) && res.n == to - from && res.Valid()
        invariant forall j :: At(res.entries, j) == WindowAt(entries, from, i, j)
      {
        var v := Get(i);
        if v.Err? {
          return Err(v.error);
        }
        var _ := res.Put(i - from, v.value);
        i := i + 1;
      }
      assert from < to ==> i == to;
      r := Ok(res);
    }

    /** `dot(b)`: lengths must agree; the sum runs over the side with fewer stored entries. */
    method Dot(b: SparseVector) returns (r: Result<real>)
      requires Valid() && b.Valid()
      ensures r.Err? <==> n != b.n
      ensures r.Err? ==> r.error == LengthsDisagreeOf(n, b.n)
      ensures r.Ok? ==> r.value == DenseDot(entries, b.entries, n)
    {
      if n != b.n {
        return Err(LengthsDisagreeOf(n, b.n));
      }
      var sum;
      if |entries| <= |b.entries| {
        sum := SumCommon(entries, b.entries);
        PairSumIsDenseDot(entries, b.entries, entries.Keys, n);
      } else {
        sum := SumCommon(b.entries, entries);
        PairSumIsDenseDot(b.entries, entries, b.entries.Keys, n);
        DenseDotSymmetric(entries, b.entries, n);
      }
      r := Ok(sum);
    }

    /** `dot(double[] b)`: lengths must agree; the sum runs over the stored entries. */
    method DotArray(b: seq<real>) returns (r: Result<real>)
      requires Valid()
      ensures r.Err? <==> n != |b|
      ensures r.Err? ==> r.error == LengthsDisagreeOf(n, |b|)
      ensures r.Ok? ==> r.value == DenseDot(entries, Dense(b), n)
    {
      if n != |b| {
        return Err(LengthsDisagreeOf(n, |b|));
      }
      var sum := 0.0;
      var todo := entries.Keys;
      while todo != {}
        invariant todo <= entries.Keys
        invariant sum == PairSum(entries, Dense(b), entries.Keys - todo)
        decreases todo
      {
        var i := Pick(todo);
        PairSumRemove(entries, Dense(b), entries.Keys - (todo - {i}), i);
        assert entries.Keys - (todo - {i}) - {i} == entries.Keys - todo;
        sum := sum + entries[i] * b[i];
        todo := todo - {i};
      }
      assert entries.Keys - todo == entries.Keys;
      PairSumIsDenseDot(entries, Dense(b), entries.Keys, n);
      r := Ok(sum);
    }

    /** `scale(alpha)`: a fresh vector of the same length with every entry multiplied. */
    method Scale(alpha: real) returns (c: SparseVector)
      requires Valid()
      ensures fresh(c) && c.n == n && c.Valid()
      ensures forall j :: At(c.entries, j) == alpha * At(entries, j)
    {
      c := new SparseVector(n);
      var todo := entries.Keys;
      while todo != {}
        invariant todo <= entries.Keys
        invariant fresh(c) && c.n == n && c.Valid()
        invariant forall j :: At(c.entries, j) == if j in todo then 0.0 else alpha * At(entries, j)
        decreases todo
      {
        var i := Pick(todo);
        var _ := c.Put(i, alpha * entries[i]);
        todo := todo - {i};
      }
    }

    /** `plus(b)`: lengths must agree; a fresh vector holding the entrywise sum. */
    method Plus(b: SparseVector) returns (r: Result<SparseVector>)
      requires Valid() && b.Valid()
      ensures r.Err? <==> n != b.n
      ensures r.Err? ==> r.error == LengthsDisagree
      ensures r.Ok? ==> fresh(r.value) && r.value.n == n && r.value.Valid()
      ensures r.Ok? ==> forall j :: At(r.value.entries, j) == At(entries, j) + At(b.entries, j)
    {
      if n != b.n {
        return Err(LengthsDisagree);
      }
      var c := Copy();
      var todo := b.entries.Keys;
      while todo != {}
        invariant todo <= b.entries.Keys
        invariant fresh(c) && c.n == n && c.Valid()
        invariant forall j :: At(c.entries, j) == At(entries, j) + (if j in todo then 0.0 else At(b.entries, j))
        decreases todo
      {
        var i := Pick(todo);
        var _ := c.Put(i, b.entries[i] + At(c.entries, i));
        todo := todo - {i};
      }
      r := Ok(c);
    }

    /** `minus(b)`: lengths must agree; a fresh vector holding the entrywise difference. */
    method Minus(b: SparseVector) returns (r: Result<SparseVector>)
      requires Valid() && b.Valid()
      ensures r.Err? <==> n != b.n
      ensures r.Err? ==> r.error == LengthsDisagree
      ensures r.Ok? ==> fresh(r.value) && r.value.n == n && r.value.Valid()
      ensures r.Ok? ==> forall j :: At(r.value.entries, j) == At(entries, j) - At(b.entries, j)
    {
      if n != b.n {
        return Err(LengthsDisagree);
      }
      var c := Copy();
      var todo := b.entries.Keys;
      while todo != {}
        invariant todo <= b.entries.Keys
        invariant fresh(c) && c.n == n && c.Valid()
        invariant forall j :: At(c.entries, j) == At(entries, j) - (if j in todo then 0.0 else At(b.entries, j))
        decreases todo
      {
        var i := Pick(todo);
        var _ := c.Put(i, At(c.entries, i) - b.entries[i]);
        todo := todo - {i};
      }
      r := Ok(c);
    }

    /** `minus(double[] b)`: lengths must agree; a fresh vector holding `a[i] - b[i]`. */
    method MinusArray(b: seq<real>) returns (r: Result<SparseVector>)
      requires Valid()
      ensures r.Err? <==> n != |b|
      ensures r.Err? ==> r.error == LengthsDisagree
      ensures r.Ok? ==> fresh(r.value) && r.value.n == n && r.value.Valid()
      ensures r.Ok? ==> forall j :: 0 <= j < n ==> At(r.value.entries, j) == At(entries, j) - b[j]
    {
      if n != |b| {
        return Err(LengthsDisagree);
      }
      var c := Copy();
      var i := 0;
      while i < |b|
        invariant 0 <= i <= |b|
        invariant fresh(c) && c.n == n && c.Valid()
        invariant forall j :: 0 <= j < n ==> At(c.entries, j) == At(entries, j) - (if j < i then b[j] else 0.0)
      {
        var _ := c.Put(i, At(c.entries, i) - b[i]);
        i := i + 1;
      }
      r := Ok(c);
    }

    /** The first loop of `plus` and `minus`: a fresh vector with the same entries. */
    method Copy() returns (c: SparseVector)
      requires Valid()
      ensures fresh(c) && c.n == n && c.Valid() && c.entries == entries
    {
      c := new SparseVector(n);
      var todo := entries.Keys;
      while todo != {}
        invariant todo <= entries.Keys
        invariant fresh(c) && c.n == n && c.Valid()
        invariant c.entries == map j | j in entries && j !in todo :: entries[j]
        decreases todo
      {
        var i := Pick(todo);
        var _ := c.Put(i, entries[i]);
        todo := todo - {i};
      }
      assert c.entries == entries;
    }
  }

  /** The loop of `dot`: the products at the indices stored in both, walking `outer`. */
  method SumCommon(outer: Entries, inner: Entries) returns (sum: real)
    ensures sum == PairSum(outer, inner, outer.Keys)
  {
    sum := 0.0;
    var todo := outer.Keys;
    while todo != {}
      invariant todo <= outer.Keys
      invariant sum == PairSum(outer, inner, outer.Keys - todo)
      decreases todo
    {
      var i := Pick(todo);
      PairSumRemove(outer, inner, outer.Keys - (todo - {i}), i);
      assert outer.Keys - (todo - {i}) - {i} == outer.Keys - todo;
      if i in inner {
        sum := sum + outer[i] * inner[i];
      }
      todo := todo - {i};
    }
    assert outer.Keys - todo == outer.Keys;
  }

  /** The dense dot product does not depend on the order of its arguments. */
  lemma {:induction false} DenseDotSymmetric(a: Entries, b: Entries, n: int)
    ensures DenseDot(a, b, n) == DenseDot(b, a, n)
    decreases if n < 0 then 0 else n
  {
    if n > 0 {
      DenseDotSymmetric(a, b, n - 1);
    }
  }

  /** The cells of row `row` whose column is in `keys`. */
  function RowCells(row: int, keys: set<int>): set<(int, int)> {
    set j | j in keys :: (row, j)
  }

  lemma {:induction false} RowCellsSize(row: int, keys: set<int>)
    ensures |RowCells(row, keys)| == |keys|
    decreases keys
  {
    if keys != {} {
      var j := Choose(keys);
      RowCellsSize(row, keys - {j});
      assert RowCells(row, keys) == RowCells(row, keys - {j}) + {(row, j)};
    }
  }

  /** The stored entries of rows `0 .. k - 1`, counted row by row. */
  function NnzOf(es: seq<Entries>, k: nat): nat
    requires k <= |es|
  {
    if k == 0 then 0 else NnzOf(es, k - 1) + |es[k - 1]|
  }

  /** The cells `(i, j)` of rows `0 .. k - 1` holding a stored entry. */
  function CellsOf(es: seq<Entries>, k: nat): set<(int, int)>
    requires k <= |es|
  {
    set i, j | 0 <= i < k && j in es[i] :: (i, j)
  }

  lemma CellsSplit(es: seq<Entries>, k: nat)
    requires 0 < k <= |es|
    ensures CellsOf(es, k) == CellsOf(es, k - 1) + RowCells(k - 1, es[k - 1].Keys)
    ensures CellsOf(es, k - 1) !! RowCells(k - 1, es[k - 1].Keys)
  {
    var last := RowCells(k - 1, es[k - 1].Keys);
    forall p | p in CellsOf(es, k)
      ensures p in CellsOf(es, k - 1) + last
    {
      if p.0 == k - 1 {
        assert p == (k - 1, p.1);
      }
    }
  }

  /** The row-by-row count is the number of stored cells. */
  lemma {:induction false} NnzOfCountsCells(es: seq<Entries>, k: nat)
    requires k <= |es|
    ensures NnzOf(es, k) == |CellsOf(es, k)|
  {
    if k > 0 {
      NnzOfCountsCells(es, k - 1);
      RowCellsSize(k - 1, es[k - 1].Keys);
      CellsSplit(es, k);
    }
  }

  /** Entry `j` of `x` times the first `k` rows: the sum of `x[i] * es[i][j]` for `i < k`. */
  function ColumnSum(x: Entries, es: seq<Entries>, j: int, k: nat): real
    requires k <= |es|
  {
    if k == 0 then 0.0 else ColumnSum(x, es, j, k - 1) + At(x, k - 1) * At(es[k - 1], j)
  }

  class SparseMatrix {
    const n: int
    const rows: array<SparseVector>

    ghost function Vectors(): set<SparseVector>
      reads rows
    {
      set k | 0 <= k < rows.Length :: rows[k]
    }

    /** The rows' entries, as values. */
    ghost function Rows(): (es: seq<Entries>)
      reads rows, Vectors()
      ensures |es| == rows.Length
    {
      seq(rows.Length, k requires 0 <= k < rows.Length reads rows, Vectors() => rows[k].entries)
    }

    /** Every row has the matrix width and no stored zeros. */
    ghost predicate Valid()
      reads rows, Vectors()
    {
      forall k :: 0 <= k < rows.Length ==> rows[k].n == n && rows[k].Valid()
    }

    /** `SparseMatrix(width, height)`: `height` distinct zero rows of length `width`. */
    constructor (width: int, height: nat)
      ensures n == width && rows.Length == height && fresh(rows) && Valid()
      ensures forall k :: 0 <= k < height ==> fresh(rows[k]) && rows[k].entries == map[]
      ensures forall k, l :: 0 <= k < l < height ==> rows[k] != rows[l]
    {
      var blank := new SparseVector(width);
      var arr := new SparseVector[height](_ => blank);
      var k := 0;
      while k < height
        invariant 0 <= k <= height
        invariant forall j :: 0 <= j < height ==> arr[j].n == width && arr[j].entries == map[]
        invariant forall j :: 0 <= j < height ==> fresh(arr[j])
        invariant forall j, l :: 0 <= j < l < k ==> arr[j] != arr[l]
        invariant forall j, l :: 0 <= j < k <= l < height ==> arr[j] != arr[l]
      {
        var v := new SparseVector(width);
        arr[k] := v;
        k := k + 1;
      }
      n := width;
      rows := arr;
    }

    /** `SparseMatrix(arr)`: the matrix over the given array of rows, not a copy of it. */
    constructor Of(arr: array<SparseVector>)
      requires arr.Length > 0
      ensures n == arr[0].n && rows == arr
    {
      n := arr[0].n;
      rows := arr;
    }

    /** `SparseMatrix(arr)` reads `arr[0]`, so an empty array fails. */
    static method FromRows(arr: array<SparseVector>) returns (r: Result<SparseMatrix>)
      ensures r.Err? <==> arr.Length == 0
      ensures r.Err? ==> r.error == IndexOutOfBounds
      ensures r.Ok? ==> fresh(r.value) && r.value.rows == arr && r.value.n == arr[0].n
    {
      if arr.Length == 0 {
        return Err(IndexOutOfBounds);
      }
      var m := new SparseMatrix.Of(arr);
      r := Ok(m);
    }

    /**
     * `getSubMatrix(s, e)`: a matrix over a fresh array holding the same row objects
     * `s .. e - 1`, so writes through either are visible in both.
     */
    method GetSubMatrix(s: int, e: int) returns (r: Result<SparseMatrix>)
      requires e <= rows.Length
      ensures r.Err? <==> !(0 <= s < e)
      ensures r.Err? ==> r.error == if s > e then IllegalArgument else IndexOutOfBounds
      ensures r.Ok? ==> fresh(r.value) && fresh(r.value.rows) && r.value.n == rows[s].n
      ensures r.Ok? ==> r.value.rows[..] == rows[s..e]
      ensures r.Ok? && Valid() ==> r.value.Valid()
    {
      if s > e {
        return Err(IllegalArgument);
      }
      if s < 0 {
        return Err(IndexOutOfBounds);
      }
      var arr := new SparseVector[e - s](k requires 0 <= k < e - s reads rows => rows[s + k]);
      assert arr[..] == rows[s..e];
      r := FromRows(arr);
    }

    /** `getSubColMatrix(s, e)`: the same number of rows, each replaced by `subVector(s, e)`. */
    method GetSubColMatrix(s: int, e: int) returns (r: Result<SparseMatrix>)
      requires Valid()
      ensures r.Err? <==> rows.Length > 0 && s < e && (s < 0 || e > n)
      ensures r.Err? ==> r.error == IllegalIndex
      ensures r.Ok? ==> fresh(r.value) && fresh(r.value.rows) && r.value.Valid()
      ensures r.Ok? ==> r.value.n == e - s && r.value.rows.Length == rows.Length
      ensures r.Ok? ==> forall k, j :: 0 <= k < rows.Length ==> At(r.value.rows[k].entries, j) == WindowAt(Rows()[k], s, e, j)
    {
      ghost var es := Rows();
      var res := new SparseMatrix(e - s, rows.Length);
      var i := 0;
      while i < rows.Length
        invariant 0 <= i <= rows.Length
        invariant fresh(res) && fresh(res.rows) && res.n == e - s && res.rows.Length == rows.Length
        invariant res.Valid()
        invariant forall k, j :: 0 <= k < i ==> At(res.rows[k].entries, j) == WindowAt(es[k], s, e, j)
        invariant i > 0 ==> !(s < e && (s < 0 || e > n))
      {
        var v := rows[i].SubVector(s, e);
        if v.Err? {
          return Err(v.error);
        }
        res.rows[i] := v.value;
        i := i + 1;
      }
      r := Ok(res);
    }

    /** `subVector(row, from, to)`: the window of one row; a row outside the array fails. */
    method SubVector(row: int, from: int, to: int) returns (r: Result<SparseVector>)
      requires Valid()
      ensures !(0 <= row < rows.Length) ==> r == Err(IndexOutOfBounds)
      ensures 0 <= row < rows.Length ==> (r.Err? <==> from < to && (from < 0 || to > n))
      ensures r.Ok? ==> fresh(r.value) && forall j :: At(r.value.entries, j) == WindowAt(rows[row].entries, from, to, j)
    {
      if row < 0 || row >= rows.Length {
        return Err(IndexOutOfBounds);
      }
      r := rows[row].SubVector(from, to);
    }

    /** `getRow(row)`: the row object itself, which the caller then shares. */
    function GetRow(row: int): (r: Result<SparseVector>)
      reads rows
      ensures r.Ok? <==> 0 <= row < rows.Length
      ensures r.Ok? ==> r.value == rows[row] && r.value in Vectors()
      ensures r.Err? ==> r.error == IndexOutOfBounds
    {
      if 0 <= row < rows.Length then Ok(rows[row]) else Err(IndexOutOfBounds)
    }

    function GetRows(): (r: nat)
      reads rows, Vectors()
      ensures r == |Rows()|
    {
      rows.Length
    }

    /** `getCols()`: the width, which every row of a valid matrix has as its size. */
    function GetCols(): (r: int)
      reads rows, Vectors()
      ensures Valid() ==> forall k :: 0 <= k < rows.Length ==> rows[k].Size() == r
    {
      n
    }

    /** `get(i, j)`: both indices are checked; unstored cells read zero. */
    function Get(i: int, j: int): (r: Result<real>)
      reads rows, Vectors()
      ensures r.Ok? <==> 0 <= i < rows.Length && 0 <= j < n
      ensures r.Err? ==> r.error == IllegalIndex
    {
      if 0 <= i < rows.Length && 0 <= j < n then Ok(At(rows[i].entries, j)) else Err(IllegalIndex)
    }

    /** `put(i, j, value)`: both indices are checked; only row `i` changes. */
    method Put(i: int, j: int, value: real) returns (out: Outcome)
      requires Valid()
      modifies if 0 <= i < rows.Length then {rows[i]} else {}
      ensures Valid()
      ensures out.Fail? <==> !(0 <= i < rows.Length && 0 <= j < n)
      ensures out.Fail? ==> out.error == IllegalIndex
      ensures out.Pass? ==> rows[i].entries == Stored(old(rows[i].entries), j, value)
      ensures out.Pass? ==> Get(i, j) == Ok(value)
    {
      if i < 0 || i >= rows.Length || j < 0 || j >= n {
        return Fail(IllegalIndex);
      }
      out := rows[i].Put(j, value);
    }

    /** `getRowNZ(i)`: the nonzero column indices of row `i`. */
    function GetRowNZ(i: int): (r: Result<set<int>>)
      requires Valid()
      reads rows, Vectors()
      ensures r.Ok? <==> 0 <= i < rows.Length
      ensures r.Ok? ==> forall j :: j in r.value <==> Get(i, j).Ok? && Get(i, j).value != 0.0
    {
      if 0 <= i < rows.Length then Ok(rows[i].NzIndices()) else Err(IllegalIndex)
    }

    /** `nnz()`: the number of stored cells, that is of nonzero cells. */
    method Nnz() returns (sum: nat)
      requires Valid()
      ensures sum == |CellsOf(Rows(), rows.Length)|
      ensures forall i, j :: (i, j) in CellsOf(Rows(), rows.Length) <==> Get(i, j).Ok? && Get(i, j).value != 0.0
    {
      ghost var es := Rows();
      sum := 0;
      var i := 0;
      while i < rows.Length
        invariant 0 <= i <= rows.Length
        invariant sum == NnzOf(es, i)
      {
        assert es[i] == rows[i].entries;
        sum := sum + rows[i].Nnz();
        i := i + 1;
      }
      NnzOfCountsCells(es, rows.Length);
    }

    /** `dot(x)`: the width must match; entry `i` of the fresh result is row `i` dot `x`. */
    method Dot(x: SparseVector) returns (r: Result<SparseVector>)
      requires Valid() && x.Valid()
      ensures r.Err? <==> n != x.n
      ensures r.Err? ==> r.error == DimensionsDisagree
      ensures r.Ok? ==> fresh(r.value) && r.value.n == rows.Length && r.value.Valid()
      ensures r.Ok? ==> forall i :: 0 <= i < rows.Length ==> At(r.value.entries, i) == DenseDot(rows[i].entries, x.entries, n)
    {
      if n != x.n {
        return Err(DimensionsDisagree);
      }
      var b := new SparseVector(rows.Length);
      var i := 0;
      while i < rows.Length
        invariant 0 <= i <= rows.Length
        invariant fresh(b) && b.n == rows.Length && b.Valid()
        invariant forall k :: 0 <= k < rows.Length ==> At(b.entries, k) == if k < i then DenseDot(rows[k].entries, x.entries, n) else 0.0
      {
        var d := rows[i].Dot(x);
        var _ := b.Put(i, d.value);
        i := i + 1;
      }
      r := Ok(b);
    }

    /** `dot(double[] x)`: the width must match; a fresh array of the row products. */
    method DotArray(x: seq<real>) returns (r: Result<array<real>>)
      requires Valid()
      ensures r.Err? <==> n != |x|
      ensures r.Err? ==> r.error == DimensionsDisagree
      ensures r.Ok? ==> fresh(r.value) && r.value.Length == rows.Length
      ensures r.Ok? ==> forall i :: 0 <= i < rows.Length ==> r.value[i] == DenseDot(rows[i].entries, Dense(x), n)
    {
      if n != |x| {
        return Err(DimensionsDisagree);
      }
      var b := new real[rows.Length];
      var i := 0;
      while i < rows.Length
        invariant 0 <= i <= rows.Length
        invariant forall k :: 0 <= k < i ==> b[k] == DenseDot(rows[k].entries, Dense(x), n)
      {
        var d := rows[i].DotArray(x);
        b[i] := d.value;
        i := i + 1;
      }
      r := Ok(b);
    }

    /** `columnDot(x)`: the height must match; the fresh result is the product `x A`. */
    method ColumnDot(x: SparseVector) returns (r: Result<SparseVector>)
      requires Valid() && x.Valid()
      ensures r.Err? <==> x.n != rows.Length
      ensures r.Err? ==> r.error == Runtime("dimensions disagree")
      ensures r.Ok? ==> fresh(r.value) && r.value.n == n && r.value.Valid()
      ensures r.Ok? ==> forall j :: At(r.value.entries, j) == ColumnSum(x.entries, Rows(), j, rows.Length)
    {
      if x.n != rows.Length {
        return Err(Runtime("dimensions disagree"));
      }
      ghost var es := Rows();
      var res := new SparseVector(n);
      var i := 0;
      while i < x.n
        invariant 0 <= i <= x.n
        invariant fresh(res) && res.n == n && res.Valid()
        invariant forall j :: At(res.entries, j) == ColumnSum(x.entries, es, j, i)
      {
        var xi := x.Get(i);
        var curr := rows[i].Scale(xi.value);
        var prev := res;
        var sum := res.Plus(curr);
        res := sum.value;
        forall j
          ensures At(res.entries, j) == ColumnSum(x.entries, es, j, i + 1)
        {
          assert At(res.entries, j) == At(prev.entries, j) + At(curr.entries, j);
          assert At(curr.entries, j) == At(x.entries, i) * At(es[i], j);
        }
        i := i + 1;
      }
      assert es == Rows();
      r := Ok(res);
    }

    /** `plus(B)`: both dimensions must match; fresh rows holding the entrywise sums. */
    method Plus(b: SparseMatrix) returns (r: Result<SparseMatrix>)
      requires Valid() && b.Valid()
      ensures r.Err? <==> n != b.n || rows.Length != b.rows.Length
      ensures r.Err? ==> r.error == DimensionsDisagree
      ensures r.Ok? ==> fresh(r.value) && fresh(r.value.rows) && r.value.Valid()
      ensures r.Ok? ==> r.value.n == n && r.value.rows.Length == rows.Length
      ensures r.Ok? ==> forall i, j :: 0 <= i < rows.Length ==> At(r.value.rows[i].entries, j) == At(rows[i].entries, j) + At(b.rows[i].entries, j)
    {
      if n != b.n || rows.Length != b.rows.Length {
        return Err(DimensionsDisagree);
      }
      var c := new SparseMatrix(n, rows.Length);
      var i := 0;
      while i < rows.Length
        invariant 0 <= i <= rows.Length
        invariant fresh(c) && fresh(c.rows) && c.n == n && c.rows.Length == rows.Length && c.Valid()
        invariant forall k, j :: 0 <= k < i ==> At(c.rows[k].entries, j) == At(rows[k].entries, j) + At(b.rows[k].entries, j)
      {
        var s := rows[i].Plus(b.rows[i]);
        c.rows[i] := s.value;
        i := i + 1;
      }
      r := Ok(c);
    }

    /** `shuffleRows()`: Fisher-Yates swaps with a chosen partner, a permutation of the rows. */
    method ShuffleRows()
      modifies rows
      ensures multiset(rows[..]) == multiset(old(rows[..]))
      ensures old(Valid()) ==> Valid()
    {
      var i := rows.Length - 1;
      while i > 0
        invariant -1 <= i < rows.Length
        invariant multiset(rows[..]) == multiset(old(rows[..]))
      {
        var index :| 0 <= index <= i;
        rows[index], rows[i] := rows[i], rows[index];
        i := i - 1;
      }
      SameElements(rows[..], old(rows[..]));
      if old(Valid()) {
        forall k | 0 <= k < rows.Length
          ensures rows[k].n == n && rows[k].Valid()
        {
          assert rows[k] in rows[..];
          var l :| 0 <= l < rows.Length && old(rows[l]) == rows[k];
        }
      }
    }
  }

  /** Sequences with the same multiset of elements hold the same elements. */
  lemma SameElements<T>(a: seq<T>, b: seq<T>)
    requires multiset(a) == multiset(b)
    ensures forall x :: x in a <==> x in b
  {
    forall x
      ensures x in a <==> x in b
    {
      assert x in a <==> x in multiset(a);
      assert x in b <==> x in multiset(b);
    }
  }
}
