/** The helpers of htmhelper.hpp: turning a boolean vector into its sparse active-index
    list and back, pooling a boolean vector into per-category means, the size of a layer
    from its dimension list, and the loops that decode the sequence-memory engines'
    per-cell output into a per-column boolean vector.

    A boolean xarray of any shape is modelled as its flat row-major sequence of cells;
    a float xarray as a sequence of reals. */
module HtmHelper {

  // ---------------------------------------------------------------------------
  // Counting
  // ---------------------------------------------------------------------------

  /** The number of true entries of `s`. */
  function CountTrue(s: seq<bool>): (n: nat)
    ensures n <= |s|
  {
    if s == [] then 0 else CountTrue(s[..|s| - 1]) + (if s[|s| - 1] then 1 else 0)
  }

  lemma {:induction false} CountTrueConcat(a: seq<bool>, b: seq<bool>)
    ensures CountTrue(a + b) == CountTrue(a) + CountTrue(b)
  {
    if b != [] {
      var b' := b[..|b| - 1];
      assert (a + b)[..|a + b| - 1] == a + b';
      CountTrueConcat(a, b');
    } else {
      assert a + b == a;
    }
  }

  /** A vector whose entries all equal `b` has either all or none of its entries true. */
  lemma {:induction false} CountTrueConstant(s: seq<bool>, b: bool)
    requires forall i :: 0 <= i < |s| ==> s[i] == b
    ensures CountTrue(s) == if b then |s| else 0
  {
    if s != [] {
      CountTrueConstant(s[..|s| - 1], b);
    }
  }

  // ---------------------------------------------------------------------------
  // sparsify
  // ---------------------------------------------------------------------------

  /** The positions of `t` that hold true, in the order a left-to-right scan meets them. */
  function TrueIndices(t: seq<bool>): seq<nat>
  {
    if t == [] then [] else TrueIndices(t[..|t| - 1]) + (if t[|t| - 1] then [|t| - 1] else [])
  }

  ghost predicate StrictlyIncreasing(v: seq<nat>)
  {
    forall i, j :: 0 <= i < j < |v| ==> v[i] < v[j]
  }

  lemma {:induction false} TrueIndicesAscending(t: seq<bool>)
    ensures StrictlyIncreasing(TrueIndices(t))
    ensures forall k :: 0 <= k < |TrueIndices(t)| ==> TrueIndices(t)[k] < |t|
  {
    if t != [] {
      TrueIndicesAscending(t[..|t| - 1]);
    }
  }

  lemma {:induction false} TrueIndicesMembers(t: seq<bool>)
    ensures forall i :: 0 <= i < |t| ==> (t[i] <==> i in TrueIndices(t))
  {
    if t != [] {
      var p := t[..|t| - 1];
      TrueIndicesMembers(p);
      TrueIndicesAscending(p);
      assert forall i :: 0 <= i < |p| ==> t[i] == p[i];
    }
  }

  lemma {:induction false} TrueIndicesCount(t: seq<bool>)
    ensures |TrueIndices(t)| == CountTrue(t)
  {
    if t != [] {
      TrueIndicesCount(t[..|t| - 1]);
    }
  }

  /** The sparse form of `t` is ascending, lies inside `t`, holds exactly the true
      positions, and has one entry per true entry. */
  lemma TrueIndicesCorrect(t: seq<bool>)
    ensures StrictlyIncreasing(TrueIndices(t))
    ensures forall k :: 0 <= k < |TrueIndices(t)| ==> TrueIndices(t)[k] < |t|
    ensures forall i :: 0 <= i < |t| ==> (t[i] <==> i in TrueIndices(t))
    ensures |TrueIndices(t)| == CountTrue(t)
  {
    TrueIndicesAscending(t);
    TrueIndicesMembers(t);
    TrueIndicesCount(t);
  }

  /** Sparsify, as htmhelper.hpp does it: scan `t` and push every true position. */
  method Sparsify(t: seq<bool>) returns (v: seq<nat>)
    ensures v == TrueIndices(t)
    ensures StrictlyIncreasing(v)
    ensures forall k :: 0 <= k < |v| ==> v[k] < |t|
    ensures forall i :: 0 <= i < |t| ==> (t[i] <==> i in v)
    ensures |v| == CountTrue(t)
  {
    v := [];
    var i := 0;
    while i < |t|
      invariant 0 <= i <= |t|
      invariant v == TrueIndices(t[..i])
    {
      assert t[..i + 1][..i] == t[..i];
      if t[i] {
        v := v + [i];
      }
      i := i + 1;
    }
    assert t[..|t|] == t;
    TrueIndicesCorrect(t);
  }

  /** The boolean vector of length `n` that is true exactly at the positions listed in `v`. */
  function Densify(v: seq<nat>, n: nat): (t: seq<bool>)
    ensures |t| == n
  {
    seq(n, i => i in v)
  }

  /** Densifying the sparse form of a vector gives the vector back. */
  lemma SparsifyThenDensify(t: seq<bool>)
    ensures Densify(TrueIndices(t), |t|) == t
  {
    TrueIndicesCorrect(t);
  }

  /** Two ascending lists with the same members are the same list. */
  lemma {:induction false} AscendingUnique(a: seq<nat>, b: seq<nat>)
    requires StrictlyIncreasing(a) && StrictlyIncreasing(b)
    requires forall x :: x in a <==> x in b
    ensures a == b
    decreases |a| + |b|
  {
    if a != [] {
      assert a[0] in b;
    }
    if b != [] {
      assert b[0] in a;
    }
    if a != [] && b != [] {
      assert a[0] == b[0];
      forall x
        ensures x in a[1..] <==> x in b[1..]
      {
        if x in a[1..] {
          var i :| 0 <= i < |a[1..]| && a[1..][i] == x;
          assert a[i + 1] == x && x != b[0];
          assert x in a;
          assert x in b;
          var j :| 0 <= j < |b| && b[j] == x;
          assert b[1..][j - 1] == x;
        }
        if x in b[1..] {
          var i :| 0 <= i < |b[1..]| && b[1..][i] == x;
          assert b[i + 1] == x && x != a[0];
          assert x in b;
          assert x in a;
          var j :| 0 <= j < |a| && a[j] == x;
          assert a[1..][j - 1] == x;
        }
      }
      AscendingUnique(a[1..], b[1..]);
      assert a == [a[0]] + a[1..] && b == [b[0]] + b[1..];
    }
  }

  /** An ascending list of positions below `n`, turned into a vector and sparsified,
      comes back unchanged: an all-false vector with a chosen set S set true gives exactly
      S in ascending order. */
  lemma DensifyThenSparsify(v: seq<nat>, n: nat)
    requires StrictlyIncreasing(v)
    requires forall k :: 0 <= k < |v| ==> v[k] < n
    ensures TrueIndices(Densify(v, n)) == v
  {
    var t := Densify(v, n);
    TrueIndicesCorrect(t);
    forall x
      ensures x in TrueIndices(t) <==> x in v
    {
      if x in TrueIndices(t) {
        var k :| 0 <= k < |TrueIndices(t)| && TrueIndices(t)[k] == x;
      }
    }
    AscendingUnique(TrueIndices(t), v);
  }

  // ---------------------------------------------------------------------------
  // Arithmetic on bucket and column indices
  // ---------------------------------------------------------------------------

  lemma MulMonotone(a: nat, b: nat, c: nat)
    requires a <= b
    ensures a * c <= b * c
  {
  }

  /** `x / d == q` exactly when `x` lies in the `q`-th block of `d` consecutive positions. */
  lemma DivBlock(x: nat, d: nat, q: nat)
    requires 0 < d
    ensures x / d == q <==> q * d <= x < q * d + d
  {
    var r := x / d;
    assert r * d <= x < r * d + d;
    if r < q {
      MulMonotone(r + 1, q, d);
    } else if q < r {
      MulMonotone(q + 1, r, d);
    }
  }

  /** A position below `n * d` lies in one of the first `n` blocks. */
  lemma DivBelow(x: nat, d: nat, n: nat)
    requires 0 < d && x < n * d
    ensures x / d < n
  {
    DivBlock(x, d, x / d);
    if n <= x / d {
      MulMonotone(n, x / d, d);
    }
  }

  /** The last of `n` blocks of length `d` ends where the `n` blocks end. */
  lemma LastBlockEnd(n: nat, d: nat)
    requires 0 < n
    ensures (n - 1) * d + d == n * d
  {
  }

  lemma AddShares(a: nat, b: nat, len: nat)
    requires 0 < len
    ensures a as real / len as real + b as real / len as real == (a + b) as real / len as real
  {
  }

  lemma ShareBounds(c: nat, len: nat)
    requires 0 < len && c <= len
    ensures 0.0 <= c as real / len as real <= 1.0
  {
  }

  /** The first position of block `q` of `n` blocks of length `d` lies inside them. */
  lemma BlockInside(q: nat, d: nat, n: nat)
    requires q < n
    ensures q * d + d <= n * d
  {
    MulMonotone(q + 1, n, d);
  }

  // ---------------------------------------------------------------------------
  // categroize
  // ---------------------------------------------------------------------------

  function Min(a: nat, b: nat): nat
  {
    if a <= b then a else b
  }

  /** The share of true entries in a bucket of `len` entries. */
  function Mean(bucket: seq<bool>, len: nat): real
    requires 0 < len
  {
    CountTrue(bucket) as real / len as real
  }

  /** `s` cut into `n` contiguous buckets of `len` entries each, every bucket replaced by
      its mean. */
  function Pooled(n: nat, len: nat, s: seq<bool>): (r: seq<real>)
    requires 0 < len && n * len == |s|
    ensures |r| == n
  {
    if n == 0 then []
    else
      LastBlockEnd(n, len);
      Pooled(n - 1, len, s[..|s| - len]) + [Mean(s[|s| - len..], len)]
  }

  /** Entry `k` of the pooled vector is the mean of the `k`-th bucket, the entries at
      positions k*len .. k*len+len-1. */
  lemma {:induction false} PooledAt(n: nat, len: nat, s: seq<bool>, k: nat)
    requires 0 < len && n * len == |s| && k < n
    ensures k * len + len <= |s|
    ensures Pooled(n, len, s)[k] == Mean(s[k * len .. k * len + len], len)
  {
    BlockInside(k, len, n);
    LastBlockEnd(n, len);
    var p := s[..|s| - len];
    var r := Pooled(n, len, s);
    assert r == Pooled(n - 1, len, p) + [Mean(s[|s| - len..], len)];
    if k < n - 1 {
      BlockInside(k, len, n - 1);
      PooledAt(n - 1, len, p, k);
      assert p[k * len .. k * len + len] == s[k * len .. k * len + len];
    } else {
      assert k * len == |s| - len;
      assert s[k * len .. k * len + len] == s[|s| - len..];
    }
  }

  function Sum(r: seq<real>): real
  {
    if r == [] then 0.0 else Sum(r[..|r| - 1]) + r[|r| - 1]
  }

  /** Pooling loses no activity: the bucket means add up to the number of true entries
      of the input divided by the bucket length. */
  lemma {:induction false} PooledConserves(n: nat, len: nat, s: seq<bool>)
    requires 0 < len && n * len == |s|
    ensures Sum(Pooled(n, len, s)) == CountTrue(s) as real / len as real
  {
    if n > 0 {
      LastBlockEnd(n, len);
      var m := |s| - len;
      var p, b := s[..m], s[m..];
      PooledConserves(n - 1, len, p);
      var r := Pooled(n, len, s);
      assert r[..n - 1] == Pooled(n - 1, len, p);
      assert s == p + b;
      CountTrueConcat(p, b);
      assert r[n - 1] == Mean(b, len);
      AddShares(CountTrue(p), CountTrue(b), len);
    }
  }

  /** Every bucket mean is a share: it lies between 0 and 1. */
  lemma PooledBounds(n: nat, len: nat, s: seq<bool>)
    requires 0 < len && n * len == |s|
    ensures forall k :: 0 <= k < n ==> 0.0 <= Pooled(n, len, s)[k] <= 1.0
  {
    forall k | 0 <= k < n
      ensures 0.0 <= Pooled(n, len, s)[k] <= 1.0
    {
      PooledAt(n, len, s, k);
      ShareBounds(CountTrue(s[k * len .. k * len + len]), len);
    }
  }

  /** How much of bucket `k` a scan that has read positions 0 .. i-1 has counted. */
  ghost function Filled(s: seq<bool>, len: nat, k: nat, i: nat): nat
    requires i <= |s|
  {
    CountTrue(s[Min(k * len, i) .. Min(k * len + len, i)])
  }

  /** Reading position `i` adds its value to bucket i/len and to no other. */
  lemma FilledStep(s: seq<bool>, len: nat, k: nat, i: nat)
    requires 0 < len && i < |s|
    ensures Filled(s, len, k, i + 1) == Filled(s, len, k, i) + (if i / len == k && s[i] then 1 else 0)
  {
    DivBlock(i, len, k);
    if k * len <= i < k * len + len {
      var a := s[k * len .. i + 1];
      assert a[..|a| - 1] == s[k * len .. i];
    }
  }

  /** The accumulators of all `n` buckets after reading positions 0 .. i-1. */
  ghost function Accumulated(s: seq<bool>, len: nat, n: nat, i: nat): (acc: seq<real>)
    requires i <= |s|
    ensures |acc| == n
  {
    seq(n, k requires 0 <= k < n => Filled(s, len, k, i) as real)
  }

  lemma AccumulatedStep(s: seq<bool>, len: nat, n: nat, i: nat)
    requires 0 < len && i < |s| && i < n * len
    ensures i / len < n
    ensures Accumulated(s, len, n, i + 1) ==
      Accumulated(s, len, n, i)[i / len := Accumulated(s, len, n, i)[i / len] + if s[i] then 1.0 else 0.0]
  {
    DivBelow(i, len, n);
    var before := Accumulated(s, len, n, i);
    var after := Accumulated(s, len, n, i + 1);
    var b := i / len;
    var expected := before[b := before[b] + if s[i] then 1.0 else 0.0];
    forall k | 0 <= k < n
      ensures after[k] == expected[k]
    {
      FilledStep(s, len, k, i);
    }
  }

  /** Once the whole input is read, dividing the accumulators by the bucket length gives
      the pooled vector. */
  lemma AccumulatedWhole(s: seq<bool>, len: nat, n: nat)
    requires 0 < len && n * len == |s|
    ensures forall k :: 0 <= k < n ==> Accumulated(s, len, n, |s|)[k] / len as real == Pooled(n, len, s)[k]
  {
    forall k | 0 <= k < n
      ensures Accumulated(s, len, n, |s|)[k] / len as real == Pooled(n, len, s)[k]
    {
      PooledAt(n, len, s, k);
    }
  }

  /** The in-place division `res /= len_per_category`. */
  method DivideAll(a: array<real>, d: nat)
    requires 0 < d
    modifies a
    ensures forall k :: 0 <= k < a.Length ==> a[k] == old(a[k]) / d as real
  {
    var j := 0;
    while j < a.Length
      invariant 0 <= j <= a.Length
      invariant forall k :: 0 <= k < j ==> a[k] == old(a[k]) / d as real
      invariant forall k :: j <= k < a.Length ==> a[k] == old(a[k])
    {
      a[j] := a[j] / d as real;
      j := j + 1;
    }
  }

  /** `categroize` as htmhelper.hpp writes it: add each entry to the accumulator of its
      bucket, then divide every accumulator by the bucket length. */
  method Categorize(numCategory: nat, lenPerCategory: nat, input: seq<bool>) returns (res: seq<real>)
    requires 0 < lenPerCategory && numCategory * lenPerCategory == |input|
    ensures res == Pooled(numCategory, lenPerCategory, input)
  {
    var acc := Accumulate(numCategory, lenPerCategory, input);
    ghost var sums := acc[..];
    DivideAll(acc, lenPerCategory);
    AccumulatedWhole(input, lenPerCategory, numCategory);
    res := acc[..];
    assert forall k :: 0 <= k < numCategory ==> res[k] == sums[k] / lenPerCategory as real;
  }

  /** The first loop of `categroize`: a zeroed accumulator per bucket, then every entry
      added to the accumulator of its bucket, i / len. */
  method Accumulate(numCategory: nat, len: nat, input: seq<bool>) returns (acc: array<real>)
    requires 0 < len && numCategory * len == |input|
    ensures fresh(acc)
    ensures acc[..] == Accumulated(input, len, numCategory, |input|)
  {
    acc := new real[numCategory](_ => 0.0);
    var i := 0;
    while i < |input|
      invariant 0 <= i <= |input|
      invariant acc[..] == Accumulated(input, len, numCategory, i)
    {
      AccumulatedStep(input, len, numCategory, i);
      ghost var before := acc[..];
      var b := i / len;
      acc[b] := acc[b] + if input[i] then 1.0 else 0.0;
      assert acc[..] == before[b := before[b] + if input[i] then 1.0 else 0.0];
      i := i + 1;
    }
  }

  // ---------------------------------------------------------------------------
  // HTMLayerBase::inputSize / outputSize
  // ---------------------------------------------------------------------------

  /** size_t is 64 bits wide: its products wrap modulo 2^64. */
  const SIZE_T_RANGE: nat := 0x1_0000_0000_0000_0000

  /** The number of cells of a layer with the given dimensions (1 for no dimensions). */
  function Product(dims: seq<nat>): nat
  {
    if dims == [] then 1 else Product(dims[..|dims| - 1]) * dims[|dims| - 1]
  }

  lemma MulMod(a: nat, b: nat)
    ensures (a % SIZE_T_RANGE) * b % SIZE_T_RANGE == a * b % SIZE_T_RANGE
  {
    var q, r := a / SIZE_T_RANGE, a % SIZE_T_RANGE;
    assert a * b == (q * b) * SIZE_T_RANGE + r * b;
  }

  /** The accumulating loop of inputSize and outputSize: multiply a size_t accumulator,
      starting at 1, by every dimension in turn. */
  method DimensionProduct(dims: seq<nat>) returns (s: nat)
    ensures s == Product(dims) % SIZE_T_RANGE
  {
    s := 1;
    var i := 0;
    while i < |dims|
      invariant 0 <= i <= |dims|
      invariant s == Product(dims[..i]) % SIZE_T_RANGE
    {
      assert dims[..i + 1][..i] == dims[..i];
      MulMod(Product(dims[..i]), dims[i]);
      s := s * dims[i] % SIZE_T_RANGE;
      i := i + 1;
    }
    assert dims[..|dims|] == dims;
  }

  /** The shape part shared by the layer wrappers; the dimensions are fixed at construction. */
  datatype HTMLayerBase = HTMLayerBase(inputDimensions: seq<nat>, outputDimensions: seq<nat>)
  {
    method InputSize() returns (s: nat)
      ensures s == Product(inputDimensions) % SIZE_T_RANGE
    {
      s := DimensionProduct(inputDimensions);
    }

    method OutputSize() returns (s: nat)
      ensures s == Product(outputDimensions) % SIZE_T_RANGE
    {
      s := DimensionProduct(outputDimensions);
    }
  }

  // ---------------------------------------------------------------------------
  // Decoding the engines' per-cell output (the loops of TM::compute and TP::compute)
  // ---------------------------------------------------------------------------

  /** Column `c` of `size` columns is predicted when some predictive cell belongs to it,
      cell `x` belonging to column x / cellsPerColumn. */
  function PredictedColumns(cells: seq<nat>, cellsPerColumn: nat, size: nat): (out: seq<bool>)
    requires 0 < cellsPerColumn
    ensures |out| == size
  {
    seq(size, c => exists k :: 0 <= k < |cells| && cells[k] / cellsPerColumn == c)
  }

  /** The decoding loop of TM::compute: start from an all-false vector and set the
      column of every predictive cell. */
  method DecodePredictiveCells(cells: seq<nat>, colInTP: nat, size: nat) returns (out: seq<bool>)
    requires 0 < colInTP
    requires forall k :: 0 <= k < |cells| ==> cells[k] < size * colInTP
    ensures out == PredictedColumns(cells, colInTP, size)
    ensures forall c :: 0 <= c < size ==>
      (out[c] <==> exists k :: 0 <= k < |cells| && c * colInTP <= cells[k] < c * colInTP + colInTP)
  {
    var a := new bool[size](_ => false);
    for j := 0 to |cells|
      invariant forall c :: 0 <= c < size ==> (a[c] <==> exists k :: 0 <= k < j && cells[k] / colInTP == c)
    {
      DivBelow(cells[j], colInTP, size);
      a[cells[j] / colInTP] := true;
    }
    out := a[..];
    forall c | 0 <= c < size
      ensures out[c] <==> exists k :: 0 <= k < |cells| && c * colInTP <= cells[k] < c * colInTP + colInTP
    {
      forall k | 0 <= k < |cells|
        ensures cells[k] / colInTP == c <==> c * colInTP <= cells[k] < c * colInTP + colInTP
      {
        DivBlock(cells[k], colInTP, c);
      }
    }
  }

  /** The first ("home") cell of every listed column. */
  function HomeCells(columns: seq<nat>, cellsPerColumn: nat): (cells: seq<nat>)
    ensures |cells| == |columns|
  {
    seq(|columns|, k requires 0 <= k < |columns| => columns[k] * cellsPerColumn)
  }

  /** An engine that predicts the home cell of exactly the active columns of `t` reports
      only existing cells, and decoding its prediction gives `t` back. */
  lemma HomeCellsDecode(t: seq<bool>, cellsPerColumn: nat)
    requires 0 < cellsPerColumn
    ensures forall k :: 0 <= k < |TrueIndices(t)| ==> HomeCells(TrueIndices(t), cellsPerColumn)[k] < |t| * cellsPerColumn
    ensures PredictedColumns(HomeCells(TrueIndices(t), cellsPerColumn), cellsPerColumn, |t|) == t
  {
    var v := TrueIndices(t);
    var d := cellsPerColumn;
    var cells := HomeCells(v, d);
    TrueIndicesCorrect(t);
    forall k | 0 <= k < |v|
      ensures cells[k] / d == v[k] && cells[k] < |t| * d
    {
      DivBlock(cells[k], d, v[k]);
      BlockInside(v[k], d, |t|);
    }
    forall c | 0 <= c < |t|
      ensures PredictedColumns(cells, d, |t|)[c] == t[c]
    {
      if t[c] {
        var k :| 0 <= k < |v| && v[k] == c;
        assert cells[k] / d == c;
      }
    }
  }

  /** The first cell of each of `n` columns of `colInTP` cells, read as a boolean. */
  function FirstCells(out: seq<real>, colInTP: nat, n: nat): (r: seq<bool>)
    requires 0 < colInTP && |out| == n * colInTP
    ensures |r| == n
  {
    seq(n, i requires 0 <= i < n => BlockInside(i, colInTP, n); out[i * colInTP] != 0.0)
  }

  /** The decoding loop of TP::compute: entry i of the result is the engine's output for
      the first cell of column i, for every column the output holds. */
  method DecodeFirstCells(t: seq<bool>, colInTP: nat, out: seq<real>) returns (res: seq<bool>)
    requires 0 < colInTP && |out| == |t| * colInTP
    ensures res == FirstCells(out, colInTP, |t|)
  {
    var a := new bool[|t|](_ => false);
    DivBlock(|out|, colInTP, |t|);
    var i := 0;
    while i < |out| / colInTP
      invariant 0 <= i <= |t|
      invariant forall j :: 0 <= j < i ==> a[j] == FirstCells(out, colInTP, |t|)[j]
    {
      BlockInside(i, colInTP, |t|);
      a[i] := out[i * colInTP] != 0.0;
      i := i + 1;
    }
    res := a[..];
  }

  /** A cell vector in which every cell repeats its column's state (1 or 0). */
  function Spread(t: seq<bool>, cellsPerColumn: nat): (out: seq<real>)
    requires 0 < cellsPerColumn
    ensures |out| == |t| * cellsPerColumn
  {
    seq(|t| * cellsPerColumn, j requires 0 <= j < |t| * cellsPerColumn =>
      DivBelow(j, cellsPerColumn, |t|); if t[j / cellsPerColumn] then 1.0 else 0.0)
  }

  /** Reading the first cell of each column of a spread vector gives the columns back. */
  lemma SpreadFirstCells(t: seq<bool>, cellsPerColumn: nat)
    requires 0 < cellsPerColumn
    ensures FirstCells(Spread(t, cellsPerColumn), cellsPerColumn, |t|) == t
  {
    forall i | 0 <= i < |t|
      ensures FirstCells(Spread(t, cellsPerColumn), cellsPerColumn, |t|)[i] == t[i]
    {
      BlockInside(i, cellsPerColumn, |t|);
      DivBlock(i * cellsPerColumn, cellsPerColumn, i);
    }
  }

  /** The conversion of a boolean vector into the engine's float input. */
  function AsReals(t: seq<bool>): (r: seq<real>)
    ensures |r| == |t|
    ensures forall i :: 0 <= i < |t| ==> (r[i] != 0.0 <==> t[i])
  {
    seq(|t|, i requires 0 <= i < |t| => if t[i] then 1.0 else 0.0)
  }

  // ---------------------------------------------------------------------------
  // The learning engines and the TP / TM wrappers
  // ---------------------------------------------------------------------------

  /** One call made to a learning engine. */
  datatype EngineCall<I> = ComputeCall(input: I, learn: bool) | ResetCall

  /** A learning engine (nupic's TemporalMemory or Cells4) whose internals are not part of
      this model: it records every call it receives, and what it reports is a fixed
      function `respond` of the calls it has received so far. */
  class Engine<I, O>
  {
    var calls: seq<EngineCall<I>>
    const respond: seq<EngineCall<I>> -> O

    constructor (respond: seq<EngineCall<I>> -> O)
      ensures this.respond == respond && calls == []
    {
      this.respond := respond;
      calls := [];
    }

    method Compute(input: I, learn: bool)
      modifies this
      ensures calls == old(calls) + [ComputeCall(input, learn)]
    {
      calls := calls + [ComputeCall(input, learn)];
    }

    method Reset()
      modifies this
      ensures calls == old(calls) + [ResetCall]
    {
      calls := calls + [ResetCall];
    }

    /** What the engine currently reports (the predictive cells, or the per-cell output). */
    function Output(): O
      reads this
    {
      respond(calls)
    }
  }

  /** The temporal-memory wrapper: `colInTP` cells per column over the input columns. */
  class TM
  {
    const layer: HTMLayerBase
    const colInTP: nat
    const tm: Engine<seq<nat>, seq<nat>>

    /** The wrapper's shape, and the engine's promise that every predictive cell it
        reports is one of its Product(inputDimensions) * colInTP cells. */
    ghost predicate Valid()
    {
      0 < colInTP && layer.inputDimensions == layer.outputDimensions
      && forall h, k :: 0 <= k < |tm.respond(h)| ==> tm.respond(h)[k] < Product(layer.inputDimensions) * colInTP
    }

    constructor (inDim: seq<nat>, numCol: nat, respond: seq<EngineCall<seq<nat>>> -> seq<nat>)
      requires 0 < numCol
      requires forall h, k :: 0 <= k < |respond(h)| ==> respond(h)[k] < Product(inDim) * numCol
      ensures Valid()
      ensures layer == HTMLayerBase(inDim, inDim) && colInTP == numCol
      ensures fresh(tm) && tm.calls == [] && tm.respond == respond
    {
      layer := HTMLayerBase(inDim, inDim);
      colInTP := numCol;
      tm := new Engine(respond);
    }

    /** Feed the active columns of `t` to the engine, then report which columns hold a
        predictive cell. */
    method Compute(t: seq<bool>, learn: bool) returns (out: seq<bool>)
      requires Valid() && |t| == Product(layer.inputDimensions)
      modifies tm
      ensures tm.calls == old(tm.calls) + [ComputeCall(TrueIndices(t), learn)]
      ensures out == PredictedColumns(tm.Output(), colInTP, |t|)
      ensures forall c :: 0 <= c < |t| ==>
        (out[c] <==> exists k :: 0 <= k < |tm.Output()| && c * colInTP <= tm.Output()[k] < c * colInTP + colInTP)
    {
      var cols := Sparsify(t);
      tm.Compute(cols, learn);
      var next := tm.Output();
      out := DecodePredictiveCells(next, colInTP, |t|);
    }

    method Reset()
      modifies tm
      ensures tm.calls == old(tm.calls) + [ResetCall]
    {
      tm.Reset();
    }
  }

  /** The Cells4 wrapper: `colInTP` cells per column over the input columns. */
  class TP
  {
    const layer: HTMLayerBase
    const colInTP: nat
    const tp: Engine<seq<real>, seq<real>>

    /** The wrapper's shape, and the engine's promise that it fills one output value for
        each of its cells. */
    ghost predicate Valid()
    {
      0 < colInTP && layer.inputDimensions == layer.outputDimensions
      && forall h :: |tp.respond(h)| == Product(layer.inputDimensions) * colInTP
    }

    constructor (inDim: seq<nat>, numCol: nat, respond: seq<EngineCall<seq<real>>> -> seq<real>)
      requires 0 < numCol
      requires forall h :: |respond(h)| == Product(inDim) * numCol
      ensures Valid()
      ensures layer == HTMLayerBase(inDim, inDim) && colInTP == numCol
      ensures fresh(tp) && tp.calls == [] && tp.respond == respond
    {
      layer := HTMLayerBase(inDim, inDim);
      colInTP := numCol;
      tp := new Engine(respond);
    }

    /** Feed `t` to the engine as floats (always inferring), then report, column by
        column, whether the column's first cell is on. */
    method Compute(t: seq<bool>, learn: bool) returns (res: seq<bool>)
      requires Valid() && |t| == Product(layer.inputDimensions)
      modifies tp
      ensures tp.calls == old(tp.calls) + [ComputeCall(AsReals(t), learn)]
      ensures res == FirstCells(tp.Output(), colInTP, |t|)
      ensures forall i :: 0 <= i < |t| ==> (res[i] <==> tp.Output()[i * colInTP] != 0.0)
    {
      tp.Compute(AsReals(t), learn);
      var out := tp.Output();
      res := DecodeFirstCells(t, colInTP, out);
      forall i | 0 <= i < |t|
        ensures res[i] <==> out[i * colInTP] != 0.0
      {
        BlockInside(i, colInTP, |t|);
      }
    }

    method Reset()
      modifies tp
      ensures tp.calls == old(tp.calls) + [ResetCall]
    {
      tp.Reset();
    }
  }
}
