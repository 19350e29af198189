/**
 * The payoff matrix (AuctPay.h). The object keeps a compressed row
 * matrix with one-based row pointers and one-based column indices, built
 * either from given compressed vectors or from a dense matrix by dropping
 * the don't-care entries. Inside the auction the payoff is read as a
 * zero-based sequence of rows, each a sequence of (column, value) entries.
 */
module Payoff {
  import opened PriceModel
  import opened Shape
  import opened Params

  /** One stored payoff: a zero-based column and its value. */
  datatype Entry = Entry(col: int, val: int)

  /** Every entry of every row has a column in [0, m). */
  ghost predicate ColsBelow(a: seq<seq<Entry>>, m: int)
  {
    forall r, k :: 0 <= r < |a| && 0 <= k < |a[r]| ==> 0 <= a[r][k].col < m
  }

  /** Within every row the columns strictly increase. */
  ghost predicate RowsSorted(a: seq<seq<Entry>>)
  {
    forall r, k, k' :: 0 <= r < |a| && 0 <= k < k' < |a[r]| ==> a[r][k].col < a[r][k'].col
  }

  // ------------------------------------------------------------------
  // Dense to sparse
  // ------------------------------------------------------------------

  /** The entries among the first j positions of a dense row that differ from the don't-care value. */
  function KeptPrefix(row: seq<int>, dc: int, j: nat): seq<Entry>
    requires j <= |row|
  {
    if j == 0 then []
    else KeptPrefix(row, dc, j - 1) + (if row[j - 1] != dc then [Entry(j - 1, row[j - 1])] else [])
  }

  function Kept(row: seq<int>, dc: int): seq<Entry>
  {
    KeptPrefix(row, dc, |row|)
  }

  /** The number of positions among the first j of a dense row that differ from the don't-care value. */
  function CountKept(row: seq<int>, dc: int, j: nat): nat
    requires j <= |row|
  {
    if j == 0 then 0 else CountKept(row, dc, j - 1) + (if row[j - 1] != dc then 1 else 0)
  }

  /** A dense matrix as compressed rows: per row, the entries that are not don't-care. */
  function Sparsify(vpay: seq<seq<int>>, dc: int): (a: seq<seq<Entry>>)
    ensures |a| == |vpay|
  {
    seq(|vpay|, r requires 0 <= r < |vpay| => Kept(vpay[r], dc))
  }

  /** All entries, row after row. */
  function Flatten(a: seq<seq<Entry>>): seq<Entry>
  {
    if |a| == 0 then [] else Flatten(a[..|a| - 1]) + a[|a| - 1]
  }

  function Vals(es: seq<Entry>): (vs: seq<int>)
    ensures |vs| == |es|
  {
    seq(|es|, k requires 0 <= k < |es| => es[k].val)
  }

  /** The one-based column indices of a list of entries. */
  function OneCols(es: seq<Entry>): (cs: seq<int>)
    ensures |cs| == |es|
  {
    seq(|es|, k requires 0 <= k < |es| => es[k].col + 1)
  }

  /** One-based row pointers: row r starts after the entries of the rows before it. */
  function OnePtrs(a: seq<seq<Entry>>): (p: seq<int>)
    ensures |p| == |a| + 1
  {
    seq(|a| + 1, r requires 0 <= r <= |a| => 1 + |Flatten(a[..r])|)
  }

  // ------------------------------------------------------------------
  // Reading compressed rows back
  // ------------------------------------------------------------------

  /**
   * One-based compressed vectors that describe n rows: pointers starting
   * at 1 and never decreasing, enough values and columns for the last
   * pointer, and every stored column in [1, m].
   */
  ghost predicate Compressed(vals: seq<int>, ind: seq<int>, ptr: seq<int>, n: nat, m: int)
  {
    && |ptr| == n + 1 && ptr[0] == 1
    && (forall a, b :: 0 <= a <= b <= n ==> ptr[a] <= ptr[b])
    && ptr[n] - 1 <= |vals| && ptr[n] - 1 <= |ind|
    && (forall k :: 0 <= k < ptr[n] - 1 ==> 1 <= ind[k] <= m)
  }

  /** Row r of one-based compressed vectors, with zero-based columns. */
  function RowAt(vals: seq<int>, ind: seq<int>, ptr: seq<int>, r: int): (row: seq<Entry>)
    requires 0 <= r && r + 1 < |ptr| && 1 <= ptr[r] <= ptr[r + 1]
    requires ptr[r + 1] - 1 <= |vals| && ptr[r + 1] - 1 <= |ind|
  {
    seq(ptr[r + 1] - ptr[r], k requires 0 <= k < ptr[r + 1] - ptr[r] =>
      Entry(ind[ptr[r] - 1 + k] - 1, vals[ptr[r] - 1 + k]))
  }

  /** All n rows of one-based compressed vectors. */
  function Decode(vals: seq<int>, ind: seq<int>, ptr: seq<int>, n: nat, m: int): (a: seq<seq<Entry>>)
    requires Compressed(vals, ind, ptr, n, m)
    ensures |a| == n
  {
    seq(n, r requires 0 <= r < n => RowAt(vals, ind, ptr, r))
  }

  /** The rows of one-based compressed vectors have their columns in [0, m). */
  lemma DecodeColsBelow(vals: seq<int>, ind: seq<int>, ptr: seq<int>, n: nat, m: int)
    requires Compressed(vals, ind, ptr, n, m)
    ensures ColsBelow(Decode(vals, ind, ptr, n, m), m)
  {
    var a: seq<seq<Entry>> := Decode(vals, ind, ptr, n, m);
    forall r: int, k: int | 0 <= r < n && 0 <= k < |a[r]|
      ensures 0 <= a[r][k].col < m
    {
      assert ptr[r + 1] <= ptr[n];
      assert a[r][k] == Entry(ind[ptr[r] - 1 + k] - 1, vals[ptr[r] - 1 + k]);
    }
  }

  // ------------------------------------------------------------------
  // Lemmas
  // ------------------------------------------------------------------

  lemma {:induction false} KeptPrefixFacts(row: seq<int>, dc: int, j: nat)
    requires j <= |row|
    ensures |KeptPrefix(row, dc, j)| == CountKept(row, dc, j)
    ensures forall k :: 0 <= k < |KeptPrefix(row, dc, j)| ==>
      var e := KeptPrefix(row, dc, j)[k]; 0 <= e.col < j && e.val == row[e.col] && e.val != dc
    ensures forall k, k' :: 0 <= k < k' < |KeptPrefix(row, dc, j)| ==>
      KeptPrefix(row, dc, j)[k].col < KeptPrefix(row, dc, j)[k'].col
    ensures forall i :: 0 <= i < j && row[i] != dc ==> Entry(i, row[i]) in KeptPrefix(row, dc, j)
  {
    if j > 0 {
      KeptPrefixFacts(row, dc, j - 1);
      var init := KeptPrefix(row, dc, j - 1);
      forall i | 0 <= i < j - 1 && row[i] != dc
        ensures Entry(i, row[i]) in KeptPrefix(row, dc, j)
      {
        assert Entry(i, row[i]) in init;
      }
    }
  }

  /**
   * Sparsification keeps exactly the entries that are not don't-care:
   * as many as there are such positions, each with its own column and
   * value, in strictly increasing column order, none left behind.
   */
  lemma KeptMeaning(row: seq<int>, dc: int)
    ensures |Kept(row, dc)| == CountKept(row, dc, |row|)
    ensures forall k :: 0 <= k < |Kept(row, dc)| ==>
      var e := Kept(row, dc)[k]; 0 <= e.col < |row| && e.val == row[e.col] && e.val != dc
    ensures forall k, k' :: 0 <= k < k' < |Kept(row, dc)| ==> Kept(row, dc)[k].col < Kept(row, dc)[k'].col
    ensures forall i :: 0 <= i < |row| && row[i] != dc ==> Entry(i, row[i]) in Kept(row, dc)
  {
    KeptPrefixFacts(row, dc, |row|);
  }

  /** The entries of row r sit in the flattened list right after those of the rows before it. */
  lemma {:induction false} FlattenAt(a: seq<seq<Entry>>, r: int, k: int)
    requires 0 <= r < |a| && 0 <= k < |a[r]|
    ensures |Flatten(a[..r])| + k < |Flatten(a)|
    ensures Flatten(a)[|Flatten(a[..r])| + k] == a[r][k]
    decreases |a|
  {
    var n := |a|;
    var init := a[..n - 1];
    assert a[..n] == a;
    if r == n - 1 {
      assert a[..r] == init;
    } else {
      assert a[..r] == init[..r];
      FlattenAt(init, r, k);
    }
  }

  /** A prefix of the rows flattens to no more entries than all of them. */
  lemma {:induction false} FlattenPrefixLength(a: seq<seq<Entry>>, r: int, s: int)
    requires 0 <= r <= s <= |a|
    ensures |Flatten(a[..r])| <= |Flatten(a[..s])|
    decreases s - r
  {
    if r < s {
      FlattenPrefixLength(a, r, s - 1);
      assert a[..s][..s - 1] == a[..s - 1];
    }
  }

  /** The one-based row pointers of rows `a` start at 1, never decrease and end after the last entry. */
  lemma OnePtrsMonotone(a: seq<seq<Entry>>)
    ensures OnePtrs(a)[0] == 1 && OnePtrs(a)[|a|] == 1 + |Flatten(a)|
    ensures forall x, y :: 0 <= x <= y <= |a| ==> OnePtrs(a)[x] <= OnePtrs(a)[y]
  {
    var ptr := OnePtrs(a);
    assert a[..|a|] == a;
    assert a[..0] == [];
    forall x, y | 0 <= x <= y <= |a|
      ensures ptr[x] <= ptr[y]
    {
      FlattenPrefixLength(a, x, y);
    }
  }

  /** Every one-based column written for rows `a` lies in [1, m]. */
  lemma OneColsBelow(a: seq<seq<Entry>>, m: int, extraCols: seq<int>)
    requires ColsBelow(a, m)
    ensures forall k :: 0 <= k < |Flatten(a)| ==> 1 <= (OneCols(Flatten(a)) + extraCols)[k] <= m
  {
    forall k | 0 <= k < |Flatten(a)|
      ensures 1 <= (OneCols(Flatten(a)) + extraCols)[k] <= m
    {
      var r, j := FlattenedIndex(a, k);
      FlattenAt(a, r, j);
    }
  }

  /** The one-based vectors written for rows `a` are compressed vectors for them. */
  lemma EncodeCompressed(a: seq<seq<Entry>>, m: int, extra: seq<int>, extraCols: seq<int>)
    requires ColsBelow(a, m)
    ensures Compressed(Vals(Flatten(a)) + extra, OneCols(Flatten(a)) + extraCols, OnePtrs(a), |a|, m)
  {
    OnePtrsMonotone(a);
    OneColsBelow(a, m, extraCols);
  }

  /** Every position of the flattened list belongs to some row. */
  lemma {:induction false} FlattenedIndex(a: seq<seq<Entry>>, k: int) returns (r: int, j: int)
    requires 0 <= k < |Flatten(a)|
    ensures 0 <= r < |a| && 0 <= j < |a[r]| && k == |Flatten(a[..r])| + j
    decreases |a|
  {
    var n := |a|;
    var init := a[..n - 1];
    if k < |Flatten(init)| {
      r, j := FlattenedIndex(init, k);
      assert init[..r] == a[..r];
    } else {
      r, j := n - 1, k - |Flatten(init)|;
      assert a[..r] == init;
    }
  }

  /** The one-based pointers around row r: it starts after the rows before it and spans its own entries. */
  lemma OnePtrsAt(a: seq<seq<Entry>>, r: int)
    requires 0 <= r < |a|
    ensures OnePtrs(a)[r] == 1 + |Flatten(a[..r])|
    ensures OnePtrs(a)[r + 1] == OnePtrs(a)[r] + |a[r]| <= 1 + |Flatten(a)|
  {
    assert a[..r + 1][..r] == a[..r];
    assert Flatten(a[..r + 1]) == Flatten(a[..r]) + a[r];
    FlattenPrefixLength(a, r + 1, |a|);
    assert a[..|a|] == a;
  }

  /** Position k of the encoding of row r holds a[r][k], its column made one-based. */
  lemma EncodeEntry(a: seq<seq<Entry>>, extra: seq<int>, extraCols: seq<int>, r: int, k: int)
    requires 0 <= r < |a| && 0 <= k < |a[r]|
    ensures var base := OnePtrs(a)[r] - 1;
      && 0 <= base + k < |Flatten(a)|
      && (Vals(Flatten(a)) + extra)[base + k] == a[r][k].val
      && (OneCols(Flatten(a)) + extraCols)[base + k] == a[r][k].col + 1
  {
    OnePtrsAt(a, r);
    FlattenAt(a, r, k);
  }

  /** Row r read back from the vectors that encode rows `a` is a[r]. */
  lemma EncodeRow(a: seq<seq<Entry>>, extra: seq<int>, extraCols: seq<int>, r: int)
    requires 0 <= r < |a|
    ensures var ptr := OnePtrs(a);
      && 1 <= ptr[r] <= ptr[r + 1]
      && ptr[r + 1] - 1 <= |Vals(Flatten(a)) + extra| && ptr[r + 1] - 1 <= |OneCols(Flatten(a)) + extraCols|
    ensures RowAt(Vals(Flatten(a)) + extra, OneCols(Flatten(a)) + extraCols, OnePtrs(a), r) == a[r]
  {
    OnePtrsAt(a, r);
    var row := RowAt(Vals(Flatten(a)) + extra, OneCols(Flatten(a)) + extraCols, OnePtrs(a), r);
    forall k | 0 <= k < |a[r]|
      ensures row[k] == a[r][k]
    {
      EncodeEntry(a, extra, extraCols, r, k);
    }
    assert row == a[r];
  }

  /**
   * Round trip: reading back the one-based vectors that encode rows `a`
   * (with anything after the last entry) gives `a` again.
   */
  lemma EncodeDecode(a: seq<seq<Entry>>, m: int, extra: seq<int>, extraCols: seq<int>)
    requires ColsBelow(a, m)
    ensures Compressed(Vals(Flatten(a)) + extra, OneCols(Flatten(a)) + extraCols, OnePtrs(a), |a|, m)
    ensures Decode(Vals(Flatten(a)) + extra, OneCols(Flatten(a)) + extraCols, OnePtrs(a), |a|, m) == a
  {
    EncodeCompressed(a, m, extra, extraCols);
    var vals, ind, ptr := Vals(Flatten(a)) + extra, OneCols(Flatten(a)) + extraCols, OnePtrs(a);
    var d := Decode(vals, ind, ptr, |a|, m);
    forall r | 0 <= r < |a|
      ensures d[r] == a[r]
    {
      EncodeRow(a, extra, extraCols, r);
    }
  }

  /** A sparsified dense matrix has its columns below the longest row length. */
  lemma SparsifyColsBelow(vpay: seq<seq<int>>, dc: int)
    ensures ColsBelow(Sparsify(vpay, dc), MaxLen(vpay))
    ensures RowsSorted(Sparsify(vpay, dc))
  {
    var a: seq<seq<Entry>> := Sparsify(vpay, dc);
    forall r: int | 0 <= r < |vpay|
      ensures forall k :: 0 <= k < |a[r]| ==> 0 <= a[r][k].col < MaxLen(vpay)
      ensures forall k, k' :: 0 <= k < k' < |a[r]| ==> a[r][k].col < a[r][k'].col
    {
      KeptMeaning(vpay[r], dc);
    }
  }

  // ------------------------------------------------------------------
  // Row maxima
  // ------------------------------------------------------------------

  /** The largest value, floored at 0 (0 for an empty list). */
  function FloorMax(xs: seq<int>): int
  {
    Max(0, MaxOr0(xs))
  }

  /** FloorMax is non-negative, bounds every value and is 0 or one of them. */
  lemma FloorMaxMeaning(xs: seq<int>)
    ensures FloorMax(xs) >= 0
    ensures forall x :: x in xs ==> x <= FloorMax(xs)
    ensures FloorMax(xs) == 0 || FloorMax(xs) in xs
  {
    ExtremesMeaning(xs);
  }

  /** get_max_by_row as written: the pointers are read as zero-based offsets into the values. */
  function MaxByRowAsWritten(vals: seq<int>, ptr: seq<int>, i: int): int
    requires 0 <= i && i + 1 < |ptr|
    requires ptr[i] < ptr[i + 1] ==> 0 <= ptr[i] && ptr[i + 1] <= |vals|
  {
    if ptr[i] < ptr[i + 1] then FloorMax(vals[ptr[i]..ptr[i + 1]]) else 0
  }

  /** get_max_by_row with the pointers read as one-based, as they are stored. */
  function MaxByRow(vals: seq<int>, ptr: seq<int>, i: int): int
    requires 0 <= i && i + 1 < |ptr|
    requires ptr[i] < ptr[i + 1] ==> 1 <= ptr[i] && ptr[i + 1] - 1 <= |vals|
  {
    if ptr[i] < ptr[i + 1] then FloorMax(vals[ptr[i] - 1..ptr[i + 1] - 1]) else 0
  }

  /**
   * On compressed vectors the corrected row maximum is the largest value
   * stored in row i, floored at 0: non-negative, at least every value of
   * the row, and 0 or one of them.
   */
  lemma MaxByRowMeaning(vals: seq<int>, ind: seq<int>, ptr: seq<int>, n: nat, m: int, i: int)
    requires Compressed(vals, ind, ptr, n, m) && 0 <= i < n
    ensures ptr[i] <= ptr[i + 1] && ptr[i + 1] - 1 <= |vals|
    ensures var row := Decode(vals, ind, ptr, n, m)[i];
      && MaxByRow(vals, ptr, i) == FloorMax(Vals(row))
      && MaxByRow(vals, ptr, i) >= 0
      && (forall k :: 0 <= k < |row| ==> row[k].val <= MaxByRow(vals, ptr, i))
      && (MaxByRow(vals, ptr, i) == 0 || exists k :: 0 <= k < |row| && row[k].val == MaxByRow(vals, ptr, i))
  {
    assert ptr[i] <= ptr[i + 1] <= ptr[n];
    var row := Decode(vals, ind, ptr, n, m)[i];
    assert Vals(row) == vals[ptr[i] - 1..ptr[i + 1] - 1];
    FloorMaxMeaning(Vals(row));
    forall k | 0 <= k < |row|
      ensures row[k].val <= MaxByRow(vals, ptr, i)
    {
      assert Vals(row)[k] in Vals(row);
    }
    if MaxByRow(vals, ptr, i) != 0 {
      var k :| 0 <= k < |Vals(row)| && Vals(row)[k] == MaxByRow(vals, ptr, i);
      assert row[k].val == MaxByRow(vals, ptr, i);
    }
  }

  /**
   * The dense payoff [[5], [3]] with don't-care 0 is stored as values
   * [5, 3, _] with pointers [1, 2, 3]: as written, the maximum of row 0
   * comes out as 3 (the value of row 1), while row 0 holds 5.
   */
  lemma MaxByRowAsWrittenShifted()
    ensures var a := Sparsify([[5], [3]], 0);
      && a == [[Entry(0, 5)], [Entry(0, 3)]]
      && OnePtrs(a) == [1, 2, 3] && Vals(Flatten(a)) == [5, 3]
      && MaxByRowAsWritten(Vals(Flatten(a)) + [0], OnePtrs(a), 0) == 3
      && MaxByRow(Vals(Flatten(a)) + [0], OnePtrs(a), 0) == 5
  {
    var a := Sparsify([[5], [3]], 0);
    assert KeptPrefix([5], 0, 0) == [] && [5][0] == 5;
    assert Kept([5], 0) == [Entry(0, 5)];
    assert KeptPrefix([3], 0, 0) == [] && [3][0] == 3;
    assert Kept([3], 0) == [Entry(0, 3)];
    assert a == [[Entry(0, 5)], [Entry(0, 3)]];
    assert a[..0] == [] && a[..1] == [[Entry(0, 5)]] && a[..2] == a;
    assert Flatten(a[..1]) == [Entry(0, 5)];
    assert Flatten(a) == [Entry(0, 5), Entry(0, 3)];
    assert OnePtrs(a) == [1, 2, 3];
    var vals := Vals(Flatten(a)) + [0];
    assert vals == [5, 3, 0];
    assert vals[1..2] == [3] && vals[0..1] == [5];
  }

  /** A new array of length len holding s followed by zeros. */
  method ArrayOf(s: seq<int>, len: int) returns (a: array<int>)
    requires |s| <= len
    ensures fresh(a) && a.Length == len
    ensures a[..] == s + seq(len - |s|, _ => 0)
  {
    a := new int[len](k => if 0 <= k < |s| then s[k] else 0);
    assert a[..] == s + seq(len - |s|, _ => 0);
  }

  /** Vals and OneCols of a list with one more entry. */
  lemma EntriesSnoc(es: seq<Entry>, e: Entry)
    ensures Vals(es + [e]) == Vals(es) + [e.val] && OneCols(es + [e]) == OneCols(es) + [e.col + 1]
  {
  }

  /**
   * The push_back loops of the dense constructor: the kept values, their
   * one-based columns and the one-based row pointers, with the running
   * count nnz starting from 1.
   */
  method SparsifyDense(vpay: seq<seq<int>>, dc: int) returns (vals: seq<int>, ind: seq<int>, rowpt: seq<int>, nnz: int)
    ensures var es := Flatten(Sparsify(vpay, dc));
      && vals == Vals(es) && ind == OneCols(es) && nnz == |es| + 1
    ensures rowpt == OnePtrs(Sparsify(vpay, dc))
  {
    ghost var a := Sparsify(vpay, dc);
    nnz := 1;
    vals, ind, rowpt := [], [], [];
    ghost var es: seq<Entry> := [];
    var r := 0;
    assert a[..0] == [];
    while r < |vpay|
      invariant 0 <= r <= |vpay|
      invariant es == Flatten(a[..r])
      invariant vals == Vals(es) && ind == OneCols(es)
      invariant rowpt == OnePtrs(a)[..r]
      invariant nnz == 1 + |es|
    {
      rowpt := rowpt + [nnz];
      ghost var cur := es;
      var j := 0;
      while j < |vpay[r]|
        invariant 0 <= j <= |vpay[r]|
        invariant cur == es + KeptPrefix(vpay[r], dc, j)
        invariant vals == Vals(cur) && ind == OneCols(cur) && nnz == 1 + |cur|
      {
        if vpay[r][j] != dc {
          EntriesSnoc(cur, Entry(j, vpay[r][j]));
          cur := cur + [Entry(j, vpay[r][j])];
          nnz := nnz + 1;
          ind := ind + [j + 1];
          vals := vals + [vpay[r][j]];
        }
        j := j + 1;
      }
      assert a[..r + 1][..r] == a[..r];
      es := cur;
      r := r + 1;
    }
    rowpt := rowpt + [nnz];
    assert a[..|vpay|] == a;
  }

  // ------------------------------------------------------------------
  // The payoff object
  // ------------------------------------------------------------------

  class AuctPay {
    var values: array<int>
    var colIndex: array<int>
    var rowptr: array<int>
    var numrows: int
    var numNonZeros: int
    var sparsified: bool

    /** The stored vectors describe numrows rows with columns in [1, m]. */
    ghost predicate WellFormed(m: int)
      reads this, values, colIndex, rowptr
    {
      numrows >= 0 && Compressed(values[..], colIndex[..], rowptr[..], numrows, m)
    }

    /** The payoff as zero-based rows. */
    ghost function Rows(m: int): seq<seq<Entry>>
      reads this, values, colIndex, rowptr
      requires WellFormed(m)
    {
      Decode(values[..], colIndex[..], rowptr[..], numrows, m)
    }

    /**
     * AuctPay(Param, shape, ind, vals, rowpt): the given compressed vectors
     * are stored as they are. The source exits when the shape's nnz
     * differs from the vector sizes; here that is a precondition.
     */
    constructor FromSparse(shape: AuctShape, ind: seq<int>, vals: seq<int>, rowpt: seq<int>)
      requires shape.Valid()
      requires shape.nnz == |ind| && shape.nnz == |vals|
      requires |rowpt| == shape.n + 1
      ensures numrows == shape.n && numNonZeros == shape.nnz && !sparsified
      ensures IsConsistent(shape) && !DenseToSparse()
      ensures values[..] == vals && colIndex[..] == ind && rowptr[..] == rowpt
      ensures fresh(values) && fresh(colIndex) && fresh(rowptr)
    {
      numrows := shape.n;
      numNonZeros := shape.nnz;
      sparsified := false;
      var v := ArrayOf(vals, shape.nnz);
      var c := ArrayOf(ind, shape.nnz);
      var p := ArrayOf(rowpt, shape.n + 1);
      assert v[..] == vals && c[..] == ind && p[..] == rowpt;
      values, colIndex, rowptr := v, c, p;
    }

    /**
     * AuctPay(Param, shape, Vpay): the dense matrix is sparsified (the
     * entries equal to the don't-care value are dropped) into one-based
     * vectors, and the shape's nnz is set to the kept count plus one.
     * The value slot past the kept entries is never written in the
     * source; here it holds 0.
     */
    constructor FromDense(prm: AuctParm, shape: AuctShape, vpay: seq<seq<int>>)
      requires shape.Valid() && |vpay| == shape.n
      modifies shape`nnz
      ensures shape.Valid() && shape.nnz == |Flatten(Sparsify(vpay, prm.dontcare))| + 1
      ensures numrows == shape.n && numNonZeros == shape.nnz && sparsified
      ensures IsConsistent(shape) && DenseToSparse()
      ensures var es := Flatten(Sparsify(vpay, prm.dontcare));
        && values[..] == Vals(es) + [0] && colIndex[..] == OneCols(es) + [0]
        && rowptr[..] == OnePtrs(Sparsify(vpay, prm.dontcare))
      ensures fresh(values) && fresh(colIndex) && fresh(rowptr)
    {
      var vals, ind, rowpt, nnz := SparsifyDense(vpay, prm.dontcare);
      shape.SetNnz(nnz);
      numrows := shape.n;
      numNonZeros := nnz;
      sparsified := true;
      var v := ArrayOf(vals, nnz);
      var c := ArrayOf(ind, nnz);
      var p := ArrayOf(rowpt, |rowpt|);
      assert v[..] == vals + [0] && c[..] == ind + [0] && p[..] == rowpt;
      values, colIndex, rowptr := v, c, p;
    }

    /** dense_to_sparse: whether the payoff was built from a dense matrix. */
    function DenseToSparse(): (r: bool)
      reads this
      ensures r <==> sparsified
    {
      sparsified
    }

    /** The InMat built from the stored vectors: numrows zero-based rows, every column below m. */
    method Input(m: int) returns (rows: seq<seq<Entry>>)
      requires WellFormed(m)
      ensures rows == Rows(m) && |rows| == numrows && ColsBelow(rows, m)
    {
      rows := Decode(values[..], colIndex[..], rowptr[..], numrows, m);
      DecodeColsBelow(values[..], colIndex[..], rowptr[..], numrows, m);
    }

    /** is_consistent: the payoff has the shape's row count and the shape's nnz. */
    predicate IsConsistent(sh: AuctShape): (r: bool)
      reads this, sh
      ensures r <==> numrows == sh.n && numNonZeros == sh.nnz
    {
      numrows == sh.n && numNonZeros == sh.nnz
    }

    /** get_max_by_row as written: scans values[rowptr[i] .. rowptr[i+1]) from a running maximum of 0. */
    method GetMaxByRowAsWritten(i: int) returns (rmax: int)
      requires 0 <= i && i + 1 < rowptr.Length
      requires rowptr[i] < rowptr[i + 1] ==> 0 <= rowptr[i] && rowptr[i + 1] <= values.Length
      ensures rmax == MaxByRowAsWritten(values[..], rowptr[..], i)
    {
      rmax := 0;
      var j := rowptr[i];
      while j < rowptr[i + 1]
        invariant rowptr[i] <= j <= rowptr[i + 1] || j == rowptr[i]
        invariant rowptr[i] < rowptr[i + 1] ==> rmax == FloorMax(values[rowptr[i]..j])
        invariant rowptr[i] >= rowptr[i + 1] ==> rmax == 0
      {
        MaxFloorStep(values[rowptr[i]..j], values[j], rmax);
        assert values[rowptr[i]..j + 1] == values[rowptr[i]..j] + [values[j]];
        if rmax < values[j] {
          rmax := values[j];
        }
        j := j + 1;
      }
    }

    /** get_max_by_row with one-based pointers: the largest value stored in row i, floored at 0. */
    method GetMaxByRow(i: int) returns (rmax: int)
      requires 0 <= i && i + 1 < rowptr.Length
      requires rowptr[i] < rowptr[i + 1] ==> 1 <= rowptr[i] && rowptr[i + 1] - 1 <= values.Length
      ensures rmax == MaxByRow(values[..], rowptr[..], i)
    {
      rmax := 0;
      var lo, hi := rowptr[i] - 1, rowptr[i + 1] - 1;
      var j := lo;
      while j < hi
        invariant lo <= j <= hi || j == lo
        invariant lo < hi ==> rmax == FloorMax(values[lo..j])
        invariant lo >= hi ==> rmax == 0
      {
        MaxFloorStep(values[lo..j], values[j], rmax);
        assert values[lo..j + 1] == values[lo..j] + [values[j]];
        if rmax < values[j] {
          rmax := values[j];
        }
        j := j + 1;
      }
    }
  }
}
