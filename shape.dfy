/**
 * The problem shape (AuctShape.h): how many expanded rows (columns) each
 * row (column) of the payoff stands for, kept in three equivalent forms —
 * multiplicities, prefix-sum pointers and an expanded-to-compressed map —
 * with a dirty flag saying which form was changed last.
 */
module Shape {

  /** A negative multiplicity behaves as 0: the expansion loop does not run. */
  function Clamp(k: int): nat
  {
    if k < 0 then 0 else k
  }

  /** The total of the clamped multiplicities. */
  function Total(mult: seq<int>): nat
  {
    if |mult| == 0 then 0 else Total(mult[..|mult| - 1]) + Clamp(mult[|mult| - 1])
  }

  /** Prefix sums of the clamped multiplicities: entry i is the first expanded index of group i. */
  function Ptrs(mult: seq<int>): (p: seq<int>)
    ensures |p| == |mult| + 1
  {
    seq(|mult| + 1, i requires 0 <= i <= |mult| => Total(mult[..i]))
  }

  /** Each index i repeated mult[i] times, in increasing order of i. */
  function Expand(mult: seq<int>): (s: seq<int>)
    ensures |s| == Total(mult)
  {
    if |mult| == 0 then []
    else Expand(mult[..|mult| - 1]) + seq(Clamp(mult[|mult| - 1]), _ => |mult| - 1)
  }

  /** The number of occurrences of k in s. */
  function Count(s: seq<int>, k: int): nat
  {
    if |s| == 0 then 0 else Count(s[..|s| - 1], k) + (if s[|s| - 1] == k then 1 else 0)
  }

  /** The multiplicities read off a map: entry k counts the occurrences of k. */
  function Tally(s: seq<int>, n: nat): (t: seq<int>)
    ensures |t| == n
  {
    seq(n, k => Count(s, k))
  }

  predicate InRange(s: seq<int>, n: int)
  {
    forall i :: 0 <= i < |s| ==> 0 <= s[i] < n
  }

  /** One side (rows or columns) of a shape: multiplicities, pointers and map. */
  datatype Side = Side(mult: seq<int>, ptr: seq<int>, index: seq<int>)

  /** The shape as a value; `flag` is compute_flag (0 clean, 1 multiplicities changed, 2 maps changed). */
  datatype ShapeState = ShapeState(rows: Side, cols: Side, nnz: int, flag: int)

  /** What holds at all times: pointer length and the last pointer equal to the map length. */
  ghost predicate WellFormed(s: Side)
  {
    |s.ptr| == |s.mult| + 1 && s.ptr[|s.mult|] == |s.index|
  }

  /** The three forms agree: pointers are the prefix sums and the map holds index k exactly mult[k] times. */
  ghost predicate Synced(s: Side)
  {
    && s.ptr == Ptrs(s.mult)
    && InRange(s.index, |s.mult|)
    && (forall k :: 0 <= k < |s.mult| ==> Count(s.index, k) == Clamp(s.mult[k]))
  }

  /** computemaps on one side: keep the multiplicities, rebuild map and pointers from them. */
  function RebuildFromMult(s: Side): Side
  {
    Side(s.mult, Ptrs(s.mult), Expand(s.mult))
  }

  /** computemult on one side: keep the map, rebuild multiplicities and pointers from it. */
  function RebuildFromMap(s: Side): Side
  {
    var t := Tally(s.index, |s.mult|);
    Side(t, Ptrs(t), s.index)
  }

  /** ifcompute: rebuild according to the side that was changed last, and mark the shape clean. */
  function IfCompute(st: ShapeState): ShapeState
  {
    if st.flag == 1 then ShapeState(RebuildFromMult(st.rows), RebuildFromMult(st.cols), st.nnz, 0)
    else if st.flag == 2 then ShapeState(RebuildFromMap(st.rows), RebuildFromMap(st.cols), st.nnz, 0)
    else st
  }

  /** transpose: rows and columns exchange places; nnz and the flag stay. */
  function Transposed(st: ShapeState): ShapeState
  {
    ShapeState(st.cols, st.rows, st.nnz, st.flag)
  }

  // ------------------------------------------------------------------
  // Counting lemmas
  // ------------------------------------------------------------------

  lemma {:induction false} CountAppend(a: seq<int>, b: seq<int>, k: int)
    ensures Count(a + b, k) == Count(a, k) + Count(b, k)
    decreases |b|
  {
    if |b| > 0 {
      var b' := b[..|b| - 1];
      assert (a + b)[..|a + b| - 1] == a + b';
      assert (a + b)[|a + b| - 1] == b[|b| - 1];
      CountAppend(a, b', k);
      assert Count(a + b, k) == Count(a + b', k) + (if b[|b| - 1] == k then 1 else 0);
    } else {
      assert a + b == a;
    }
  }

  lemma {:induction false} CountConst(c: nat, x: int, k: int)
    ensures Count(seq(c, _ => x), k) == if x == k then c else 0
  {
    if c > 0 {
      assert seq(c, _ => x)[..c - 1] == seq(c - 1, _ => x);
      CountConst(c - 1, x, k);
    }
  }

  lemma CountSnoc(s: seq<int>, x: int, k: int)
    ensures Count(s + [x], k) == Count(s, k) + (if x == k then 1 else 0)
  {
    assert (s + [x])[..|s|] == s;
  }

  lemma {:induction false} CountOutside(s: seq<int>, n: int, k: int)
    requires InRange(s, n) && !(0 <= k < n)
    ensures Count(s, k) == 0
  {
    if |s| > 0 {
      CountOutside(s[..|s| - 1], n, k);
    }
  }

  lemma {:induction false} TotalAppend(a: seq<int>, x: int)
    ensures Total(a + [x]) == Total(a) + Clamp(x)
  {
    assert (a + [x])[..|a|] == a;
  }

  /** Adding one to an entry that is not negative adds one to the total. */
  lemma {:induction false} TotalIncrement(t: seq<int>, x: int)
    requires 0 <= x < |t| && t[x] >= 0
    ensures Total(t[x := t[x] + 1]) == Total(t) + 1
  {
    var n := |t|;
    if x == n - 1 {
      assert t[x := t[x] + 1][..n - 1] == t[..n - 1];
    } else {
      assert t[x := t[x] + 1][..n - 1] == t[..n - 1][x := t[x] + 1];
      TotalIncrement(t[..n - 1], x);
    }
  }

  lemma {:induction false} TotalSameClamp(a: seq<int>, b: seq<int>)
    requires |a| == |b|
    requires forall k :: 0 <= k < |a| ==> Clamp(a[k]) == Clamp(b[k])
    ensures Total(a) == Total(b)
  {
    if |a| > 0 {
      TotalSameClamp(a[..|a| - 1], b[..|b| - 1]);
    }
  }

  /** When every entry of the map is a valid index, the tally accounts for every entry. */
  lemma {:induction false} TallyTotal(s: seq<int>, n: nat)
    requires InRange(s, n)
    ensures Total(Tally(s, n)) == |s|
  {
    if |s| == 0 {
      TotalZeros(n);
      assert Tally(s, n) == seq(n, _ => 0);
    } else {
      var init := s[..|s| - 1];
      var x := s[|s| - 1];
      assert s == init + [x];
      TallyTotal(init, n);
      var t := Tally(init, n);
      forall k | 0 <= k < n
        ensures Tally(s, n)[k] == t[x := t[x] + 1][k]
      {
        CountSnoc(init, x, k);
      }
      assert Tally(s, n) == t[x := t[x] + 1];
      TotalIncrement(t, x);
    }
  }

  lemma {:induction false} TotalZeros(n: nat)
    ensures Total(seq(n, _ => 0)) == 0
  {
    if n > 0 {
      assert seq(n, _ => 0)[..n - 1] == seq(n - 1, _ => 0);
      TotalZeros(n - 1);
    }
  }

  // ------------------------------------------------------------------
  // computemaps and computemult
  // ------------------------------------------------------------------

  /**
   * The expansion holds only valid group indices, holds index k exactly
   * Clamp(mult[k]) times, and is non-decreasing.
   */
  lemma {:induction false} ExpandContents(mult: seq<int>)
    ensures InRange(Expand(mult), |mult|)
    ensures forall k :: 0 <= k < |mult| ==> Count(Expand(mult), k) == Clamp(mult[k])
    ensures forall i, j :: 0 <= i < j < |Expand(mult)| ==> Expand(mult)[i] <= Expand(mult)[j]
  {
    if |mult| > 0 {
      var n := |mult|;
      var init := mult[..n - 1];
      var tail := seq(Clamp(mult[n - 1]), _ => n - 1);
      ExpandContents(init);
      forall k | 0 <= k < n
        ensures Count(Expand(mult), k) == Clamp(mult[k])
      {
        CountAppend(Expand(init), tail, k);
        CountConst(Clamp(mult[n - 1]), n - 1, k);
        if k == n - 1 {
          CountOutside(Expand(init), n - 1, k);
        } else {
          assert init[k] == mult[k];
        }
      }
    }
  }

  /** Expanded index i lies in group k exactly when ptr[k] <= i < ptr[k+1]. */
  lemma {:induction false} ExpandGroups(mult: seq<int>, k: int, i: int)
    requires 0 <= k < |mult| && Ptrs(mult)[k] <= i < Ptrs(mult)[k + 1]
    ensures 0 <= i < |Expand(mult)| && Expand(mult)[i] == k
  {
    var n := |mult|;
    var init := mult[..n - 1];
    assert mult[..n] == mult;
    assert Ptrs(mult)[k + 1] == Total(mult[..k + 1]);
    if k == n - 1 {
      assert mult[..k] == init;
    } else {
      assert mult[..k] == init[..k] && mult[..k + 1] == init[..k + 1];
      ExpandGroups(init, k, i);
      PtrsMonotone(init, k + 1, n - 1);
    }
  }

  lemma {:induction false} PtrsMonotone(mult: seq<int>, a: int, b: int)
    requires 0 <= a <= b <= |mult|
    ensures Ptrs(mult)[a] <= Ptrs(mult)[b]
    decreases b - a
  {
    if a < b {
      PtrsMonotone(mult, a, b - 1);
      assert mult[..b][..b - 1] == mult[..b - 1];
    }
  }

  /** computemaps leaves a synchronised side. */
  lemma RebuildFromMultSynced(s: Side)
    ensures Synced(RebuildFromMult(s)) && WellFormed(RebuildFromMult(s))
  {
    ExpandContents(s.mult);
    assert s.mult[..|s.mult|] == s.mult;
  }

  /** computemult leaves a synchronised side whenever every map entry is a valid index. */
  lemma RebuildFromMapSynced(s: Side)
    requires InRange(s.index, |s.mult|)
    ensures Synced(RebuildFromMap(s)) && WellFormed(RebuildFromMap(s))
  {
    var t := Tally(s.index, |s.mult|);
    TallyTotal(s.index, |s.mult|);
    assert t[..|t|] == t;
  }

  /** On a synchronised side the map length is the total multiplicity. */
  lemma SyncedSize(s: Side)
    requires Synced(s)
    ensures |s.index| == Total(s.mult) && s.ptr[|s.mult|] == |s.index|
  {
    var t := Tally(s.index, |s.mult|);
    TallyTotal(s.index, |s.mult|);
    TotalSameClamp(t, s.mult);
    assert s.mult[..|s.mult|] == s.mult;
  }

  /** computemaps followed by computemult leaves non-negative multiplicities, and everything else, unchanged. */
  lemma MapsThenMult(s: Side)
    requires forall k :: 0 <= k < |s.mult| ==> s.mult[k] >= 0
    ensures RebuildFromMap(RebuildFromMult(s)) == RebuildFromMult(s)
  {
    ExpandContents(s.mult);
    assert Tally(Expand(s.mult), |s.mult|) == s.mult;
  }

  /** ifcompute always ends clean and synchronised; a clean shape is left as it is. */
  lemma IfComputeSynced(st: ShapeState)
    requires 0 <= st.flag <= 2
    requires st.flag == 0 ==> Synced(st.rows) && Synced(st.cols)
    requires st.flag == 2 ==> InRange(st.rows.index, |st.rows.mult|) && InRange(st.cols.index, |st.cols.mult|)
    ensures IfCompute(st).flag == 0
    ensures Synced(IfCompute(st).rows) && Synced(IfCompute(st).cols)
    ensures st.flag == 0 ==> IfCompute(st) == st
    ensures IfCompute(st).rows.mult == (if st.flag == 2 then Tally(st.rows.index, |st.rows.mult|) else st.rows.mult)
  {
    if st.flag == 1 {
      RebuildFromMultSynced(st.rows);
      RebuildFromMultSynced(st.cols);
    } else if st.flag == 2 {
      RebuildFromMapSynced(st.rows);
      RebuildFromMapSynced(st.cols);
    }
  }

  /** n multiplicities of 1. */
  function Ones(n: nat): (s: seq<int>)
    ensures |s| == n && forall i :: 0 <= i < n ==> s[i] == 1
  {
    seq(n, _ => 1)
  }

  /** The identity map 0, 1, ..., n-1. */
  function Iota(n: nat): (s: seq<int>)
    ensures |s| == n && forall i :: 0 <= i < n ==> s[i] == i
  {
    seq(n, i => i)
  }

  /** With every multiplicity 1, both pointers and map are the identity. */
  lemma {:induction false} UnitMultiplicities(n: nat)
    ensures Expand(Ones(n)) == Iota(n)
    ensures Ptrs(Ones(n)) == Iota(n + 1)
  {
    if n > 0 {
      assert Ones(n)[..n - 1] == Ones(n - 1);
      UnitMultiplicities(n - 1);
      assert Expand(Ones(n)) == Iota(n - 1) + [n - 1];
    }
    forall i | 0 <= i <= n
      ensures Ptrs(Ones(n))[i] == i
    {
      UnitTotal(i);
      assert Ones(n)[..i] == Ones(i);
    }
  }

  lemma {:induction false} UnitTotal(n: nat)
    ensures Total(Ones(n)) == n
  {
    if n > 0 {
      assert Ones(n)[..n - 1] == Ones(n - 1);
      UnitTotal(n - 1);
    }
  }

  /** Transposition is an involution and keeps synchronisation on both sides. */
  lemma TransposedInvolution(st: ShapeState)
    ensures Transposed(Transposed(st)) == st
    ensures Transposed(st).rows == st.cols && Transposed(st).cols == st.rows
    ensures Transposed(st).nnz == st.nnz && Transposed(st).flag == st.flag
  {
  }

  /** The length of the longest row, 0 when there are no rows. */
  function MaxLen(rows: seq<seq<int>>): (m: nat)
    ensures forall i :: 0 <= i < |rows| ==> |rows[i]| <= m
    ensures |rows| == 0 ==> m == 0
    ensures |rows| > 0 ==> exists i :: 0 <= i < |rows| && |rows[i]| == m
  {
    if |rows| == 0 then 0
    else
      var m0 := MaxLen(rows[..|rows| - 1]);
      if |rows[|rows| - 1]| > m0 then |rows[|rows| - 1]| else m0
  }

  // ------------------------------------------------------------------
  // The array-level loops
  // ------------------------------------------------------------------

  /** One side of computemaps: the expanded map and the pointer array from the multiplicities. */
  method FillMaps(mult: array<int>, ptr: array<int>) returns (mp: seq<int>)
    requires ptr.Length == mult.Length + 1 && ptr != mult
    modifies ptr
    ensures mp == Expand(mult[..]) && ptr[..] == Ptrs(mult[..])
  {
    mp := [];
    ptr[0] := 0;
    var i := 0;
    while i < mult.Length
      invariant 0 <= i <= mult.Length
      invariant mp == Expand(mult[..i])
      invariant forall k :: 0 <= k <= i ==> ptr[k] == Total(mult[..k])
    {
      var j := 0;
      while j < mult[i]
        invariant 0 <= j && (j <= mult[i] || j == 0)
        invariant mp == Expand(mult[..i]) + seq(j, _ => i)
      {
        mp := mp + [i];
        j := j + 1;
      }
      assert mult[..i + 1][..i] == mult[..i];
      ptr[i + 1] := |mp|;
      i := i + 1;
    }
    assert mult[..mult.Length] == mult[..];
  }

  /** One side of computemult: tally the map into the multiplicities, then rebuild the pointers. */
  method FillMults(mp: seq<int>, mult: array<int>, ptr: array<int>)
    requires ptr.Length == mult.Length + 1 && ptr != mult
    requires InRange(mp, mult.Length)
    modifies mult, ptr
    ensures mult[..] == Tally(mp, mult.Length) && ptr[..] == Ptrs(mult[..])
  {
    for i := 0 to mult.Length
      invariant forall k :: 0 <= k < i ==> mult[k] == 0
    {
      mult[i] := 0;
    }
    for i := 0 to |mp|
      invariant mult[..] == Tally(mp[..i], mult.Length)
    {
      forall k | 0 <= k < mult.Length
        ensures Count(mp[..i + 1], k) == Count(mp[..i], k) + (if mp[i] == k then 1 else 0)
      {
        assert mp[..i + 1] == mp[..i] + [mp[i]];
        CountSnoc(mp[..i], mp[i], k);
      }
      mult[mp[i]] := mult[mp[i]] + 1;
    }
    assert mp[..|mp|] == mp;
    ptr[0] := 0;
    for i := 0 to mult.Length
      invariant mult[..] == Tally(mp, mult.Length)
      invariant forall k :: 0 <= k <= i ==> ptr[k] == Total(mult[..k])
    {
      assert mult[..i + 1] == mult[..i] + [mult[i]];
      TotalAppend(mult[..i], mult[i]);
      ptr[i + 1] := ptr[i] + mult[i];
    }
  }

  /** One side of a new shape: multiplicities all 1, then computemaps. */
  method NewUnitSide(len: nat) returns (mult: array<int>, ptr: array<int>, mp: seq<int>)
    ensures fresh(mult) && fresh(ptr) && mult != ptr
    ensures mult.Length == len && mult[..] == Ones(len)
    ensures ptr[..] == Iota(len + 1) && mp == Iota(len)
    ensures Synced(Side(mult[..], ptr[..], mp)) && WellFormed(Side(mult[..], ptr[..], mp))
  {
    mult := new int[len](_ => 1);
    ptr := new int[len + 1];
    mp := FillMaps(mult, ptr);
    assert mult[..] == Ones(len);
    UnitMultiplicities(len);
    RebuildFromMultSynced(Side(mult[..], ptr[..], mp));
  }

  // ------------------------------------------------------------------
  // The shape object
  // ------------------------------------------------------------------

  class AuctShape {
    var n: int
    var m: int
    var nnz: int
    var computeFlag: int
    var rowmap: seq<int>
    var colmap: seq<int>
    var rowmult: array<int>
    var colmult: array<int>
    var rowptr: array<int>
    var colptr: array<int>

    ghost function Model(): ShapeState
      reads this, rowmult, colmult, rowptr, colptr
    {
      ShapeState(Side(rowmult[..], rowptr[..], rowmap), Side(colmult[..], colptr[..], colmap), nnz, computeFlag)
    }

    ghost predicate Valid()
      reads this, rowmult, colmult, rowptr, colptr
    {
      && rowmult != colmult && rowmult != rowptr && rowmult != colptr
      && colmult != rowptr && colmult != colptr && rowptr != colptr
      && rowmult.Length == n && colmult.Length == m
      && WellFormed(Model().rows) && WellFormed(Model().cols)
      && 0 <= computeFlag <= 2
      && (computeFlag == 0 ==> Synced(Model().rows) && Synced(Model().cols))
    }

    /** AuctShape(nrows, mcols, nnz): every multiplicity 1, maps and pointers the identity, clean. */
    constructor (nrows: nat, mcols: nat, numNonZero: int)
      ensures Valid() && fresh(rowmult) && fresh(colmult) && fresh(rowptr) && fresh(colptr)
      ensures n == nrows && m == mcols && nnz == numNonZero && computeFlag == 0
      ensures rowmult[..] == Ones(nrows) && colmult[..] == Ones(mcols)
      ensures rowmap == Iota(nrows) && rowptr[..] == Iota(nrows + 1)
      ensures colmap == Iota(mcols) && colptr[..] == Iota(mcols + 1)
    {
      var rm, rp, rmap := NewUnitSide(nrows);
      var cm, cp, cmap := NewUnitSide(mcols);
      n, m, nnz, computeFlag := nrows, mcols, numNonZero, 0;
      rowmult, colmult, rowptr, colptr := rm, cm, rp, cp;
      rowmap, colmap := rmap, cmap;
    }

    /** AuctShape(Vpay): n rows, as many columns as the longest row, nnz 0, every multiplicity 1. */
    constructor FromPayoff(vpay: seq<seq<int>>)
      ensures Valid() && fresh(rowmult) && fresh(colmult) && fresh(rowptr) && fresh(colptr)
      ensures n == |vpay| && m == MaxLen(vpay) && nnz == 0 && computeFlag == 0
      ensures rowmult[..] == Ones(n) && colmult[..] == Ones(m)
      ensures rowmap == Iota(n) && colmap == Iota(m)
    {
      var longest := 0;
      var i := 0;
      while i < |vpay|
        invariant 0 <= i <= |vpay|
        invariant longest == MaxLen(vpay[..i])
      {
        assert vpay[..i + 1][..i] == vpay[..i];
        if |vpay[i]| > longest {
          longest := |vpay[i]|;
        }
        i := i + 1;
      }
      assert vpay[..|vpay|] == vpay;
      var rm, rp, rmap := NewUnitSide(|vpay|);
      var cm, cp, cmap := NewUnitSide(longest);
      n, m, nnz, computeFlag := |vpay|, longest, 0, 0;
      rowmult, colmult, rowptr, colptr := rm, cm, rp, cp;
      rowmap, colmap := rmap, cmap;
    }

    /** get_rowptr: the pointer for i in [0, n], otherwise -1. */
    function GetRowPtr(i: int): (p: int)
      reads this, rowmult, colmult, rowptr, colptr
      requires Valid()
      ensures !(0 <= i <= n) ==> p == -1
      ensures computeFlag == 0 && 0 <= i <= n ==> p == Total(rowmult[..i])
    {
      if 0 <= i < n + 1 then rowptr[i] else -1
    }

    /** get_colptr: the pointer for i in [0, m], otherwise -1. */
    function GetColPtr(i: int): (p: int)
      reads this, rowmult, colmult, rowptr, colptr
      requires Valid()
      ensures !(0 <= i <= m) ==> p == -1
      ensures computeFlag == 0 && 0 <= i <= m ==> p == Total(colmult[..i])
    {
      if 0 <= i < m + 1 then colptr[i] else -1
    }

    /** get_rowmult: the multiplicity for i in [0, n), otherwise -1. */
    function GetRowMult(i: int): (k: int)
      reads this, rowmult, colmult, rowptr, colptr
      requires Valid()
      ensures !(0 <= i < n) ==> k == -1
      ensures 0 <= i < n ==> k == rowmult[i]
      ensures computeFlag == 0 && 0 <= i < n ==> Clamp(k) == Count(rowmap, i)
    {
      if 0 <= i < n then rowmult[i] else -1
    }

    /** get_colmult: the multiplicity for i in [0, m), otherwise -1. */
    function GetColMult(i: int): (k: int)
      reads this, rowmult, colmult, rowptr, colptr
      requires Valid()
      ensures !(0 <= i < m) ==> k == -1
      ensures 0 <= i < m ==> k == colmult[i]
      ensures computeFlag == 0 && 0 <= i < m ==> Clamp(k) == Count(colmap, i)
    {
      if 0 <= i < m then colmult[i] else -1
    }

    /** get_rowmap: the compressed row of expanded row i for i in [0, rowptr[n]), otherwise -1. */
    function GetRowMap(i: int): (r: int)
      reads this, rowmult, colmult, rowptr, colptr
      requires Valid()
      ensures !(0 <= i < rowptr[n]) ==> r == -1
      ensures computeFlag == 0 ==> -1 <= r < n
    {
      if 0 <= i < rowptr[n] then rowmap[i] else -1
    }

    /** get_colmap: the compressed column of expanded column i for i in [0, colptr[m]), otherwise -1. */
    function GetColMap(i: int): (c: int)
      reads this, rowmult, colmult, rowptr, colptr
      requires Valid()
      ensures !(0 <= i < colptr[m]) ==> c == -1
      ensures computeFlag == 0 ==> -1 <= c < m
    {
      if 0 <= i < colptr[m] then colmap[i] else -1
    }

    method SetNnz(k: int)
      requires Valid()
      modifies this`nnz
      ensures Valid() && nnz == k
    {
      nnz := k;
    }

    /** set_rowmult: an unchecked write of one multiplicity; the maps become stale. */
    method SetRowMult(i: int, mlt: int)
      requires Valid() && 0 <= i < n
      modifies rowmult, this`computeFlag
      ensures Valid() && computeFlag == 1
      ensures rowmult[..] == old(rowmult[..])[i := mlt]
    {
      rowmult[i] := mlt;
      computeFlag := 1;
    }

    /** set_colmult: an unchecked write of one multiplicity; the maps become stale. */
    method SetColMult(i: int, mlt: int)
      requires Valid() && 0 <= i < m
      modifies colmult, this`computeFlag
      ensures Valid() && computeFlag == 1
      ensures colmult[..] == old(colmult[..])[i := mlt]
    {
      colmult[i] := mlt;
      computeFlag := 1;
    }

    /** set_rowmap: an unchecked write of one map entry; the multiplicities become stale. */
    method SetRowMap(i: int, mp: int)
      requires Valid() && 0 <= i < |rowmap|
      modifies this`rowmap, this`computeFlag
      ensures Valid() && computeFlag == 2
      ensures rowmap == old(rowmap)[i := mp]
    {
      rowmap := rowmap[i := mp];
      computeFlag := 2;
    }

    /** set_colmap: an unchecked write of one map entry; the multiplicities become stale. */
    method SetColMap(i: int, mp: int)
      requires Valid() && 0 <= i < |colmap|
      modifies this`colmap, this`computeFlag
      ensures Valid() && computeFlag == 2
      ensures colmap == old(colmap)[i := mp]
    {
      colmap := colmap[i := mp];
      computeFlag := 2;
    }

    /** blank_rowmult: every row multiplicity back to 1; the maps become stale. */
    method BlankRowMult()
      requires Valid()
      modifies rowmult, this`computeFlag
      ensures Valid() && computeFlag == 1
      ensures rowmult[..] == Ones(n)
    {
      computeFlag := 1;
      for i := 0 to n
        invariant computeFlag == 1
      invariant forall k :: 0 <= k < i ==> rowmult[k] == 1
      {
        rowmult[i] := 1;
      }
    }

    /** blank_colmult: every column multiplicity back to 1; the maps become stale. */
    method BlankColMult()
      requires Valid()
      modifies colmult, this`computeFlag
      ensures Valid() && computeFlag == 1
      ensures colmult[..] == Ones(m)
    {
      computeFlag := 1;
      for i := 0 to m
        invariant computeFlag == 1
      invariant forall k :: 0 <= k < i ==> colmult[k] == 1
      {
        colmult[i] := 1;
      }
    }

    /** computemaps: rebuild maps and pointers from the multiplicities. */
    method ComputeMaps()
      requires Valid()
      modifies this`rowmap, this`colmap, this`computeFlag, rowptr, colptr
      ensures Valid()
      ensures Model() == ShapeState(RebuildFromMult(old(Model()).rows), RebuildFromMult(old(Model()).cols), nnz, 0)
    {
      ghost var st := Model();
      rowmap := FillMaps(rowmult, rowptr);
      ghost var rows := Side(rowmult[..], rowptr[..], rowmap);
      assert rows == RebuildFromMult(st.rows);
      colmap := FillMaps(colmult, colptr);
      ghost var cols := Side(colmult[..], colptr[..], colmap);
      assert cols == RebuildFromMult(st.cols);
      computeFlag := 0;
      assert Model() == ShapeState(rows, cols, nnz, 0);
      RebuildFromMultSynced(st.rows);
      RebuildFromMultSynced(st.cols);
    }

    /** computemult: rebuild multiplicities and pointers from the maps, whose entries must be valid indices. */
    method ComputeMult()
      requires Valid()
      requires InRange(rowmap, n) && InRange(colmap, m)
      modifies this`computeFlag, rowmult, colmult, rowptr, colptr
      ensures Valid()
      ensures Model() == ShapeState(RebuildFromMap(old(Model()).rows), RebuildFromMap(old(Model()).cols), nnz, 0)
    {
      ghost var st := Model();
      FillMults(rowmap, rowmult, rowptr);
      ghost var rows := Side(rowmult[..], rowptr[..], rowmap);
      assert rows == RebuildFromMap(st.rows);
      FillMults(colmap, colmult, colptr);
      ghost var cols := Side(colmult[..], colptr[..], colmap);
      assert cols == RebuildFromMap(st.cols);
      computeFlag := 0;
      assert Model() == ShapeState(rows, cols, nnz, 0);
      RebuildFromMapSynced(st.rows);
      RebuildFromMapSynced(st.cols);
    }

    /** ifcompute: recompute from whichever side was changed last. */
    method IfComputeNow()
      requires Valid()
      requires computeFlag == 2 ==> InRange(rowmap, n) && InRange(colmap, m)
      modifies this`rowmap, this`colmap, this`computeFlag, rowmult, colmult, rowptr, colptr
      ensures Valid() && computeFlag == 0
      ensures Model() == IfCompute(old(Model()))
    {
      if computeFlag == 1 {
        ComputeMaps();
      } else if computeFlag == 2 {
        ComputeMult();
      }
    }

    /** nfullrows: the number of expanded rows, after bringing the shape up to date. */
    method NFullRows() returns (k: int)
      requires Valid()
      requires computeFlag == 2 ==> InRange(rowmap, n) && InRange(colmap, m)
      modifies this`rowmap, this`colmap, this`computeFlag, rowmult, colmult, rowptr, colptr
      ensures Valid() && computeFlag == 0
      ensures Model() == IfCompute(old(Model()))
      ensures k == |rowmap| && k == Total(rowmult[..])
    {
      IfComputeNow();
      SyncedSize(Model().rows);
      k := rowptr[n];
    }

    /** nfullcols: the number of expanded columns, after bringing the shape up to date. */
    method NFullCols() returns (k: int)
      requires Valid()
      requires computeFlag == 2 ==> InRange(rowmap, n) && InRange(colmap, m)
      modifies this`rowmap, this`colmap, this`computeFlag, rowmult, colmult, rowptr, colptr
      ensures Valid() && computeFlag == 0
      ensures Model() == IfCompute(old(Model()))
      ensures k == |colmap| && k == Total(colmult[..])
    {
      IfComputeNow();
      SyncedSize(Model().cols);
      k := colptr[m];
    }

    /** transpose: rows and columns exchange every field; nnz and the flag stay. */
    method Transpose()
      requires Valid()
      modifies this`n, this`m, this`rowmult, this`colmult, this`rowptr, this`colptr, this`rowmap, this`colmap
      ensures Valid()
      ensures Model() == Transposed(old(Model()))
      ensures rowmult == old(colmult) && colmult == old(rowmult) && rowptr == old(colptr) && colptr == old(rowptr)
    {
      n, m := m, n;
      rowmult, colmult := colmult, rowmult;
      rowptr, colptr := colptr, rowptr;
      rowmap, colmap := colmap, rowmap;
    }
  }
}
