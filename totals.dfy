/**
 * totalpay (AuctAlg.h), the template over the original payoff: the sum,
 * over the expanded rows, of Val at the row's compressed row and the
 * compressed column of the expanded column the row holds; a row that
 * holds no column, or a column the shape cannot map, adds nothing.
 */
module Totals {
  import opened Assoc
  import opened Shape
  import opened Pricing
  import Driver

  /** Val covers the n-by-m original payoff: Val[row][col] exists for every row < n and col < m. */
  ghost predicate Covers(val: seq<seq<int>>, n: int, m: int)
  {
    n <= |val| && forall r :: 0 <= r < n ==> m <= |val[r]|
  }

  /** A bounds-checked map lookup, as get_rowmap and get_colmap do it: -1 outside the map. */
  function MapAt(mp: seq<int>, i: int): (v: int)
    ensures v == -1 || v in mp
  {
    if 0 <= i < |mp| then mp[i] else -1
  }

  /** What expanded row k adds: the payoff of its row and its column's compressed column, 0 when it has none. */
  function Earned(val: seq<seq<int>>, n: int, m: int, rowmap: seq<int>, colmap: seq<int>, p: Pairing, k: int): int
    requires Covers(val, n, m) && InRange(rowmap, n) && InRange(colmap, m) && 0 <= k < |rowmap|
  {
    var col := MapAt(colmap, LookupCol(p, k));
    if col == -1 then 0 else val[rowmap[k]][col]
  }

  /** The running total of totalpay after the first k expanded rows. */
  function PayUpTo(val: seq<seq<int>>, n: int, m: int, rowmap: seq<int>, colmap: seq<int>, p: Pairing, k: nat): int
    requires Covers(val, n, m) && InRange(rowmap, n) && InRange(colmap, m) && k <= |rowmap|
  {
    if k == 0 then 0 else PayUpTo(val, n, m, rowmap, colmap, p, k - 1) + Earned(val, n, m, rowmap, colmap, p, k - 1)
  }

  /** totalpay on a shape brought up to date by ifcompute and an association. */
  function TotalPay(val: seq<seq<int>>, up: ShapeState, p: Pairing): int
    requires Synced(up.rows) && Synced(up.cols) && Covers(val, |up.rows.mult|, |up.cols.mult|)
  {
    PayUpTo(val, |up.rows.mult|, |up.cols.mult|, up.rows.index, up.cols.index, p, |up.rows.index|)
  }

  /** The association with expanded row j holding no column. */
  function Unassigned(p: Pairing, j: nat): Pairing
    requires j < |p.colOfRow|
  {
    Pairing(p.colOfRow[j := -1], p.rowOfCol, p.nnz)
  }

  /**
   * A blank association totals 0: with no row holding a column, every
   * expanded row adds nothing.
   */
  lemma {:induction false} BlankPaysNothing(val: seq<seq<int>>, n: int, m: int, rowmap: seq<int>, colmap: seq<int>,
                                            nr: nat, nc: nat, k: nat)
    requires Covers(val, n, m) && InRange(rowmap, n) && InRange(colmap, m) && k <= |rowmap|
    ensures PayUpTo(val, n, m, rowmap, colmap, Empty(nr, nc), k) == 0
  {
    if k > 0 {
      BlankPaysNothing(val, n, m, rowmap, colmap, nr, nc, k - 1);
    }
  }

  /**
   * Each row adds exactly its own payoff: unassigning expanded row j
   * lowers the total by what j earned, and j then adds 0.
   */
  lemma {:induction false} UnassignedPaysNothing(val: seq<seq<int>>, n: int, m: int, rowmap: seq<int>, colmap: seq<int>,
                                                 p: Pairing, j: nat, k: nat)
    requires Covers(val, n, m) && InRange(rowmap, n) && InRange(colmap, m) && k <= |rowmap|
    requires j < |p.colOfRow| && j < |rowmap|
    ensures Earned(val, n, m, rowmap, colmap, Unassigned(p, j), j) == 0
    ensures PayUpTo(val, n, m, rowmap, colmap, p, k)
         == PayUpTo(val, n, m, rowmap, colmap, Unassigned(p, j), k)
            + (if j < k then Earned(val, n, m, rowmap, colmap, p, j) else 0)
  {
    if k > 0 {
      UnassignedPaysNothing(val, n, m, rowmap, colmap, p, j, k - 1);
      if k - 1 != j {
        assert LookupCol(Unassigned(p, j), k - 1) == LookupCol(p, k - 1);
      }
    }
  }

  /** With a non-negative payoff the total is non-negative and at most the sum of every row's best payoff. */
  lemma {:induction false} TotalBounds(val: seq<seq<int>>, n: int, m: int, rowmap: seq<int>, colmap: seq<int>,
                                       p: Pairing, k: nat, top: int)
    requires Covers(val, n, m) && InRange(rowmap, n) && InRange(colmap, m) && k <= |rowmap|
    requires 0 <= top && forall r, c :: 0 <= r < n && 0 <= c < m ==> 0 <= val[r][c] <= top
    ensures 0 <= PayUpTo(val, n, m, rowmap, colmap, p, k) <= k * top
  {
    if k > 0 {
      TotalBounds(val, n, m, rowmap, colmap, p, k - 1, top);
      var c := LookupCol(p, k - 1);
      if 0 <= c < |colmap| {
        assert 0 <= colmap[c] < m;
      }
      assert k * top == (k - 1) * top + top;
    }
  }

  /**
   * totalpay(Val, Sh, S): nfullrows() brings Sh up to date, then the loop
   * adds each expanded row's payoff. Val holds the original payoff.
   */
  method TotalPayOf(val: seq<seq<int>>, sh: AuctShape, s: AuctAssoc) returns (total: int)
    requires sh.Valid() && s.Valid() && Driver.Apart(sh, s)
    requires sh.computeFlag == 2 ==> InRange(sh.rowmap, sh.n) && InRange(sh.colmap, sh.m)
    requires Covers(val, sh.n, sh.m)
    modifies sh`rowmap, sh`colmap, sh`computeFlag, sh.rowmult, sh.colmult, sh.rowptr, sh.colptr
    ensures sh.Valid() && sh.Model() == IfCompute(old(sh.Model()))
    ensures total == TotalPay(val, sh.Model(), s.assoc.Model())
  {
    var k := sh.NFullRows();
    total := SumRows(val, sh, s, k);
  }

  /** The loop of totalpay over the nfullrows() = k expanded rows of an up-to-date shape. */
  method SumRows(val: seq<seq<int>>, sh: AuctShape, s: AuctAssoc, k: int) returns (total: int)
    requires sh.Valid() && sh.computeFlag == 0 && s.Valid() && k == |sh.rowmap|
    requires Covers(val, sh.n, sh.m)
    ensures total == TotalPay(val, sh.Model(), s.assoc.Model())
  {
    total := 0;
    var fullrow := 0;
    while fullrow < k
      invariant 0 <= fullrow <= k
      invariant total == PayUpTo(val, sh.n, sh.m, sh.rowmap, sh.colmap, s.assoc.Model(), fullrow)
    {
      var row := sh.GetRowMap(fullrow);
      var col := sh.GetColMap(s.assoc.Col(fullrow));
      total := total + if col == -1 then 0 else val[row][col];
      fullrow := fullrow + 1;
    }
  }
}
