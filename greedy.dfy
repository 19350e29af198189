/**
 * greedy_fill (AuctAlg.cpp): after a timed-out auction, each unassigned
 * full row in order takes a free full column of the payoff entry with the
 * largest value that still has one, while fewer than min(Nf, Mf) pairs
 * exist. Prices and profits are not touched, so the model is a function
 * on the association alone.
 */
module Greedy {
  import opened Assoc
  import opened Payoff
  import opened Params
  import opened Pricing
  import opened SingleBids
  import opened MultiBids

  /** The running choice of the scan: the best value so far and its free column (-1 for none). */
  datatype Choice = Choice(bid: int, col: int)

  /** The first free full column of [lo, hi), -1 when all are held. */
  function FirstFree(p: Pairing, lo: int, hi: int): (c: int)
    ensures c == -1 || (lo <= c < hi && LookupRow(p, c) == -1)
    decreases hi - lo
  {
    if hi <= lo then -1
    else if LookupRow(p, lo) == -1 then lo
    else FirstFree(p, lo + 1, hi)
  }

  /** The scan of the first k entries of a payoff row, starting from Choice(neg, -1). */
  function Pick(p: Pairing, row: seq<Entry>, k: nat, colptr: seq<int>, neg: int): (ch: Choice)
    requires k <= |row| && RowColsBelow(row, |colptr| - 1)
    decreases k
  {
    if k == 0 then Choice(neg, -1)
    else
      var ch := Pick(p, row, k - 1, colptr, neg);
      var e := row[k - 1];
      if ch.bid < e.val then
        var f := FirstFree(p, colptr[e.col], colptr[e.col + 1]);
        if f != -1 then Choice(e.val, f) else ch
      else ch
  }

  /** Full row i's turn: an unassigned row takes the chosen column, if any. */
  function FillRow(p: Pairing, i: int, a: seq<seq<Entry>>, rowmap: seq<int>, colptr: seq<int>, neg: int): Pairing
    requires 0 <= i < |rowmap| && 0 <= rowmap[i] < |a| && ColsBelow(a, |colptr| - 1)
  {
    if LookupCol(p, i) != -1 then p
    else
      assert RowColsBelow(a[rowmap[i]], |colptr| - 1);
      var c := Pick(p, a[rowmap[i]], |a[rowmap[i]]|, colptr, neg).col;
      if c > -1 then AddPair(p, i, c) else p
  }

  /** Every full row in [0, nf) maps to a payoff row. */
  predicate MapsInto(rowmap: seq<int>, nf: int, n: int)
  {
    0 <= nf <= |rowmap| && forall i :: 0 <= i < nf ==> 0 <= rowmap[i] < n
  }

  /** The pass over full rows [0, k), each taking its turn only while fewer than minassoc pairs exist. */
  function FillUpto(p: Pairing, k: nat, a: seq<seq<Entry>>, rowmap: seq<int>, colptr: seq<int>, minassoc: int, neg: int): Pairing
    requires MapsInto(rowmap, k, |a|) && ColsBelow(a, |colptr| - 1)
    decreases k
  {
    if k == 0 then p
    else
      var pre := FillUpto(p, k - 1, a, rowmap, colptr, minassoc, neg);
      if pre.nnz < minassoc then FillRow(pre, k - 1, a, rowmap, colptr, neg) else pre
  }

  /** The whole pass: rows 0 .. nf-1, stopping at min(nf, mf) pairs. */
  function Fill(p: Pairing, a: seq<seq<Entry>>, rowmap: seq<int>, colptr: seq<int>, nf: int, mf: int, neg: int): Pairing
    requires MapsInto(rowmap, nf, |a|) && ColsBelow(a, |colptr| - 1)
  {
    FillUpto(p, nf, a, rowmap, colptr, if nf < mf then nf else mf, neg)
  }

  // ------------------------------------------------------------------
  // Properties
  // ------------------------------------------------------------------

  /**
   * What the scan chooses: a column -1 means no entry above neg has a
   * free column; otherwise the column is the first free column of an
   * entry whose value is the largest among entries with a free column,
   * and no earlier such entry has that value.
   */
  lemma {:induction false} PickMeaning(p: Pairing, row: seq<Entry>, k: nat, colptr: seq<int>, neg: int)
    requires k <= |row| && RowColsBelow(row, |colptr| - 1)
    ensures var ch := Pick(p, row, k, colptr, neg);
      && neg <= ch.bid
      && (ch.col == -1 ==> ch.bid == neg)
      && (forall i :: 0 <= i < k && FirstFree(p, colptr[row[i].col], colptr[row[i].col + 1]) != -1 ==> row[i].val <= ch.bid)
      && (ch.col != -1 ==>
            exists e :: (&& 0 <= e < k
              && ch.col == FirstFree(p, colptr[row[e].col], colptr[row[e].col + 1])
              && ch.bid == row[e].val
              && forall i :: 0 <= i < e && FirstFree(p, colptr[row[i].col], colptr[row[i].col + 1]) != -1 ==> row[i].val < ch.bid))
    decreases k
  {
    if k > 0 {
      PickMeaning(p, row, k - 1, colptr, neg);
    }
  }

  /** The chosen column is free. */
  lemma PickFree(p: Pairing, row: seq<Entry>, colptr: seq<int>, neg: int)
    requires RowColsBelow(row, |colptr| - 1)
    ensures var c := Pick(p, row, |row|, colptr, neg).col;
      c == -1 || LookupRow(p, c) == -1
  {
    PickMeaning(p, row, |row|, colptr, neg);
  }

  /**
   * A row's turn never evicts: it leaves every existing pair in place and
   * either changes nothing or adds exactly one pair for row i, with a
   * column that was free.
   */
  lemma FillRowAdds(p: Pairing, i: int, a: seq<seq<Entry>>, rowmap: seq<int>, colptr: seq<int>, neg: int)
    requires Consistent(p) && 0 <= i < NRows(p)
    requires 0 <= i < |rowmap| && 0 <= rowmap[i] < |a| && ColsBelow(a, |colptr| - 1) && GroupsWithin(colptr, NCols(p))
    ensures var q := FillRow(p, i, a, rowmap, colptr, neg);
      && Consistent(q) && NRows(q) == NRows(p) && NCols(q) == NCols(p)
      && (forall r :: LookupCol(p, r) != -1 ==> LookupCol(q, r) == LookupCol(p, r))
      && (q == p || (LookupCol(p, i) == -1 && LookupRow(p, LookupCol(q, i)) == -1 && LookupCol(q, i) != -1 && q.nnz == p.nnz + 1))
  {
    if LookupCol(p, i) == -1 {
      var row := a[rowmap[i]];
      assert RowColsBelow(row, |colptr| - 1);
      var c := Pick(p, row, |row|, colptr, neg).col;
      PickFree(p, row, colptr, neg);
      if c > -1 {
        PickMeaning(p, row, |row|, colptr, neg);
        assert c < NCols(p);
        AddCorrect(p, i, c);
      }
    }
  }

  /** What the pass keeps: a consistent association of the same size in which every earlier pair survives. */
  ghost predicate FillKeeps(p: Pairing, q: Pairing)
  {
    && Consistent(q) && NRows(q) == NRows(p) && NCols(q) == NCols(p)
    && (forall r :: LookupCol(p, r) != -1 ==> LookupCol(q, r) == LookupCol(p, r))
    && q.nnz >= p.nnz
  }

  lemma FillKeepsTrans(p: Pairing, q: Pairing, r: Pairing)
    requires FillKeeps(p, q) && FillKeeps(q, r)
    ensures FillKeeps(p, r)
  {
  }

  /**
   * The pass never evicts and never removes a pair, so the count of pairs
   * never decreases, and it stops adding once min(Nf, Mf) pairs exist:
   * the count ends at most at the larger of its start and minassoc.
   */
  lemma {:induction false} FillMonotone(p: Pairing, k: nat, a: seq<seq<Entry>>, rowmap: seq<int>, colptr: seq<int>, minassoc: int, neg: int)
    requires Consistent(p) && k <= NRows(p)
    requires MapsInto(rowmap, k, |a|) && ColsBelow(a, |colptr| - 1) && GroupsWithin(colptr, NCols(p))
    ensures var q := FillUpto(p, k, a, rowmap, colptr, minassoc, neg);
      && FillKeeps(p, q)
      && q.nnz <= if p.nnz < minassoc then minassoc else p.nnz
    decreases k
  {
    if k > 0 {
      var pre := FillUpto(p, k - 1, a, rowmap, colptr, minassoc, neg);
      assert FillKeeps(p, pre) && pre.nnz <= if p.nnz < minassoc then minassoc else p.nnz by {
        FillMonotone(p, k - 1, a, rowmap, colptr, minassoc, neg);
      }
      if pre.nnz < minassoc {
        FillRowAdds(pre, k - 1, a, rowmap, colptr, neg);
        FillKeepsTrans(p, pre, FillRow(pre, k - 1, a, rowmap, colptr, neg));
      }
    }
  }

  /** Once minassoc pairs exist the pass changes nothing more: stopping the loop there gives the same result. */
  lemma {:induction false} FillStops(p: Pairing, k: nat, k': nat, a: seq<seq<Entry>>, rowmap: seq<int>, colptr: seq<int>, minassoc: int, neg: int)
    requires k <= k' && MapsInto(rowmap, k', |a|) && ColsBelow(a, |colptr| - 1)
    requires FillUpto(p, k, a, rowmap, colptr, minassoc, neg).nnz >= minassoc
    ensures FillUpto(p, k', a, rowmap, colptr, minassoc, neg) == FillUpto(p, k, a, rowmap, colptr, minassoc, neg)
    decreases k' - k
  {
    if k < k' {
      FillStops(p, k, k' - 1, a, rowmap, colptr, minassoc, neg);
    }
  }

  // ------------------------------------------------------------------
  // The pass on an AuctAssoc
  // ------------------------------------------------------------------

  /** The search for the first free full column of [lo, hi); the loop ends early at the first one. */
  method FindFree(s: AuctAssoc, lo: int, hi: int) returns (c: int)
    requires s.Valid()
    ensures c == FirstFree(s.assoc.Model(), lo, hi)
  {
    c := -1;
    var k := lo;
    while k < hi
      invariant lo <= k && (k <= hi || hi <= lo)
      invariant FirstFree(s.assoc.Model(), lo, hi) == FirstFree(s.assoc.Model(), k, hi)
      decreases hi - k
    {
      if s.assoc.Row(k) == -1 {
        c := k;
        return;
      }
      k := k + 1;
    }
  }

  /** The scan of one payoff row for the best entry with a free column. */
  method ScanPick(s: AuctAssoc, row: seq<Entry>, colptr: seq<int>, neg: int) returns (ch: Choice)
    requires s.Valid() && RowColsBelow(row, |colptr| - 1)
    ensures ch == Pick(s.assoc.Model(), row, |row|, colptr, neg)
  {
    ch := Choice(neg, -1);
    var j := 0;
    while j < |row|
      invariant 0 <= j <= |row|
      invariant ch == Pick(s.assoc.Model(), row, j, colptr, neg)
    {
      var e := row[j];
      if ch.bid < e.val {
        var f := FindFree(s, colptr[e.col], colptr[e.col + 1]);
        if f != -1 {
          ch := Choice(e.val, f);
        }
      }
      j := j + 1;
    }
  }

  /** tr[k] is the association after the first k rows' turns. */
  ghost predicate FillAt(tr: seq<Pairing>, k: int, p0: Pairing, a: seq<seq<Entry>>, rowmap: seq<int>, colptr: seq<int>, minassoc: int, neg: int)
  {
    && 0 <= k < |tr| && MapsInto(rowmap, k, |a|) && ColsBelow(a, |colptr| - 1)
    && tr[k] == FillUpto(p0, k, a, rowmap, colptr, minassoc, neg)
  }

  lemma FillTrace(p0: Pairing, nf: int, a: seq<seq<Entry>>, rowmap: seq<int>, colptr: seq<int>, minassoc: int, neg: int) returns (tr: seq<Pairing>)
    requires MapsInto(rowmap, nf, |a|) && ColsBelow(a, |colptr| - 1)
    ensures |tr| == nf + 1 && tr[0] == p0
    ensures forall k :: 0 <= k <= nf ==> FillAt(tr, k, p0, a, rowmap, colptr, minassoc, neg)
  {
    tr := seq(nf + 1, k requires 0 <= k <= nf => FillUpto(p0, k, a, rowmap, colptr, minassoc, neg));
  }

  /** Where the loop stops, at the last row or with minassoc pairs, the trace holds the whole pass. */
  lemma FillDone(p0: Pairing, tr: seq<Pairing>, i: int, a: seq<seq<Entry>>, rowmap: seq<int>, colptr: seq<int>, nf: int, mf: int, minassoc: int, neg: int)
    requires MapsInto(rowmap, nf, |a|) && ColsBelow(a, |colptr| - 1) && 0 <= i <= nf
    requires minassoc == if nf < mf then nf else mf
    requires |tr| == nf + 1 && forall k :: 0 <= k <= nf ==> FillAt(tr, k, p0, a, rowmap, colptr, minassoc, neg)
    requires i == nf || tr[i].nnz >= minassoc
    ensures tr[i] == Fill(p0, a, rowmap, colptr, nf, mf, neg)
  {
    assert FillAt(tr, i, p0, a, rowmap, colptr, minassoc, neg);
    if i < nf {
      FillStops(p0, i, nf, a, rowmap, colptr, minassoc, neg);
    }
  }

  /** Full row i's turn, taken while fewer than minassoc pairs exist. */
  method FillTurn(a: seq<seq<Entry>>, rowmap: seq<int>, colptr: seq<int>, i: int, nf: int, s: AuctAssoc, ghost p0: Pairing, ghost tr: seq<Pairing>, minassoc: int, neg: int)
    requires s.Valid() && 0 <= i < nf && s.assoc.Model().nnz < minassoc
    requires |tr| == nf + 1 && forall k :: 0 <= k <= nf ==> FillAt(tr, k, p0, a, rowmap, colptr, minassoc, neg)
    requires s.assoc.Model() == tr[i]
    modifies s.assoc`nnz, s.assoc.rowassign, s.assoc.colassign
    ensures s.Valid()
    ensures s.assoc.Model() == tr[i + 1]
  {
    assert FillAt(tr, i, p0, a, rowmap, colptr, minassoc, neg) && FillAt(tr, i + 1, p0, a, rowmap, colptr, minassoc, neg);
    assert 0 <= rowmap[i] < |a|;
    ghost var pre := s.assoc.Model();
    if s.assoc.Col(i) == -1 {
      assert RowColsBelow(a[rowmap[i]], |colptr| - 1);
      var ch := ScanPick(s, a[rowmap[i]], colptr, neg);
      if ch.col > -1 {
        var _ := s.assoc.Add(i, ch.col);
      }
    }
    assert s.assoc.Model() == FillRow(pre, i, a, rowmap, colptr, neg);
  }

  /**
   * greedy_fill: full rows 0 .. nf-1 in order while fewer than
   * min(nf, mf) pairs exist. nf and mf are the shape's full row and
   * column counts, rowmap its row map and colptr its column pointers.
   */
  method GreedyFill(a: seq<seq<Entry>>, rowmap: seq<int>, colptr: seq<int>, nf: int, mf: int, s: AuctAssoc, prms: AuctParm)
    requires s.Valid() && MapsInto(rowmap, nf, |a|) && ColsBelow(a, |colptr| - 1)
    modifies s.assoc`nnz, s.assoc.rowassign, s.assoc.colassign
    ensures s.Valid()
    ensures s.assoc.Model() == Fill(old(s.assoc.Model()), a, rowmap, colptr, nf, mf, -prms.maxint)
  {
    var minassoc := if nf < mf then nf else mf;
    var neg := -prms.maxint;
    ghost var p0 := s.assoc.Model();
    ghost var tr := FillTrace(p0, nf, a, rowmap, colptr, minassoc, neg);
    var i := 0;
    var full := s.assoc.NAssoc() >= minassoc;
    while i < nf && !full
      invariant 0 <= i <= nf
      invariant s.Valid()
      invariant s.assoc.Model() == tr[i]
      invariant full == (tr[i].nnz >= minassoc)
    {
      FillTurn(a, rowmap, colptr, i, nf, s, p0, tr, minassoc, neg);
      i := i + 1;
      full := s.assoc.NAssoc() >= minassoc;
    }
    FillDone(p0, tr, i, a, rowmap, colptr, nf, mf, minassoc, neg);
  }
}
