/**
 * The bidding cycles and the greedy fill of AuctAlg.cpp as methods on
 * an AuctAssoc, each proved against its value model. The payoff is the
 * auction's internal zero-based matrix, one sequence of entries per row;
 * the shape's group pointers and maps are passed as sequences.
 */
module Cycles {
  import opened Assoc
  import opened PriceModel
  import opened Payoff
  import opened Params
  import opened Pricing
  import opened SingleBids

  /** The insertion walk over the entries of one row, at the current prices. */
  method ScanTopTwo(row: seq<Entry>, s: AuctAssoc, neg: int) returns (t: Top)
    requires s.Valid() && RowColsBelow(row, s.assoc.ncols)
    ensures t == TopTwo(row, s.prices[..], neg)
  {
    t := Top(Offer(neg, -1), Offer(neg, -1));
    ghost var os := Offers(row, s.prices[..]);
    var k := 0;
    while k < |row|
      invariant 0 <= k <= |row|
      invariant t == Best2(os[..k], neg)
    {
      var cur := Offer(row[k].val - s.Price(row[k].col), row[k].col);
      assert os[..k + 1][..k] == os[..k];
      t := Insert2(t, cur);
      k := k + 1;
    }
    assert os[..|row|] == os;
  }

  /**
   * The bid itself: row r takes column j, whose price becomes p, and with
   * withProfit the row's profit becomes prof.
   */
  method Award(s: AuctAssoc, r: int, j: int, p: int, prof: int, withProfit: bool)
    requires s.Valid() && 0 <= j < s.assoc.ncols
    requires withProfit ==> 0 <= r < s.assoc.nrows
    modifies s.assoc`nnz, s.assoc.rowassign, s.assoc.colassign, s.prices, s.profits
    ensures s.Valid()
    ensures s.assoc.Model() == AddPair(old(s.assoc.Model()), r, j)
    ensures s.prices[..] == old(s.prices[..])[j := p]
    ensures s.profits[..] == if withProfit then old(s.profits[..])[r := prof] else old(s.profits[..])
  {
    var _ := s.assoc.Add(r, j);
    ghost var m1 := s.assoc.Model();
    s.SetPrice(j, p);
    if withProfit {
      s.SetProf(r, prof);
    }
    assert s.assoc.Model() == m1;
  }

  /** The winning bid of an unassigned row whose best offer is on column t.first.js. */
  method Outbid(row: seq<Entry>, r: int, s: AuctAssoc, eps: int, neg: int, withProfit: bool, t: Top)
    requires s.Valid() && RowColsBelow(row, s.assoc.ncols)
    requires withProfit ==> 0 <= r < s.assoc.nrows
    requires LookupCol(s.assoc.Model(), r) == -1
    requires t == TopTwo(row, s.prices[..], neg) && t.first.js != -1
    modifies s.assoc`nnz, s.assoc.rowassign, s.assoc.colassign, s.prices, s.profits
    ensures s.Valid()
    ensures s.State() == RowBid(old(s.State()), row, r, eps, neg, withProfit)
  {
    ghost var st := s.State();
    var j := t.first.js;
    var p := s.Price(j) + t.first.v - t.second.v + eps;
    Award(s, r, j, p, t.second.v - eps, withProfit);
    RowBidState(st, s.State(), row, r, eps, neg, withProfit, t, p);
  }

  /** One payoff row's turn in auct_cycle_SP1 (withProfit false) or auct_cycle_SP2 (withProfit true). */
  method BidRow(row: seq<Entry>, r: int, s: AuctAssoc, eps: int, neg: int, withProfit: bool)
    requires s.Valid() && RowColsBelow(row, s.assoc.ncols)
    requires withProfit ==> 0 <= r < s.assoc.nrows
    modifies s.assoc`nnz, s.assoc.rowassign, s.assoc.colassign, s.prices, s.profits
    ensures s.Valid()
    ensures s.State() == RowBid(old(s.State()), row, r, eps, neg, withProfit)
  {
    ghost var st := s.State();
    var held := s.assoc.Col(r);
    if held == -1 {
      var t := ScanTopTwo(row, s, neg);
      if t.first.js != -1 {
        Outbid(row, r, s, eps, neg, withProfit, t);
      } else {
        assert RowBid(st, row, r, eps, neg, withProfit) == st;
      }
    } else {
      assert RowBid(st, row, r, eps, neg, withProfit) == st;
    }
  }

  /** tr[k] is the state after the first k turns of the cycle. */
  ghost predicate AtTurn(tr: seq<AuctState>, k: int, st0: AuctState, a: seq<seq<Entry>>, eps: int, neg: int, withProfit: bool)
  {
    && 0 <= k < |tr| && k <= |a| && ColsBelow(a, |st0.prices|) && (withProfit ==> |a| <= |st0.profits|)
    && tr[k] == CycleUpto(st0, a, k, eps, neg, withProfit)
  }

  lemma Trace(st0: AuctState, a: seq<seq<Entry>>, eps: int, neg: int, withProfit: bool) returns (tr: seq<AuctState>)
    requires ColsBelow(a, |st0.prices|) && (withProfit ==> |a| <= |st0.profits|)
    ensures |tr| == |a| + 1 && tr[0] == st0
    ensures forall k :: 0 <= k <= |a| ==> AtTurn(tr, k, st0, a, eps, neg, withProfit)
  {
    tr := seq(|a| + 1, k requires 0 <= k <= |a| => CycleUpto(st0, a, k, eps, neg, withProfit));
  }

  /** Row i's turn inside a cycle, as a step of the cycle's fold. */
  method CycleTurn(a: seq<seq<Entry>>, i: int, s: AuctAssoc, ghost st0: AuctState, ghost tr: seq<AuctState>, eps: int, neg: int, withProfit: bool)
    requires 0 <= i < |a| && s.Valid() && ColsBelow(a, s.assoc.ncols) && s.assoc.ncols == |st0.prices|
    requires withProfit ==> |a| <= s.assoc.nrows == |st0.profits|
    requires |tr| == |a| + 1 && forall k :: 0 <= k <= |a| ==> AtTurn(tr, k, st0, a, eps, neg, withProfit)
    requires s.State() == tr[i]
    modifies s.assoc`nnz, s.assoc.rowassign, s.assoc.colassign, s.prices, s.profits
    ensures s.Valid()
    ensures s.State() == tr[i + 1]
  {
    ghost var pre := s.State();
    assert AtTurn(tr, i, st0, a, eps, neg, withProfit) && AtTurn(tr, i + 1, st0, a, eps, neg, withProfit);
    BidRow(a[i], i, s, eps, neg, withProfit);
    CycleStep(st0, a, i, eps, neg, withProfit, pre, s.State());
  }

  /** Every payoff row in turn bids at the current prices. */
  method CycleRows(a: seq<seq<Entry>>, s: AuctAssoc, eps: int, neg: int, withProfit: bool)
    requires s.Valid() && ColsBelow(a, s.assoc.ncols)
    requires withProfit ==> |a| <= s.assoc.nrows
    modifies s.assoc`nnz, s.assoc.rowassign, s.assoc.colassign, s.prices, s.profits
    ensures s.Valid()
    ensures s.State() == Cycle(old(s.State()), a, eps, neg, withProfit)
  {
    ghost var st0 := s.State();
    ghost var tr := Trace(st0, a, eps, neg, withProfit);
    var i := 0;
    while i < |a|
      invariant 0 <= i <= |a|
      invariant s.Valid() && s.assoc.ncols == |st0.prices| && (withProfit ==> s.assoc.nrows == |st0.profits|)
      invariant s.State() == tr[i]
    {
      CycleTurn(a, i, s, st0, tr, eps, neg, withProfit);
      i := i + 1;
    }
    assert AtTurn(tr, |a|, st0, a, eps, neg, withProfit);
  }

  /** auct_cycle_SP1: every payoff row in turn, bids applied at once, profits untouched. */
  method CycleSP1(a: seq<seq<Entry>>, s: AuctAssoc, prms: AuctParm)
    requires s.Valid() && ColsBelow(a, s.assoc.ncols)
    modifies s.assoc`nnz, s.assoc.rowassign, s.assoc.colassign, s.prices, s.profits
    ensures s.Valid()
    ensures s.State() == Cycle(old(s.State()), a, prms.epsilon, -prms.maxint, false)
  {
    CycleRows(a, s, prms.epsilon, -prms.maxint, false);
  }

  /** auct_cycle_SP2: as SP1, and every bidder's profit is set as well. */
  method CycleSP2(a: seq<seq<Entry>>, s: AuctAssoc, prms: AuctParm)
    requires s.Valid() && ColsBelow(a, s.assoc.ncols)
    requires |a| <= s.assoc.nrows
    modifies s.assoc`nnz, s.assoc.rowassign, s.assoc.colassign, s.prices, s.profits
    ensures s.Valid()
    ensures s.State() == Cycle(old(s.State()), a, prms.epsilon, -prms.maxint, true)
  {
    CycleRows(a, s, prms.epsilon, -prms.maxint, true);
  }
}
