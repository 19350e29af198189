/**
 * The single-assignment bidding cycles auct_cycle_SP1 and auct_cycle_SP2
 * (AuctAlg.cpp) as values. Every unassigned payoff row in turn finds its
 * two best offers (payoff minus current price), takes the best column and
 * raises its price by the margin over the second offer plus epsilon; SP2
 * also records the bidder's profit. Bids take effect at once (Gauss-Seidel).
 */
module SingleBids {
  import opened Assoc
  import opened PriceModel
  import opened Payoff

  /** A shopping-list entry: an offer's value and its column, -1 for a placeholder. */
  datatype Offer = Offer(v: int, js: int)

  /** The two-entry shopping list: the best offer and the runner-up. */
  datatype Top = Top(first: Offer, second: Offer)

  /** Every entry of a row names a column in [0, m). */
  predicate RowColsBelow(row: seq<Entry>, m: int)
  {
    forall k :: 0 <= k < |row| ==> 0 <= row[k].col < m
  }

  /** The offer of entry k: its payoff minus the current price of its column. */
  function OfferAt(row: seq<Entry>, prices: seq<int>, k: int): Offer
    requires RowColsBelow(row, |prices|) && 0 <= k < |row|
  {
    Offer(row[k].val - prices[row[k].col], row[k].col)
  }

  /** The offers of a row, in entry order. */
  function Offers(row: seq<Entry>, prices: seq<int>): (os: seq<Offer>)
    requires RowColsBelow(row, |prices|)
    ensures |os| == |row|
    ensures forall k :: 0 <= k < |row| ==> os[k] == OfferAt(row, prices, k)
  {
    seq(|row|, k requires 0 <= k < |row| => OfferAt(row, prices, k))
  }

  /**
   * The insertion walk of the two-entry list: the offer goes in front of
   * the first entry it strictly beats and the last entry drops out.
   */
  function Insert2(t: Top, cur: Offer): Top
  {
    if cur.v > t.first.v then Top(cur, t.first)
    else if cur.v > t.second.v then Top(t.first, cur)
    else t
  }

  /** The shopping list after inserting offers os, starting from two placeholders of value neg. */
  function Best2(os: seq<Offer>, neg: int): Top
    decreases |os|
  {
    if |os| == 0 then Top(Offer(neg, -1), Offer(neg, -1))
    else Insert2(Best2(os[..|os| - 1], neg), os[|os| - 1])
  }

  /** The shopping list after scanning a row. */
  function TopTwo(row: seq<Entry>, prices: seq<int>, neg: int): (t: Top)
    requires RowColsBelow(row, |prices|)
    ensures t.first.js == -1 || 0 <= t.first.js < |prices|
    ensures t.second.js == -1 || 0 <= t.second.js < |prices|
  {
    Best2Members(Offers(row, prices), neg);
    Best2(Offers(row, prices), neg)
  }

  /** The entries of the list are placeholders or offers from os. */
  lemma {:induction false} Best2Members(os: seq<Offer>, neg: int)
    ensures var t := Best2(os, neg);
      && (t.first == Offer(neg, -1) || t.first in os)
      && (t.second == Offer(neg, -1) || t.second in os)
    decreases |os|
  {
    if |os| > 0 {
      Best2Members(os[..|os| - 1], neg);
    }
  }

  /** The position in os of the best offer, -1 when the placeholder remains. */
  ghost function FirstPos(os: seq<Offer>, neg: int): int
    decreases |os|
  {
    if |os| == 0 then -1
    else if os[|os| - 1].v > Best2(os[..|os| - 1], neg).first.v then |os| - 1
    else FirstPos(os[..|os| - 1], neg)
  }

  /** The position in os of the runner-up offer, -1 when the placeholder remains. */
  ghost function SecondPos(os: seq<Offer>, neg: int): int
    decreases |os|
  {
    if |os| == 0 then -1
    else
      var t := Best2(os[..|os| - 1], neg);
      if os[|os| - 1].v > t.first.v then FirstPos(os[..|os| - 1], neg)
      else if os[|os| - 1].v > t.second.v then |os| - 1
      else SecondPos(os[..|os| - 1], neg)
  }

  /** The best offer is the first offer of largest value above neg; the placeholder when none exceeds neg. */
  ghost predicate FirstOf(t: Top, os: seq<Offer>, neg: int, f: int)
  {
    && (f == -1 ==> t.first == Offer(neg, -1) && forall k :: 0 <= k < |os| ==> os[k].v <= neg)
    && (f != -1 ==>
          && 0 <= f < |os| && t.first == os[f] && t.first.v > neg
          && (forall k :: 0 <= k < |os| ==> os[k].v <= t.first.v)
          && (forall k :: 0 <= k < f ==> os[k].v < t.first.v))
  }

  /** The runner-up is the largest value among the other offers, floored at neg. */
  ghost predicate SecondOf(t: Top, os: seq<Offer>, neg: int, f: int, s: int)
  {
    && (f == -1 ==> s == -1)
    && (s == -1 ==> t.second == Offer(neg, -1))
    && (s != -1 ==> 0 <= s < |os| && s != f && t.second == os[s] && t.second.v > neg)
    && neg <= t.second.v <= t.first.v
    && (forall k :: 0 <= k < |os| && k != f ==> os[k].v <= t.second.v)
  }

  /** One insertion keeps both descriptions, with the positions the scan tracks. */
  lemma InsertStep(os: seq<Offer>, cur: Offer, neg: int, t: Top, f: int, s: int)
    requires FirstOf(t, os, neg, f) && SecondOf(t, os, neg, f, s)
    ensures var n := |os|;
      var f' := if cur.v > t.first.v then n else f;
      var s' := if cur.v > t.first.v then f else if cur.v > t.second.v then n else s;
      FirstOf(Insert2(t, cur), os + [cur], neg, f') && SecondOf(Insert2(t, cur), os + [cur], neg, f', s')
  {
    var os' := os + [cur];
    assert forall k :: 0 <= k < |os| ==> os'[k] == os[k];
  }

  lemma {:induction false} Best2Meaning(os: seq<Offer>, neg: int)
    ensures FirstOf(Best2(os, neg), os, neg, FirstPos(os, neg))
    ensures SecondOf(Best2(os, neg), os, neg, FirstPos(os, neg), SecondPos(os, neg))
    decreases |os|
  {
    if |os| > 0 {
      var pre := os[..|os| - 1];
      Best2Meaning(pre, neg);
      InsertStep(pre, os[|os| - 1], neg, Best2(pre, neg), FirstPos(pre, neg), SecondPos(pre, neg));
      assert pre + [os[|os| - 1]] == os;
    }
  }

  /**
   * What the scan of a row finds: the best offer is the first entry of
   * largest payoff minus price above neg (none when no value exceeds
   * neg), and the runner-up is the largest value among the other
   * entries, floored at neg.
   */
  lemma TopTwoMeaning(row: seq<Entry>, prices: seq<int>, neg: int)
    requires RowColsBelow(row, |prices|)
    ensures var os := Offers(row, prices);
      && FirstOf(TopTwo(row, prices, neg), os, neg, FirstPos(os, neg))
      && SecondOf(TopTwo(row, prices, neg), os, neg, FirstPos(os, neg), SecondPos(os, neg))
  {
    Best2Meaning(Offers(row, prices), neg);
  }

  /**
   * One row's turn. A row that holds a column, or finds no offer above
   * neg, changes nothing. Otherwise it takes the best column (evicting
   * its holder), the column's price rises by best minus runner-up plus
   * eps, and with `withProfit` (SP2) the row's profit becomes the
   * runner-up value minus eps.
   */
  function RowBid(st: AuctState, row: seq<Entry>, r: int, eps: int, neg: int, withProfit: bool): (res: AuctState)
    requires RowColsBelow(row, |st.prices|)
    requires withProfit ==> 0 <= r < |st.profits|
  {
    if LookupCol(st.pairs, r) != -1 then st
    else
      var t := TopTwo(row, st.prices, neg);
      if t.first.js == -1 then st
      else
        var j := t.first.js;
        AuctState(AddPair(st.pairs, r, j),
                  st.prices[j := st.prices[j] + t.first.v - t.second.v + eps],
                  if withProfit then st.profits[r := t.second.v - eps] else st.profits)
  }

  /** The state after a row that bids, read off its three parts. */
  lemma RowBidState(st: AuctState, got: AuctState, row: seq<Entry>, r: int, eps: int, neg: int, withProfit: bool, t: Top, p: int)
    requires RowColsBelow(row, |st.prices|) && (withProfit ==> 0 <= r < |st.profits|)
    requires LookupCol(st.pairs, r) == -1
    requires t == TopTwo(row, st.prices, neg) && t.first.js != -1
    requires p == st.prices[t.first.js] + t.first.v - t.second.v + eps
    requires got.pairs == AddPair(st.pairs, r, t.first.js)
    requires got.prices == st.prices[t.first.js := p]
    requires got.profits == if withProfit then st.profits[r := t.second.v - eps] else st.profits
    ensures got == RowBid(st, row, r, eps, neg, withProfit)
  {
  }

  /** The state after the first k payoff rows have had their turn. */
  function CycleUpto(st: AuctState, a: seq<seq<Entry>>, k: nat, eps: int, neg: int, withProfit: bool): (res: AuctState)
    requires k <= |a| && ColsBelow(a, |st.prices|)
    requires withProfit ==> |a| <= |st.profits|
    ensures |res.prices| == |st.prices| && |res.profits| == |st.profits|
    decreases k
  {
    if k == 0 then st
    else
      var pre := CycleUpto(st, a, k - 1, eps, neg, withProfit);
      assert RowColsBelow(a[k - 1], |pre.prices|);
      RowBid(pre, a[k - 1], k - 1, eps, neg, withProfit)
  }

  /** One more turn extends the cycle prefix. */
  lemma CycleStep(st: AuctState, a: seq<seq<Entry>>, i: nat, eps: int, neg: int, withProfit: bool, pre: AuctState, post: AuctState)
    requires i < |a| && ColsBelow(a, |st.prices|) && (withProfit ==> |a| <= |st.profits|)
    requires pre == CycleUpto(st, a, i, eps, neg, withProfit)
    requires RowColsBelow(a[i], |pre.prices|) && (withProfit ==> i < |pre.profits|)
    requires post == RowBid(pre, a[i], i, eps, neg, withProfit)
    ensures post == CycleUpto(st, a, i + 1, eps, neg, withProfit)
  {
  }

  /** A whole cycle over the payoff rows. */
  function Cycle(st: AuctState, a: seq<seq<Entry>>, eps: int, neg: int, withProfit: bool): AuctState
    requires ColsBelow(a, |st.prices|)
    requires withProfit ==> |a| <= |st.profits|
  {
    CycleUpto(st, a, |a|, eps, neg, withProfit)
  }

  // ------------------------------------------------------------------
  // Properties
  // ------------------------------------------------------------------

  /** Only a row unassigned at its turn and with an offer above neg bids. */
  lemma RowBidSkips(st: AuctState, row: seq<Entry>, r: int, eps: int, neg: int, withProfit: bool)
    requires RowColsBelow(row, |st.prices|) && (withProfit ==> 0 <= r < |st.profits|)
    ensures var os := Offers(row, st.prices);
      LookupCol(st.pairs, r) != -1 || (forall k :: 0 <= k < |os| ==> os[k].v <= neg) ==>
      RowBid(st, row, r, eps, neg, withProfit) == st
  {
    TopTwoMeaning(row, st.prices, neg);
  }

  /**
   * A bidder ends up holding the column of its best offer, evicting the
   * column's holder; the pair count grows by one exactly when the column
   * was free.
   */
  lemma RowBidAward(st: AuctState, row: seq<Entry>, r: int, eps: int, neg: int, withProfit: bool)
    requires Sized(st) && RowColsBelow(row, |st.prices|) && 0 <= r < NRows(st.pairs)
    requires LookupCol(st.pairs, r) == -1 && TopTwo(row, st.prices, neg).first.js != -1
    ensures var res := RowBid(st, row, r, eps, neg, withProfit);
      var j := TopTwo(row, st.prices, neg).first.js;
      && Sized(res)
      && LookupCol(res.pairs, r) == j && LookupRow(res.pairs, j) == r
      && res.pairs.nnz == st.pairs.nnz + (if LookupRow(st.pairs, j) == -1 then 1 else 0)
  {
    var j := TopTwo(row, st.prices, neg).first.js;
    AddCorrect(st.pairs, r, j);
    assert LookupRow(st.pairs, j) != r;
  }

  /**
   * A bid raises the price of the chosen column by the margin of the best
   * offer over the runner-up plus eps, so by at least eps; no other price
   * changes, and only SP2 sets the bidder's profit, to the runner-up
   * value minus eps.
   */
  lemma RowBidPrices(st: AuctState, row: seq<Entry>, r: int, eps: int, neg: int, withProfit: bool)
    requires RowColsBelow(row, |st.prices|) && 0 <= r < |st.profits|
    requires LookupCol(st.pairs, r) == -1 && TopTwo(row, st.prices, neg).first.js != -1
    ensures var res := RowBid(st, row, r, eps, neg, withProfit);
      var t := TopTwo(row, st.prices, neg);
      var j := t.first.js;
      && res.prices[j] == st.prices[j] + t.first.v - t.second.v + eps
      && res.prices[j] >= st.prices[j] + eps
      && (forall c :: 0 <= c < |st.prices| && c != j ==> res.prices[c] == st.prices[c])
      && res.profits == (if withProfit then st.profits[r := t.second.v - eps] else st.profits)
  {
    TopTwoMeaning(row, st.prices, neg);
  }

  /** An empty row never bids. */
  lemma EmptyRowNoBid(st: AuctState, r: int, eps: int, neg: int, withProfit: bool)
    requires withProfit ==> 0 <= r < |st.profits|
    ensures RowBid(st, [], r, eps, neg, withProfit) == st
  {
  }

  /** What a cycle keeps. */
  ghost predicate CycleKeeps(st: AuctState, res: AuctState, eps: int)
  {
    && Sized(res)
    && NRows(res.pairs) == NRows(st.pairs) && NCols(res.pairs) == NCols(st.pairs)
    && res.pairs.nnz >= st.pairs.nnz
    && |res.prices| == |st.prices|
    && (eps >= 0 ==> forall c :: 0 <= c < |st.prices| ==> st.prices[c] <= res.prices[c])
  }

  /** One turn keeps what a cycle keeps. */
  lemma RowBidKeeps(st: AuctState, row: seq<Entry>, r: int, eps: int, neg: int, withProfit: bool)
    requires Sized(st) && RowColsBelow(row, |st.prices|) && 0 <= r < NRows(st.pairs)
    ensures CycleKeeps(st, RowBid(st, row, r, eps, neg, withProfit), eps)
  {
    if LookupCol(st.pairs, r) == -1 && TopTwo(row, st.prices, neg).first.js != -1 {
      RowBidAward(st, row, r, eps, neg, withProfit);
      RowBidPrices(st, row, r, eps, neg, withProfit);
    }
  }

  /** What a cycle keeps composes. */
  lemma KeepsTrans(a: AuctState, b: AuctState, c: AuctState, eps: int)
    ensures CycleKeeps(a, b, eps) && CycleKeeps(b, c, eps) ==> CycleKeeps(a, c, eps)
  {
  }

  /**
   * Over a cycle the association stays consistent, the pair count never
   * drops, and with eps >= 0 no price ever falls.
   */
  lemma {:induction false} CycleMonotone(st: AuctState, a: seq<seq<Entry>>, k: nat, eps: int, neg: int, withProfit: bool)
    requires Sized(st) && k <= |a| && ColsBelow(a, |st.prices|)
    requires |a| <= NRows(st.pairs)
    ensures CycleKeeps(st, CycleUpto(st, a, k, eps, neg, withProfit), eps)
    decreases k
  {
    if k == 0 {
    } else {
      CycleMonotone(st, a, k - 1, eps, neg, withProfit);
      var pre := CycleUpto(st, a, k - 1, eps, neg, withProfit);
      assert RowColsBelow(a[k - 1], |pre.prices|);
      var post := RowBid(pre, a[k - 1], k - 1, eps, neg, withProfit);
      assert post == CycleUpto(st, a, k, eps, neg, withProfit);
      RowBidKeeps(pre, a[k - 1], k - 1, eps, neg, withProfit);
      KeepsTrans(st, pre, post, eps);
    }
  }
}
