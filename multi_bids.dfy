/**
 * The multiplicity-aware bidding cycle auct_cycle_SM (AuctAlg.cpp) as
 * values. A payoff row stands for a group of full rows [rowptr[g],
 * rowptr[g+1]) and a payoff column for a group of full columns
 * [colptr[h], colptr[h+1]). Each payoff row with free full rows builds a
 * shopping list of the best full columns (one entry per free row plus a
 * reference entry), never listing a column already held by a row of its
 * own group, and then every free row bids on one listed column.
 */
module MultiBids {
  import opened Assoc
  import opened PriceModel
  import opened Payoff
  import opened SingleBids

  /** A shopping-list entry: value, full column (-1 for a placeholder) and payoff column group (-1 for a placeholder). */
  datatype Pick = Pick(v: int, js: int, grp: int)

  /** The group pointers never decrease and lie inside [0, m), so every group's full columns [ptr[g], ptr[g+1]) do. */
  predicate GroupsWithin(ptr: seq<int>, m: int)
  {
    forall i, j :: 0 <= i <= j < |ptr| ==> 0 <= ptr[i] <= ptr[j] <= m
  }

  /**
   * min_price_in_colrange reads one past an empty range: every empty
   * group must end below m for that read to stay inside the prices.
   */
  predicate GroupsReadable(ptr: seq<int>, m: int)
  {
    forall g :: 0 <= g < |ptr| - 1 ==> ptr[g] < ptr[g + 1] || ptr[g + 1] < m
  }

  /** The initial shopping list: n placeholders of value neg. */
  function Placeholders(n: nat, neg: int): (l: seq<Pick>)
    ensures |l| == n
    ensures forall k :: 0 <= k < n ==> l[k] == Pick(neg, -1, -1)
  {
    seq(n, _ => Pick(neg, -1, -1))
  }

  /** freerows: the unassigned full rows of [lo, hi), in increasing order. */
  function FreeRows(p: Pairing, lo: int, hi: int): seq<int>
    decreases hi - lo
  {
    if hi <= lo then [] else FreeRows(p, lo, hi - 1) + (if LookupCol(p, hi - 1) == -1 then [hi - 1] else [])
  }

  /** usedcols: the columns held by the full rows of [lo, hi), in row order. */
  function UsedCols(p: Pairing, lo: int, hi: int): seq<int>
    decreases hi - lo
  {
    if hi <= lo then [] else UsedCols(p, lo, hi - 1) + (if LookupCol(p, hi - 1) != -1 then [LookupCol(p, hi - 1)] else [])
  }

  /**
   * The insertion walk: step past entries of larger value; at the first
   * entry of value at most cur.v, forget cur if its column is used, and
   * otherwise insert it there and drop the list's last entry.
   */
  function Shop(l: seq<Pick>, cur: Pick, used: seq<int>): (res: seq<Pick>)
    ensures |res| == |l|
    decreases |l|
  {
    if |l| == 0 then l
    else if l[0].v > cur.v then [l[0]] + Shop(l[1..], cur, used)
    else if cur.js in used then l
    else [cur] + l[..|l| - 1]
  }

  /** The list after offering full columns [lo, hi) of the entry's group. */
  function ShopGroup(l: seq<Pick>, e: Entry, lo: int, hi: int, prices: seq<int>, used: seq<int>): (res: seq<Pick>)
    requires 0 <= lo && hi <= |prices|
    ensures |res| == |l|
    decreases hi - lo
  {
    if hi <= lo then l
    else Shop(ShopGroup(l, e, lo, hi - 1, prices, used), Pick(e.val - prices[hi - 1], hi - 1, e.col), used)
  }

  /** The list after the first k entries of a payoff row. */
  function ShopRow(l: seq<Pick>, row: seq<Entry>, k: nat, colptr: seq<int>, prices: seq<int>, used: seq<int>): (res: seq<Pick>)
    requires k <= |row| && RowColsBelow(row, |colptr| - 1) && GroupsWithin(colptr, |prices|)
    ensures |res| == |l|
    decreases k
  {
    if k == 0 then l
    else
      var e := row[k - 1];
      ShopGroup(ShopRow(l, row, k - 1, colptr, prices, used), e, colptr[e.col], colptr[e.col + 1], prices, used)
  }

  /** The smallest price of [lo, hi); for an empty range, the price at hi (std::min_element returns the end). */
  function GroupMin(prices: seq<int>, lo: int, hi: int): int
    requires 0 <= lo <= hi <= |prices| && (lo < hi || hi < |prices|)
  {
    if lo < hi then SeqMin(prices[lo..hi]) else prices[hi]
  }

  /** The value of entry e at the cheapest column of its group. */
  function GroupValue(e: Entry, colptr: seq<int>, prices: seq<int>): int
    requires 0 <= e.col < |colptr| - 1 && GroupsWithin(colptr, |prices|) && GroupsReadable(colptr, |prices|)
  {
    e.val - GroupMin(prices, colptr[e.col], colptr[e.col + 1])
  }

  /**
   * saveval over the first k entries: the largest group value, among
   * entries outside refgroup, that is at most refval and above neg; neg
   * when there is none.
   */
  function SaveVal(row: seq<Entry>, k: nat, refgroup: int, refval: int, colptr: seq<int>, prices: seq<int>, neg: int): int
    requires k <= |row| && RowColsBelow(row, |colptr| - 1)
    requires GroupsWithin(colptr, |prices|) && GroupsReadable(colptr, |prices|)
    decreases k
  {
    if k == 0 then neg
    else
      var s := SaveVal(row, k - 1, refgroup, refval, colptr, prices, neg);
      if row[k - 1].col == refgroup then s
      else
        var tmp := GroupValue(row[k - 1], colptr, prices);
        if tmp <= refval && tmp > s then tmp else s
  }

  /** groupmatch_flag: every listed bid after the first is from refgroup. */
  predicate GroupMatch(bids: seq<Pick>, refgroup: int)
  {
    forall k :: 1 <= k < |bids| ==> bids[k].grp == refgroup
  }

  /** Every entry's column is a placeholder or a full column below m. */
  predicate PicksIn(l: seq<Pick>, m: int)
  {
    forall k :: 0 <= k < |l| ==> -1 <= l[k].js < m
  }

  /** Free row r bids on b: it takes the column and the price rises by b.v - refval + eps; a placeholder changes nothing. */
  function PlaceBid(st: AuctState, r: int, b: Pick, refval: int, eps: int): (res: AuctState)
    requires -1 <= b.js < |st.prices|
    ensures |res.prices| == |st.prices|
  {
    if b.js == -1 then st
    else AuctState(AddPair(st.pairs, r, b.js), st.prices[b.js := st.prices[b.js] + b.v - refval + eps], st.profits)
  }

  /** The first n bids placed, bid k by free row free[k]. */
  function PlaceBids(st: AuctState, bids: seq<Pick>, free: seq<int>, n: nat, refval: int, eps: int): (res: AuctState)
    requires n <= |bids| <= |free| && PicksIn(bids, |st.prices|)
    ensures |res.prices| == |st.prices|
    decreases n
  {
    if n == 0 then st
    else PlaceBid(PlaceBids(st, bids, free, n - 1, refval, eps), free[n - 1], bids[n - 1], refval, eps)
  }

  /** The shape data the cycle reads, checked against an association state. */
  ghost predicate Fits(st: AuctState, a: seq<seq<Entry>>, rowptr: seq<int>, colptr: seq<int>)
  {
    && |a| < |rowptr| && GroupsWithin(rowptr, |st.pairs.colOfRow|)
    && ColsBelow(a, |colptr| - 1) && GroupsWithin(colptr, |st.prices|) && GroupsReadable(colptr, |st.prices|)
  }

  /** The shopping list of payoff row `row` (group rA) against state st: |free rows| + 1 entries. */
  function Shortlist(st: AuctState, row: seq<Entry>, rA: int, rowptr: seq<int>, colptr: seq<int>, neg: int): (l: seq<Pick>)
    requires 0 <= rA < |rowptr| - 1
    requires RowColsBelow(row, |colptr| - 1) && GroupsWithin(colptr, |st.prices|)
    ensures |l| == |FreeRows(st.pairs, rowptr[rA], rowptr[rA + 1])| + 1
  {
    var lo, hi := rowptr[rA], rowptr[rA + 1];
    ShopRow(Placeholders(|FreeRows(st.pairs, lo, hi)| + 1, neg), row, |row|, colptr, st.prices, UsedCols(st.pairs, lo, hi))
  }

  /** The reference value the bids are measured against. */
  function RefVal(st: AuctState, row: seq<Entry>, l: seq<Pick>, colptr: seq<int>, neg: int): int
    requires |l| >= 1
    requires RowColsBelow(row, |colptr| - 1) && GroupsWithin(colptr, |st.prices|) && GroupsReadable(colptr, |st.prices|)
  {
    var bids := l[..|l| - 1];
    if GroupMatch(bids, l[0].grp) then SaveVal(row, |row|, l[0].grp, l[|l| - 1].v, colptr, st.prices, neg)
    else l[|l| - 1].v
  }

  /**
   * The turn of payoff row `row`, standing for full rows [rowptr[rA],
   * rowptr[rA+1]). Without free rows, or with an empty list (a row with
   * no entries), nothing changes.
   */
  function SMRow(st: AuctState, row: seq<Entry>, rA: int, rowptr: seq<int>, colptr: seq<int>, eps: int, neg: int): (res: AuctState)
    requires 0 <= rA < |rowptr| - 1
    requires RowColsBelow(row, |colptr| - 1) && GroupsWithin(colptr, |st.prices|) && GroupsReadable(colptr, |st.prices|)
    ensures |res.prices| == |st.prices|
  {
    var free := FreeRows(st.pairs, rowptr[rA], rowptr[rA + 1]);
    if |free| == 0 then st
    else
      var l := Shortlist(st, row, rA, rowptr, colptr, neg);
      if l[0].grp == -1 then st
      else
        ShortlistIn(st, row, rA, rowptr, colptr, neg);
        PlaceBids(st, l[..|free|], free, |free|, RefVal(st, row, l, colptr, neg), eps)
  }

  /** The state after the first k payoff rows have had their turn. */
  function SMUpto(st: AuctState, a: seq<seq<Entry>>, k: nat, rowptr: seq<int>, colptr: seq<int>, eps: int, neg: int): (res: AuctState)
    requires k <= |a| && |a| < |rowptr| && ColsBelow(a, |colptr| - 1)
    requires GroupsWithin(colptr, |st.prices|) && GroupsReadable(colptr, |st.prices|)
    ensures |res.prices| == |st.prices|
    decreases k
  {
    if k == 0 then st
    else
      var pre := SMUpto(st, a, k - 1, rowptr, colptr, eps, neg);
      assert RowColsBelow(a[k - 1], |colptr| - 1);
      SMRow(pre, a[k - 1], k - 1, rowptr, colptr, eps, neg)
  }

  /** auct_cycle_SM as a value: every payoff row in turn. */
  function SMCycle(st: AuctState, a: seq<seq<Entry>>, rowptr: seq<int>, colptr: seq<int>, eps: int, neg: int): AuctState
    requires |a| < |rowptr| && ColsBelow(a, |colptr| - 1)
    requires GroupsWithin(colptr, |st.prices|) && GroupsReadable(colptr, |st.prices|)
  {
    SMUpto(st, a, |a|, rowptr, colptr, eps, neg)
  }

  // ------------------------------------------------------------------
  // The shopping list
  // ------------------------------------------------------------------

  /** Values never increase along the list. */
  ghost predicate NonIncreasing(l: seq<Pick>)
  {
    forall i, j :: 0 <= i < j < |l| ==> l[i].v >= l[j].v
  }

  /**
   * The list's invariant: values never increase and are at least neg,
   * and every column is a placeholder or a full column below m that is
   * not in used.
   */
  ghost predicate GoodList(l: seq<Pick>, used: seq<int>, neg: int, m: int)
  {
    && NonIncreasing(l)
    && PicksIn(l, m)
    && forall k :: 0 <= k < |l| ==> neg <= l[k].v && l[k].js !in used
  }

  /** An entry no smaller than any of a good list, itself good, can head it. */
  lemma ConsKeeps(h: Pick, tail: seq<Pick>, used: seq<int>, neg: int, m: int)
    requires GoodList(tail, used, neg, m) && GoodList([h], used, neg, m)
    requires forall k :: 0 <= k < |tail| ==> tail[k].v <= h.v
    ensures GoodList([h] + tail, used, neg, m)
  {
    var l := [h] + tail;
    assert forall k :: 1 <= k < |l| ==> l[k] == tail[k - 1];
  }

  /** One insertion keeps the list's invariant. */
  lemma {:induction false} ShopKeeps(l: seq<Pick>, cur: Pick, used: seq<int>, neg: int, m: int)
    requires GoodList(l, used, neg, m) && -1 <= cur.js < m
    ensures GoodList(Shop(l, cur, used), used, neg, m)
    decreases |l|
  {
    if |l| > 0 {
      assert GoodList(l[1..], used, neg, m) && GoodList([l[0]], used, neg, m);
      if l[0].v > cur.v {
        ShopKeeps(l[1..], cur, used, neg, m);
        ShopFrom(l[1..], cur, used, neg);
        ConsKeeps(l[0], Shop(l[1..], cur, used), used, neg, m);
      } else if cur.js !in used {
        assert GoodList(l[..|l| - 1], used, neg, m);
        ConsKeeps(cur, l[..|l| - 1], used, neg, m);
      }
    }
  }

  /** Every entry of an insertion's result comes from the list or is cur, so no value exceeds the larger of the two. */
  lemma {:induction false} ShopFrom(l: seq<Pick>, cur: Pick, used: seq<int>, neg: int)
    ensures forall k :: 0 <= k < |l| ==> Shop(l, cur, used)[k] == cur || Shop(l, cur, used)[k] in l
    decreases |l|
  {
    if |l| > 0 && l[0].v > cur.v {
      ShopFrom(l[1..], cur, used, neg);
      var res := Shop(l, cur, used);
      forall k | 0 <= k < |l|
        ensures res[k] == cur || res[k] in l
      {
        if k > 0 {
          assert res[k] == Shop(l[1..], cur, used)[k - 1];
        }
      }
    } else if |l| > 0 && cur.js !in used {
      var res := [cur] + l[..|l| - 1];
      assert forall k :: 1 <= k < |res| ==> res[k] == l[k - 1];
    }
  }

  lemma {:induction false} ShopGroupKeeps(l: seq<Pick>, e: Entry, lo: int, hi: int, prices: seq<int>, used: seq<int>, neg: int)
    requires 0 <= lo && hi <= |prices| && GoodList(l, used, neg, |prices|)
    ensures GoodList(ShopGroup(l, e, lo, hi, prices, used), used, neg, |prices|)
    decreases hi - lo
  {
    if hi > lo {
      ShopGroupKeeps(l, e, lo, hi - 1, prices, used, neg);
      ShopKeeps(ShopGroup(l, e, lo, hi - 1, prices, used), Pick(e.val - prices[hi - 1], hi - 1, e.col), used, neg, |prices|);
    }
  }

  lemma {:induction false} ShopRowKeeps(l: seq<Pick>, row: seq<Entry>, k: nat, colptr: seq<int>, prices: seq<int>, used: seq<int>, neg: int)
    requires k <= |row| && RowColsBelow(row, |colptr| - 1) && GroupsWithin(colptr, |prices|)
    requires GoodList(l, used, neg, |prices|)
    ensures GoodList(ShopRow(l, row, k, colptr, prices, used), used, neg, |prices|)
    decreases k
  {
    if k > 0 {
      ShopRowKeeps(l, row, k - 1, colptr, prices, used, neg);
      var e := row[k - 1];
      ShopGroupKeeps(ShopRow(l, row, k - 1, colptr, prices, used), e, colptr[e.col], colptr[e.col + 1], prices, used, neg);
    }
  }

  /** No column in usedcols is -1: it lists only held columns. */
  lemma {:induction false} UsedHeld(p: Pairing, lo: int, hi: int)
    ensures forall k :: 0 <= k < |UsedCols(p, lo, hi)| ==> UsedCols(p, lo, hi)[k] != -1
    ensures forall c :: c in UsedCols(p, lo, hi) <==> c != -1 && exists r :: lo <= r < hi && LookupCol(p, r) == c
    decreases hi - lo
  {
    if hi > lo {
      UsedHeld(p, lo, hi - 1);
      var u := UsedCols(p, lo, hi);
      forall c
        ensures c in u <==> c != -1 && exists r :: lo <= r < hi && LookupCol(p, r) == c
      {
        if c != -1 && LookupCol(p, hi - 1) == c {
          assert c in u;
        }
        if c in u && c !in UsedCols(p, lo, hi - 1) {
          assert LookupCol(p, hi - 1) == c;
        }
      }
    }
  }

  /** The shopping list of a payoff row keeps the list's invariant. */
  lemma ShortlistGood(st: AuctState, row: seq<Entry>, rA: int, rowptr: seq<int>, colptr: seq<int>, neg: int)
    requires 0 <= rA < |rowptr| - 1
    requires RowColsBelow(row, |colptr| - 1) && GroupsWithin(colptr, |st.prices|)
    ensures GoodList(Shortlist(st, row, rA, rowptr, colptr, neg), UsedCols(st.pairs, rowptr[rA], rowptr[rA + 1]), neg, |st.prices|)
  {
    var lo, hi := rowptr[rA], rowptr[rA + 1];
    var used := UsedCols(st.pairs, lo, hi);
    var l0 := Placeholders(|FreeRows(st.pairs, lo, hi)| + 1, neg);
    UsedHeld(st.pairs, lo, hi);
    assert GoodList(l0, used, neg, |st.prices|);
    ShopRowKeeps(l0, row, |row|, colptr, st.prices, used, neg);
  }

  /** Every listed column is a placeholder or a column of the prices. */
  lemma ShortlistIn(st: AuctState, row: seq<Entry>, rA: int, rowptr: seq<int>, colptr: seq<int>, neg: int)
    requires 0 <= rA < |rowptr| - 1
    requires RowColsBelow(row, |colptr| - 1) && GroupsWithin(colptr, |st.prices|)
    ensures PicksIn(Shortlist(st, row, rA, rowptr, colptr, neg), |st.prices|)
  {
    ShortlistGood(st, row, rA, rowptr, colptr, neg);
  }

  /** freerows holds exactly the unassigned full rows of [lo, hi), each once, in increasing order. */
  lemma {:induction false} FreeRowsMeaning(p: Pairing, lo: int, hi: int)
    ensures forall k :: 0 <= k < |FreeRows(p, lo, hi)| ==>
      lo <= FreeRows(p, lo, hi)[k] < hi && LookupCol(p, FreeRows(p, lo, hi)[k]) == -1
    ensures forall r :: lo <= r < hi && LookupCol(p, r) == -1 ==> r in FreeRows(p, lo, hi)
    ensures forall i, j :: 0 <= i < j < |FreeRows(p, lo, hi)| ==> FreeRows(p, lo, hi)[i] < FreeRows(p, lo, hi)[j]
    decreases hi - lo
  {
    if hi > lo {
      FreeRowsMeaning(p, lo, hi - 1);
      var f, f' := FreeRows(p, lo, hi - 1), FreeRows(p, lo, hi);
      assert forall k :: 0 <= k < |f| ==> f'[k] == f[k];
    }
  }

  /** The shopping list never offers a column held by a full row of the bidding group. */
  lemma ShortlistAvoidsHeld(st: AuctState, row: seq<Entry>, rA: int, rowptr: seq<int>, colptr: seq<int>, neg: int)
    requires 0 <= rA < |rowptr| - 1
    requires RowColsBelow(row, |colptr| - 1) && GroupsWithin(colptr, |st.prices|)
    ensures var l := Shortlist(st, row, rA, rowptr, colptr, neg);
      forall k, r :: 0 <= k < |l| && rowptr[rA] <= r < rowptr[rA + 1] && LookupCol(st.pairs, r) != -1 ==>
        l[k].js != LookupCol(st.pairs, r)
  {
    ShortlistGood(st, row, rA, rowptr, colptr, neg);
    UsedHeld(st.pairs, rowptr[rA], rowptr[rA + 1]);
  }

  /**
   * What saveval finds: at least neg, and either neg or at most refval; no
   * entry outside refgroup with a group value in (neg, refval] beats it,
   * and unless it is neg it is the group value of such an entry.
   */
  lemma {:induction false} SaveValMeaning(row: seq<Entry>, k: nat, refgroup: int, refval: int, colptr: seq<int>, prices: seq<int>, neg: int)
    requires k <= |row| && RowColsBelow(row, |colptr| - 1)
    requires GroupsWithin(colptr, |prices|) && GroupsReadable(colptr, |prices|)
    ensures var s := SaveVal(row, k, refgroup, refval, colptr, prices, neg);
      && neg <= s
      && (s == neg || s <= refval)
      && (forall i :: 0 <= i < k && row[i].col != refgroup && GroupValue(row[i], colptr, prices) <= refval ==>
            GroupValue(row[i], colptr, prices) <= s)
      && (s == neg || exists i :: 0 <= i < k && row[i].col != refgroup && s == GroupValue(row[i], colptr, prices))
    decreases k
  {
    if k > 0 {
      SaveValMeaning(row, k - 1, refgroup, refval, colptr, prices, neg);
    }
  }

  /** The reference value is no larger than any listed bid. */
  lemma RefValBelowBids(st: AuctState, row: seq<Entry>, l: seq<Pick>, colptr: seq<int>, used: seq<int>, neg: int)
    requires |l| >= 1 && GoodList(l, used, neg, |st.prices|)
    requires RowColsBelow(row, |colptr| - 1) && GroupsWithin(colptr, |st.prices|) && GroupsReadable(colptr, |st.prices|)
    ensures forall k :: 0 <= k < |l| - 1 ==> RefVal(st, row, l, colptr, neg) <= l[k].v
  {
    SaveValMeaning(row, |row|, l[0].grp, l[|l| - 1].v, colptr, st.prices, neg);
  }

  /** What a multiplicity cycle keeps: a consistent association of the same size, the same profits, and with eps >= 0 no falling price. */
  ghost predicate SMKeeps(st: AuctState, res: AuctState, eps: int)
  {
    && Sized(res)
    && NRows(res.pairs) == NRows(st.pairs) && NCols(res.pairs) == NCols(st.pairs)
    && res.profits == st.profits
    && |res.prices| == |st.prices|
    && (eps >= 0 ==> forall c :: 0 <= c < |st.prices| ==> st.prices[c] <= res.prices[c])
  }

  lemma SMKeepsTrans(a: AuctState, b: AuctState, c: AuctState, eps: int)
    ensures SMKeeps(a, b, eps) && SMKeeps(b, c, eps) ==> SMKeeps(a, c, eps)
  {
  }

  /**
   * Placing bids that are all at least refval keeps the state sized and
   * the profits, never lowers a price when eps >= 0, and leaves each
   * bid's column at least eps above its price before the bids.
   */
  lemma {:induction false} PlaceBidsRise(st: AuctState, bids: seq<Pick>, free: seq<int>, n: nat, refval: int, eps: int)
    requires Sized(st) && n <= |bids| <= |free| && PicksIn(bids, |st.prices|)
    requires forall k :: 0 <= k < |bids| ==> refval <= bids[k].v && 0 <= free[k] < NRows(st.pairs)
    ensures var res := PlaceBids(st, bids, free, n, refval, eps);
      && SMKeeps(st, res, eps)
      && (eps >= 0 ==> forall k :: 0 <= k < n && bids[k].js != -1 ==> res.prices[bids[k].js] >= st.prices[bids[k].js] + eps)
    decreases n
  {
    if n > 0 {
      PlaceBidsRise(st, bids, free, n - 1, refval, eps);
      var pre := PlaceBids(st, bids, free, n - 1, refval, eps);
      var b := bids[n - 1];
      if b.js != -1 {
        AddConsistent(pre.pairs, free[n - 1], b.js);
        AddShape(pre.pairs, free[n - 1], b.js);
      }
      SMKeepsTrans(st, pre, PlaceBids(st, bids, free, n, refval, eps), eps);
    }
  }

  /**
   * One payoff row's turn keeps what a cycle keeps, and every listed
   * column that is bid on ends at least eps above its price before the
   * turn.
   */
  lemma SMRowRise(st: AuctState, row: seq<Entry>, rA: int, rowptr: seq<int>, colptr: seq<int>, eps: int, neg: int)
    requires Sized(st) && 0 <= rA < |rowptr| - 1 && GroupsWithin(rowptr, NRows(st.pairs))
    requires RowColsBelow(row, |colptr| - 1) && GroupsWithin(colptr, |st.prices|) && GroupsReadable(colptr, |st.prices|)
    ensures var res := SMRow(st, row, rA, rowptr, colptr, eps, neg);
      var free := FreeRows(st.pairs, rowptr[rA], rowptr[rA + 1]);
      var l := Shortlist(st, row, rA, rowptr, colptr, neg);
      && SMKeeps(st, res, eps)
      && PicksIn(l, |st.prices|)
      && (eps >= 0 && |free| > 0 && l[0].grp != -1 ==>
            forall k :: 0 <= k < |free| && l[k].js != -1 ==> res.prices[l[k].js] >= st.prices[l[k].js] + eps)
  {
    var free := FreeRows(st.pairs, rowptr[rA], rowptr[rA + 1]);
    ShortlistIn(st, row, rA, rowptr, colptr, neg);
    if |free| > 0 {
      var l := Shortlist(st, row, rA, rowptr, colptr, neg);
      if l[0].grp != -1 {
        var used := UsedCols(st.pairs, rowptr[rA], rowptr[rA + 1]);
        ShortlistGood(st, row, rA, rowptr, colptr, neg);
        RefValBelowBids(st, row, l, colptr, used, neg);
        FreeRowsMeaning(st.pairs, rowptr[rA], rowptr[rA + 1]);
        var refval := RefVal(st, row, l, colptr, neg);
        var bids := l[..|free|];
        assert forall k :: 0 <= k < |bids| ==> bids[k] == l[k];
        PlaceBidsRise(st, bids, free, |free|, refval, eps);
      }
    }
  }

  /** A payoff row with no free full row, or with no entries, changes nothing. */
  lemma SMRowIdle(st: AuctState, row: seq<Entry>, rA: int, rowptr: seq<int>, colptr: seq<int>, eps: int, neg: int)
    requires 0 <= rA < |rowptr| - 1
    requires RowColsBelow(row, |colptr| - 1) && GroupsWithin(colptr, |st.prices|) && GroupsReadable(colptr, |st.prices|)
    requires |row| == 0 || forall r :: rowptr[rA] <= r < rowptr[rA + 1] ==> LookupCol(st.pairs, r) != -1
    ensures SMRow(st, row, rA, rowptr, colptr, eps, neg) == st
  {
    var free := FreeRows(st.pairs, rowptr[rA], rowptr[rA + 1]);
    FreeRowsMeaning(st.pairs, rowptr[rA], rowptr[rA + 1]);
    if |free| > 0 && |row| == 0 {
      assert Shortlist(st, row, rA, rowptr, colptr, neg)[0].grp == -1;
    }
  }

  /** A row's turn after a prefix of the cycle keeps what the cycle keeps. */
  lemma SMStep(st: AuctState, pre: AuctState, row: seq<Entry>, rA: int, rowptr: seq<int>, colptr: seq<int>, eps: int, neg: int)
    requires Sized(st) && SMKeeps(st, pre, eps) && 0 <= rA < |rowptr| - 1 && GroupsWithin(rowptr, NRows(st.pairs))
    requires RowColsBelow(row, |colptr| - 1) && GroupsWithin(colptr, |st.prices|) && GroupsReadable(colptr, |st.prices|)
    ensures SMKeeps(st, SMRow(pre, row, rA, rowptr, colptr, eps, neg), eps)
  {
    SMRowRise(pre, row, rA, rowptr, colptr, eps, neg);
    SMKeepsTrans(st, pre, SMRow(pre, row, rA, rowptr, colptr, eps, neg), eps);
  }

  /** Over a cycle the association stays consistent, profits stay, and with eps >= 0 no price falls. */
  lemma {:induction false} SMCycleKeeps(st: AuctState, a: seq<seq<Entry>>, k: nat, rowptr: seq<int>, colptr: seq<int>, eps: int, neg: int)
    requires Sized(st) && k <= |a| && |a| < |rowptr| && GroupsWithin(rowptr, NRows(st.pairs))
    requires ColsBelow(a, |colptr| - 1) && GroupsWithin(colptr, |st.prices|) && GroupsReadable(colptr, |st.prices|)
    ensures SMKeeps(st, SMUpto(st, a, k, rowptr, colptr, eps, neg), eps)
    decreases k
  {
    if k > 0 {
      var pre := SMUpto(st, a, k - 1, rowptr, colptr, eps, neg);
      assert RowColsBelow(a[k - 1], |colptr| - 1);
      var post := SMRow(pre, a[k - 1], k - 1, rowptr, colptr, eps, neg);
      assert SMUpto(st, a, k, rowptr, colptr, eps, neg) == post;
      assert SMKeeps(st, post, eps) by {
        SMCycleKeeps(st, a, k - 1, rowptr, colptr, eps, neg);
        SMStep(st, pre, a[k - 1], k - 1, rowptr, colptr, eps, neg);
      }
    }
  }
}
