/**
 * auct_cycle_SM (AuctAlg.cpp) as a method on an AuctAssoc, proved
 * against the value model of MultiBids. The shape's row and column
 * pointers are passed as sequences; the shopping list, usedcols and
 * freerows lists are sequences the method rebuilds.
 */
module MultiCycle {
  import opened Assoc
  import opened PriceModel
  import opened Payoff
  import opened Params
  import opened Pricing
  import opened SingleBids
  import opened MultiBids
  import opened Cycles

  /** The walk over full rows [lo, hi) that splits them into held columns and free rows. */
  method GroupRows(s: AuctAssoc, lo: int, hi: int) returns (free: seq<int>, used: seq<int>)
    requires s.Valid()
    ensures free == FreeRows(s.assoc.Model(), lo, hi)
    ensures used == UsedCols(s.assoc.Model(), lo, hi)
  {
    free, used := [], [];
    if hi <= lo {
      return;
    }
    var rowS := lo;
    while rowS < hi
      invariant lo <= rowS <= hi
      invariant free == FreeRows(s.assoc.Model(), lo, rowS)
      invariant used == UsedCols(s.assoc.Model(), lo, rowS)
    {
      var c := s.assoc.Col(rowS);
      if c != -1 {
        used := used + [c];
      } else {
        free := free + [rowS];
      }
      rowS := rowS + 1;
    }
  }

  /** Past a prefix of entries that all beat cur, the walk goes on in the rest of the list. */
  lemma {:induction false} ShopSkip(l: seq<Pick>, cur: Pick, used: seq<int>, k: nat)
    requires k <= |l| && forall i :: 0 <= i < k ==> l[i].v > cur.v
    ensures Shop(l, cur, used) == l[..k] + Shop(l[k..], cur, used)
    decreases k
  {
    if k > 0 {
      ShopSkip(l[1..], cur, used, k - 1);
      assert l[1..][..k - 1] == l[1..k] && l[1..][k - 1..] == l[k..];
      assert [l[0]] + l[1..k] == l[..k];
    }
  }

  /** The insertion walk over the shopping list. */
  method ShopInsert(l: seq<Pick>, cur: Pick, used: seq<int>) returns (res: seq<Pick>)
    ensures res == Shop(l, cur, used)
  {
    var k := 0;
    while k < |l| && l[k].v > cur.v
      invariant 0 <= k <= |l|
      invariant forall i :: 0 <= i < k ==> l[i].v > cur.v
    {
      k := k + 1;
    }
    ShopSkip(l, cur, used, k);
    if k == |l| {
      assert l[..k] == l;
      res := l;
    } else if cur.js in used {
      assert l[..k] + l[k..] == l;
      res := l;
    } else {
      res := l[..k] + [cur] + l[k..|l| - 1];
      assert [cur] + l[k..][..|l[k..]| - 1] == [cur] + l[k..|l| - 1];
    }
  }

  /** The offers of one payoff entry: every full column of its group, at its current price. */
  method ShopEntry(l: seq<Pick>, e: Entry, lo: int, hi: int, s: AuctAssoc, used: seq<int>) returns (res: seq<Pick>)
    requires s.Valid() && 0 <= lo && hi <= s.assoc.ncols
    ensures res == ShopGroup(l, e, lo, hi, s.prices[..], used)
  {
    res := l;
    if hi <= lo {
      return;
    }
    var colS := lo;
    while colS < hi
      invariant lo <= colS <= hi
      invariant res == ShopGroup(l, e, lo, colS, s.prices[..], used)
    {
      res := ShopInsert(res, Pick(e.val - s.Price(colS), colS, e.col), used);
      colS := colS + 1;
    }
  }

  /** The shopping list of one payoff row: n placeholders, then every entry's offers. */
  method BuildShortlist(row: seq<Entry>, colptr: seq<int>, s: AuctAssoc, used: seq<int>, n: nat, neg: int) returns (l: seq<Pick>)
    requires s.Valid() && RowColsBelow(row, |colptr| - 1) && GroupsWithin(colptr, s.assoc.ncols)
    ensures l == ShopRow(Placeholders(n, neg), row, |row|, colptr, s.prices[..], used)
  {
    l := Placeholders(n, neg);
    var j := 0;
    while j < |row|
      invariant 0 <= j <= |row|
      invariant l == ShopRow(Placeholders(n, neg), row, j, colptr, s.prices[..], used)
    {
      var g := row[j].col;
      l := ShopEntry(l, row[j], colptr[g], colptr[g + 1], s, used);
      j := j + 1;
    }
  }

  /** The groupmatch scan over the listed bids after the first. */
  method ScanGroupMatch(bids: seq<Pick>, refgroup: int) returns (gm: bool)
    ensures gm == GroupMatch(bids, refgroup)
  {
    gm := true;
    var k := 1;
    while k < |bids| && gm
      invariant 1 <= k
      invariant gm == forall i :: 1 <= i < k && i < |bids| ==> bids[i].grp == refgroup
    {
      gm := bids[k].grp == refgroup;
      k := k + 1;
    }
  }

  /** min_price_in_colrange at the current prices, which reads the price at hi for an empty range. */
  method GroupMinPrice(s: AuctAssoc, lo: int, hi: int) returns (v: int)
    requires s.Valid() && 0 <= lo <= hi <= s.assoc.ncols && (lo < hi || hi < s.assoc.ncols)
    ensures v == GroupMin(s.prices[..], lo, hi)
  {
    v := s.MinPriceInColRange(lo, hi);
    if lo < hi {
      var xs := s.prices[..][lo..hi];
      assert forall c :: lo <= c < hi ==> s.prices[c] == xs[c - lo];
      assert v in xs && forall x :: x in xs ==> v <= x;
      MinUnique(xs, v);
    }
  }

  /** The only member of a list that is no larger than every member is its minimum. */
  lemma MinUnique(xs: seq<int>, v: int)
    requires v in xs && forall x :: x in xs ==> v <= x
    ensures v == SeqMin(xs)
  {
  }

  /** Entry j's part in the search for a reference value. */
  method SaveValStep(row: seq<Entry>, j: int, refgroup: int, refval: int, colptr: seq<int>, s: AuctAssoc, neg: int, sv: int) returns (sv': int)
    requires s.Valid() && 0 <= j < |row| && RowColsBelow(row, |colptr| - 1)
    requires GroupsWithin(colptr, s.assoc.ncols) && GroupsReadable(colptr, s.assoc.ncols)
    requires sv == SaveVal(row, j, refgroup, refval, colptr, s.prices[..], neg)
    ensures sv' == SaveVal(row, j + 1, refgroup, refval, colptr, s.prices[..], neg)
  {
    sv' := sv;
    var g := row[j].col;
    if g != refgroup {
      var minprice := GroupMinPrice(s, colptr[g], colptr[g + 1]);
      var tmp := row[j].val - minprice;
      assert tmp == GroupValue(row[j], colptr, s.prices[..]);
      if tmp <= refval && tmp > sv {
        sv' := tmp;
      }
    }
  }

  /** The search for a reference value outside refgroup. */
  method ScanSaveVal(row: seq<Entry>, refgroup: int, refval: int, colptr: seq<int>, s: AuctAssoc, neg: int) returns (sv: int)
    requires s.Valid() && RowColsBelow(row, |colptr| - 1)
    requires GroupsWithin(colptr, s.assoc.ncols) && GroupsReadable(colptr, s.assoc.ncols)
    ensures sv == SaveVal(row, |row|, refgroup, refval, colptr, s.prices[..], neg)
  {
    sv := neg;
    var j := 0;
    while j < |row|
      invariant 0 <= j <= |row|
      invariant sv == SaveVal(row, j, refgroup, refval, colptr, s.prices[..], neg)
    {
      sv := SaveValStep(row, j, refgroup, refval, colptr, s, neg, sv);
      j := j + 1;
    }
  }

  /** Free row r bids on b; a placeholder changes nothing. */
  method PlaceOne(r: int, b: Pick, refval: int, s: AuctAssoc, eps: int)
    requires s.Valid() && -1 <= b.js < s.assoc.ncols
    modifies s.assoc`nnz, s.assoc.rowassign, s.assoc.colassign, s.prices, s.profits
    ensures s.Valid()
    ensures s.State() == PlaceBid(old(s.State()), r, b, refval, eps)
  {
    if b.js != -1 {
      var p := s.Price(b.js) + b.v - refval + eps;
      Award(s, r, b.js, p, 0, false);
    }
  }

  /** tr[k] is the state after the first k bids. */
  ghost predicate PlacedAt(tr: seq<AuctState>, k: int, st0: AuctState, bids: seq<Pick>, free: seq<int>, refval: int, eps: int)
  {
    && 0 <= k < |tr| && k <= |bids| <= |free| && PicksIn(bids, |st0.prices|)
    && tr[k] == PlaceBids(st0, bids, free, k, refval, eps)
  }

  lemma PlaceTrace(st0: AuctState, bids: seq<Pick>, free: seq<int>, refval: int, eps: int) returns (tr: seq<AuctState>)
    requires |bids| <= |free| && PicksIn(bids, |st0.prices|)
    ensures |tr| == |bids| + 1 && tr[0] == st0
    ensures forall k :: 0 <= k <= |bids| ==> PlacedAt(tr, k, st0, bids, free, refval, eps)
  {
    tr := seq(|bids| + 1, k requires 0 <= k <= |bids| => PlaceBids(st0, bids, free, k, refval, eps));
  }

  /** Bid k of the row, as a step of the fold over the bids. */
  method PlaceStep(bids: seq<Pick>, free: seq<int>, k: int, refval: int, s: AuctAssoc, eps: int, ghost st0: AuctState, ghost tr: seq<AuctState>)
    requires s.Valid() && 0 <= k < |bids| && s.assoc.ncols == |st0.prices|
    requires |tr| == |bids| + 1 && forall i :: 0 <= i <= |bids| ==> PlacedAt(tr, i, st0, bids, free, refval, eps)
    requires s.State() == tr[k]
    modifies s.assoc`nnz, s.assoc.rowassign, s.assoc.colassign, s.prices, s.profits
    ensures s.Valid()
    ensures s.State() == tr[k + 1]
  {
    assert PlacedAt(tr, k, st0, bids, free, refval, eps) && PlacedAt(tr, k + 1, st0, bids, free, refval, eps);
    PlaceOne(free[k], bids[k], refval, s, eps);
  }

  /** The bids of one payoff row, bid k by free row free[k]. */
  method PlaceAll(bids: seq<Pick>, free: seq<int>, refval: int, s: AuctAssoc, eps: int)
    requires s.Valid() && |bids| <= |free| && PicksIn(bids, s.assoc.ncols)
    modifies s.assoc`nnz, s.assoc.rowassign, s.assoc.colassign, s.prices, s.profits
    ensures s.Valid()
    ensures s.State() == PlaceBids(old(s.State()), bids, free, |bids|, refval, eps)
  {
    ghost var st0 := s.State();
    ghost var tr := PlaceTrace(st0, bids, free, refval, eps);
    var k := 0;
    while k < |bids|
      invariant 0 <= k <= |bids|
      invariant s.Valid() && s.assoc.ncols == |st0.prices|
      invariant s.State() == tr[k]
    {
      PlaceStep(bids, free, k, refval, s, eps, st0, tr);
      k := k + 1;
    }
    assert PlacedAt(tr, |bids|, st0, bids, free, refval, eps);
  }

  /** The bidding of one payoff row once its shopping list is known not to be empty. */
  method Bids(row: seq<Entry>, l: seq<Pick>, free: seq<int>, colptr: seq<int>, s: AuctAssoc, eps: int, neg: int)
    requires s.Valid() && |l| == |free| + 1 && PicksIn(l, s.assoc.ncols)
    requires RowColsBelow(row, |colptr| - 1) && GroupsWithin(colptr, s.assoc.ncols) && GroupsReadable(colptr, s.assoc.ncols)
    modifies s.assoc`nnz, s.assoc.rowassign, s.assoc.colassign, s.prices, s.profits
    ensures s.Valid()
    ensures s.State() == PlaceBids(old(s.State()), l[..|free|], free, |free|, RefVal(old(s.State()), row, l, colptr, neg), eps)
  {
    var refgroup := l[0].grp;
    var refval := l[|l| - 1].v;
    var bids := l[..|l| - 1];
    var gm := ScanGroupMatch(bids, refgroup);
    if gm {
      refval := ScanSaveVal(row, refgroup, refval, colptr, s, neg);
    }
    assert forall k :: 0 <= k < |bids| ==> bids[k] == l[k];
    PlaceAll(bids, free, refval, s, eps);
  }

  /** The turn of payoff row `row`, which stands for full rows [rowptr[rA], rowptr[rA+1]). */
  method SMTurn(row: seq<Entry>, rA: int, rowptr: seq<int>, colptr: seq<int>, s: AuctAssoc, eps: int, neg: int)
    requires s.Valid() && 0 <= rA < |rowptr| - 1
    requires RowColsBelow(row, |colptr| - 1) && GroupsWithin(colptr, s.assoc.ncols) && GroupsReadable(colptr, s.assoc.ncols)
    modifies s.assoc`nnz, s.assoc.rowassign, s.assoc.colassign, s.prices, s.profits
    ensures s.Valid()
    ensures s.State() == SMRow(old(s.State()), row, rA, rowptr, colptr, eps, neg)
  {
    ghost var st := s.State();
    var free, used := GroupRows(s, rowptr[rA], rowptr[rA + 1]);
    if |free| > 0 {
      var l := BuildShortlist(row, colptr, s, used, |free| + 1, neg);
      assert l == Shortlist(st, row, rA, rowptr, colptr, neg);
      if l[0].grp != -1 {
        ShortlistIn(st, row, rA, rowptr, colptr, neg);
        Bids(row, l, free, colptr, s, eps, neg);
      }
    }
  }

  /** tr[k] is the state after the first k payoff rows' turns. */
  ghost predicate SMAt(tr: seq<AuctState>, k: int, st0: AuctState, a: seq<seq<Entry>>, rowptr: seq<int>, colptr: seq<int>, eps: int, neg: int)
  {
    && 0 <= k < |tr| && k <= |a| < |rowptr| && ColsBelow(a, |colptr| - 1)
    && GroupsWithin(colptr, |st0.prices|) && GroupsReadable(colptr, |st0.prices|)
    && tr[k] == SMUpto(st0, a, k, rowptr, colptr, eps, neg)
  }

  lemma SMTrace(st0: AuctState, a: seq<seq<Entry>>, rowptr: seq<int>, colptr: seq<int>, eps: int, neg: int) returns (tr: seq<AuctState>)
    requires |a| < |rowptr| && ColsBelow(a, |colptr| - 1)
    requires GroupsWithin(colptr, |st0.prices|) && GroupsReadable(colptr, |st0.prices|)
    ensures |tr| == |a| + 1 && tr[0] == st0
    ensures forall k :: 0 <= k <= |a| ==> SMAt(tr, k, st0, a, rowptr, colptr, eps, neg)
  {
    tr := seq(|a| + 1, k requires 0 <= k <= |a| => SMUpto(st0, a, k, rowptr, colptr, eps, neg));
  }

  /** Payoff row i's turn, as a step of the cycle's fold. */
  method SMStepTurn(a: seq<seq<Entry>>, i: int, rowptr: seq<int>, colptr: seq<int>, s: AuctAssoc, eps: int, neg: int, ghost st0: AuctState, ghost tr: seq<AuctState>)
    requires s.Valid() && 0 <= i < |a| && s.assoc.ncols == |st0.prices|
    requires |tr| == |a| + 1 && forall k :: 0 <= k <= |a| ==> SMAt(tr, k, st0, a, rowptr, colptr, eps, neg)
    requires s.State() == tr[i]
    modifies s.assoc`nnz, s.assoc.rowassign, s.assoc.colassign, s.prices, s.profits
    ensures s.Valid()
    ensures s.State() == tr[i + 1]
  {
    assert SMAt(tr, i, st0, a, rowptr, colptr, eps, neg) && SMAt(tr, i + 1, st0, a, rowptr, colptr, eps, neg);
    assert RowColsBelow(a[i], |colptr| - 1);
    SMTurn(a[i], i, rowptr, colptr, s, eps, neg);
  }

  /**
   * auct_cycle_SM: every payoff row in turn, each bidding for all of its
   * free full rows at once.
   */
  method CycleSM(a: seq<seq<Entry>>, rowptr: seq<int>, colptr: seq<int>, s: AuctAssoc, prms: AuctParm)
    requires s.Valid() && |a| < |rowptr| && ColsBelow(a, |colptr| - 1)
    requires GroupsWithin(colptr, s.assoc.ncols) && GroupsReadable(colptr, s.assoc.ncols)
    modifies s.assoc`nnz, s.assoc.rowassign, s.assoc.colassign, s.prices, s.profits
    ensures s.Valid()
    ensures s.State() == SMCycle(old(s.State()), a, rowptr, colptr, prms.epsilon, -prms.maxint)
  {
    var neg, eps := -prms.maxint, prms.epsilon;
    ghost var st0 := s.State();
    ghost var tr := SMTrace(st0, a, rowptr, colptr, eps, neg);
    var i := 0;
    while i < |a|
      invariant 0 <= i <= |a|
      invariant s.Valid() && s.assoc.ncols == |st0.prices|
      invariant s.State() == tr[i]
    {
      SMStepTurn(a, i, rowptr, colptr, s, eps, neg, st0, tr);
      i := i + 1;
    }
    assert SMAt(tr, |a|, st0, a, rowptr, colptr, eps, neg);
  }
}
