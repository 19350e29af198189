/**
 * AuctAssoc (AuctAssoc.h / AuctAssoc.cpp): an association matrix that
 * also carries a price per column and a profit per row. The source
 * derives it from AssocMatrix; here it holds one, and every method is
 * proved against the functions of `PriceModel`.
 */
module Pricing {
  import opened Assoc
  import opened Shape
  import opened PriceModel

  /** n zeros (the std::fill of the constructors). */
  function Zeros(n: nat): (s: seq<int>)
    ensures |s| == n && forall i :: 0 <= i < n ==> s[i] == 0
  {
    seq(n, _ => 0)
  }

  /** The expanded row and column counts of a shape, brought up to date first. */
  method FullSizes(sh: AuctShape) returns (nr: int, nc: int)
    requires sh.Valid()
    requires sh.computeFlag == 2 ==> InRange(sh.rowmap, sh.n) && InRange(sh.colmap, sh.m)
    modifies sh`rowmap, sh`colmap, sh`computeFlag, sh.rowmult, sh.colmult, sh.rowptr, sh.colptr
    ensures sh.Valid() && sh.computeFlag == 0
    ensures sh.Model() == IfCompute(old(sh.Model()))
    ensures nr == |sh.rowmap| && nc == |sh.colmap|
  {
    ghost var st0 := sh.Model();
    nr := sh.NFullRows();
    ghost var st1 := sh.Model();
    IfComputeSynced(st0);
    IfComputeSynced(st1);
    nc := sh.NFullCols();
    assert sh.Model() == st1;
  }

  method NewZeros(n: nat) returns (a: array<int>)
    ensures fresh(a) && a[..] == Zeros(n)
  {
    a := new int[n](_ => 0);
    assert a[..] == Zeros(n);
  }

  class AuctAssoc {
    /** The association part (the AssocMatrix base). */
    const assoc: AssocMatrix
    /** Indexed by column. */
    var prices: array<int>
    /** Indexed by row. */
    var profits: array<int>

    ghost function State(): AuctState
      reads this, assoc, assoc.rowassign, assoc.colassign, prices, profits
    {
      AuctState(assoc.Model(), prices[..], profits[..])
    }

    ghost predicate Valid()
      reads this, assoc, assoc.rowassign, assoc.colassign, prices, profits
    {
      && assoc.Valid()
      && prices != profits
      && prices != assoc.rowassign && prices != assoc.colassign
      && profits != assoc.rowassign && profits != assoc.colassign
      && prices.Length == assoc.ncols && profits.Length == assoc.nrows
    }

    /** Valid objects hold a well-sized state. */
    lemma ValidSized()
      requires Valid()
      ensures Sized(State())
    {
    }

    /** AuctAssoc(N, M): nothing associated, every price and profit 0. */
    constructor (n: nat, m: nat)
      ensures Valid() && fresh(assoc) && fresh(assoc.rowassign) && fresh(assoc.colassign)
      ensures fresh(prices) && fresh(profits)
      ensures State() == AuctState(Empty(n, m), Zeros(m), Zeros(n))
    {
      assoc := new AssocMatrix(n, m);
      var pr := NewZeros(m);
      var pf := NewZeros(n);
      prices, profits := pr, pf;
    }

    /** AuctAssoc(N): the square case. */
    constructor Square(n: nat)
      ensures Valid() && fresh(assoc) && fresh(assoc.rowassign) && fresh(assoc.colassign)
      ensures fresh(prices) && fresh(profits)
      ensures State() == AuctState(Empty(n, n), Zeros(n), Zeros(n))
    {
      assoc := new AssocMatrix(n, n);
      var pr := NewZeros(n);
      var pf := NewZeros(n);
      prices, profits := pr, pf;
    }

    /**
     * AuctAssoc(S): sized by the expanded rows and columns of the shape,
     * which brings the shape up to date first.
     */
    constructor FromShape(sh: AuctShape)
      requires sh.Valid()
      requires sh.computeFlag == 2 ==> InRange(sh.rowmap, sh.n) && InRange(sh.colmap, sh.m)
      modifies sh`rowmap, sh`colmap, sh`computeFlag, sh.rowmult, sh.colmult, sh.rowptr, sh.colptr
      ensures sh.Valid() && sh.computeFlag == 0
      ensures sh.Model() == IfCompute(old(sh.Model()))
      ensures Valid() && fresh(assoc) && fresh(assoc.rowassign) && fresh(assoc.colassign)
      ensures fresh(prices) && fresh(profits)
      ensures State() == AuctState(Empty(|sh.rowmap|, |sh.colmap|), Zeros(|sh.colmap|), Zeros(|sh.rowmap|))
    {
      var nr, nc := FullSizes(sh);
      assoc := new AssocMatrix(nr, nc);
      var pr := NewZeros(nc);
      var pf := NewZeros(nr);
      prices, profits := pr, pf;
    }

    /** Price(ind): the price of column ind. */
    function Price(ind: int): (v: int)
      reads this, assoc, assoc.rowassign, assoc.colassign, prices, profits
      requires Valid() && 0 <= ind < assoc.ncols
      ensures v == State().prices[ind]
    {
      prices[ind]
    }

    /** Prof(ind): the profit of row ind. */
    function Prof(ind: int): (v: int)
      reads this, assoc, assoc.rowassign, assoc.colassign, prices, profits
      requires Valid() && 0 <= ind < assoc.nrows
      ensures v == State().profits[ind]
    {
      profits[ind]
    }

    /** set_Price: writes the price of column ind; a negative index is ignored. */
    method SetPrice(ind: int, value: int)
      requires Valid() && ind < assoc.ncols
      modifies prices
      ensures Valid()
      ensures prices[..] == if ind > -1 then old(prices[..])[ind := value] else old(prices[..])
    {
      if ind > -1 {
        prices[ind] := value;
      }
    }

    /** set_Prof: writes the profit of row ind; a negative index is ignored. */
    method SetProf(ind: int, value: int)
      requires Valid() && ind < assoc.nrows
      modifies profits
      ensures Valid()
      ensures profits[..] == if ind > -1 then old(profits[..])[ind := value] else old(profits[..])
    {
      if ind > -1 {
        profits[ind] := value;
      }
    }

    /** get_prices: copies the Ncols prices into the front of `out`. */
    method GetPrices(out: array<int>)
      requires Valid() && out.Length >= assoc.ncols
      requires out != prices && out != profits && out != assoc.rowassign && out != assoc.colassign
      modifies out
      ensures out[..assoc.ncols] == prices[..]
      ensures out[assoc.ncols..] == old(out[assoc.ncols..])
    {
      forall i | 0 <= i < assoc.ncols {
        out[i] := prices[i];
      }
    }

    /** set_prices: copies the front Ncols entries of `inp` into the prices. */
    method SetPrices(inp: array<int>)
      requires Valid() && inp.Length >= assoc.ncols && inp != prices
      modifies prices
      ensures Valid()
      ensures prices[..] == inp[..assoc.ncols]
    {
      forall i | 0 <= i < assoc.ncols {
        prices[i] := inp[i];
      }
    }

    /** get_profits: copies the Nrows profits into the front of `out`. */
    method GetProfits(out: array<int>)
      requires Valid() && out.Length >= assoc.nrows
      requires out != prices && out != profits && out != assoc.rowassign && out != assoc.colassign
      modifies out
      ensures out[..assoc.nrows] == profits[..]
      ensures out[assoc.nrows..] == old(out[assoc.nrows..])
    {
      forall i | 0 <= i < assoc.nrows {
        out[i] := profits[i];
      }
    }

    /** set_profits: copies the front Nrows entries of `inp` into the profits. */
    method SetProfits(inp: array<int>)
      requires Valid() && inp.Length >= assoc.nrows && inp != profits
      modifies profits
      ensures Valid()
      ensures profits[..] == inp[..assoc.nrows]
    {
      forall i | 0 <= i < assoc.nrows {
        profits[i] := inp[i];
      }
    }

    /**
     * is_consistent: the shape, once brought up to date, has as many
     * expanded rows and columns as this matrix has rows and columns.
     */
    method IsConsistent(sh: AuctShape) returns (b: bool)
      requires Valid() && sh.Valid()
      requires sh.computeFlag == 2 ==> InRange(sh.rowmap, sh.n) && InRange(sh.colmap, sh.m)
      modifies sh`rowmap, sh`colmap, sh`computeFlag, sh.rowmult, sh.colmult, sh.rowptr, sh.colptr
      ensures sh.Valid() && sh.computeFlag == 0
      ensures sh.Model() == IfCompute(old(sh.Model()))
      ensures b <==> |sh.rowmap| == assoc.nrows && |sh.colmap| == assoc.ncols
    {
      var nr := sh.NFullRows();
      b := nr == assoc.nrows;
      if b {
        var nc := sh.NFullCols();
        IfComputeSynced(old(sh.Model()));
        b := nc == assoc.ncols;
      }
    }

    /** transpose: the association is transposed and the price and profit arrays change places. */
    method Transpose()
      requires Valid()
      modifies this`prices, this`profits, assoc`nrows, assoc`ncols, assoc`rowassign, assoc`colassign
      ensures Valid()
      ensures State() == TransposedState(old(State()))
      ensures prices == old(profits) && profits == old(prices)
      ensures assoc.rowassign == old(assoc.colassign) && assoc.colassign == old(assoc.rowassign)
    {
      assoc.Transpose();
      prices, profits := profits, prices;
    }

    /** min_price: the smallest price; the source dereferences an empty range, so Ncols > 0. */
    function MinPrice(): (v: int)
      reads this, assoc, assoc.rowassign, assoc.colassign, prices, profits
      requires Valid() && assoc.ncols > 0
      ensures exists c :: 0 <= c < prices.Length && v == prices[c]
      ensures forall c :: 0 <= c < prices.Length ==> v <= prices[c]
    {
      var xs := prices[..];
      ExtremesMeaning(xs);
      var v := MinOr0(xs);
      assert forall c :: 0 <= c < prices.Length ==> prices[c] == xs[c] && xs[c] in xs;
      assert exists c :: 0 <= c < |xs| && xs[c] == v;
      v
    }

    /**
     * max_price_in_colrange: the largest price among columns [first, last). On an empty range
     * std::max_element returns its end, so the price read is the one at last, which must exist.
     */
    function MaxPriceInColRange(first: int, last: int): (v: int)
      reads this, assoc, assoc.rowassign, assoc.colassign, prices, profits
      requires Valid() && 0 <= first <= last <= assoc.ncols && (first < last || last < assoc.ncols)
      ensures first == last ==> v == prices[last]
      ensures first < last ==> exists c :: first <= c < last && v == prices[c]
      ensures first < last ==> forall c :: first <= c < last ==> prices[c] <= v
    {
      if first == last then prices[last] else
      var xs := prices[first..last];
      ExtremesMeaning(xs);
      var v := MaxOr0(xs);
      assert forall c :: first <= c < last ==> prices[c] == xs[c - first] && xs[c - first] in xs;
      assert exists t :: 0 <= t < |xs| && xs[t] == v && prices[first + t] == v;
      v
    }

    /**
     * min_price_in_colrange: the smallest price among columns [first, last). On an empty range
     * std::min_element returns its end, so the price read is the one at last, which must exist.
     */
    function MinPriceInColRange(first: int, last: int): (v: int)
      reads this, assoc, assoc.rowassign, assoc.colassign, prices, profits
      requires Valid() && 0 <= first <= last <= assoc.ncols && (first < last || last < assoc.ncols)
      ensures first == last ==> v == prices[last]
      ensures first < last ==> exists c :: first <= c < last && v == prices[c]
      ensures first < last ==> forall c :: first <= c < last ==> v <= prices[c]
    {
      if first == last then prices[last] else
      var xs := prices[first..last];
      ExtremesMeaning(xs);
      var v := MinOr0(xs);
      assert forall c :: first <= c < last ==> prices[c] == xs[c - first] && xs[c - first] in xs;
      assert exists t :: 0 <= t < |xs| && xs[t] == v && prices[first + t] == v;
      v
    }

    /** max_price_in_rowrange: the largest price held by a row in [first, last), floored at 0. */
    method MaxPriceInRowRange(first: int, last: int) returns (v: int)
      requires Valid()
      ensures v == RowRangeMax(assoc.Model(), prices[..], first, last)
    {
      ghost var p := assoc.Model();
      ghost var pr := prices[..];
      v := 0;
      if last <= first {
        return;
      }
      var j := first;
      while j < last
        invariant first <= j <= last
        invariant v == Max(0, MaxOr0(RowRangePrices(p, pr, first, j)))
      {
        var col := assoc.Col(j);
        ghost var xs := RowRangePrices(p, pr, first, j);
        assert RowRangePrices(p, pr, first, j + 1) == if col >= 0 then xs + [prices[col]] else xs;
        if col >= 0 {
          MaxFloorStep(xs, prices[col], v);
          if prices[col] > v {
            v := prices[col];
          }
        }
        j := j + 1;
      }
    }

    /**
     * min_price_in_rowrange as written: the start-flag loop compares with
     * `>`, so it returns the largest held price (0 when none is held).
     */
    method MinPriceInRowRangeAsWritten(first: int, last: int) returns (v: int)
      requires Valid()
      ensures v == RowRangeMinAsWritten(assoc.Model(), prices[..], first, last)
    {
      ghost var p := assoc.Model();
      ghost var pr := prices[..];
      v := 0;
      if last <= first {
        return;
      }
      var start := true;
      var j := first;
      while j < last
        invariant first <= j <= last
        invariant start <==> |RowRangePrices(p, pr, first, j)| == 0
        invariant v == MaxOr0(RowRangePrices(p, pr, first, j))
      {
        var col := assoc.Col(j);
        ghost var xs := RowRangePrices(p, pr, first, j);
        assert RowRangePrices(p, pr, first, j + 1) == if col >= 0 then xs + [prices[col]] else xs;
        if col >= 0 {
          MaxStep(xs, prices[col], start, v);
          if prices[col] > v || start {
            start := false;
            v := prices[col];
          }
        }
        j := j + 1;
      }
    }

    /** min_price_in_rowrange, corrected: the smallest price held by a row in [first, last), 0 when none is held. */
    method MinPriceInRowRange(first: int, last: int) returns (v: int)
      requires Valid()
      ensures v == RowRangeMin(assoc.Model(), prices[..], first, last)
    {
      ghost var p := assoc.Model();
      ghost var pr := prices[..];
      v := 0;
      if last <= first {
        return;
      }
      var start := true;
      var j := first;
      while j < last
        invariant first <= j <= last
        invariant start <==> |RowRangePrices(p, pr, first, j)| == 0
        invariant v == MinOr0(RowRangePrices(p, pr, first, j))
      {
        var col := assoc.Col(j);
        ghost var xs := RowRangePrices(p, pr, first, j);
        assert RowRangePrices(p, pr, first, j + 1) == if col >= 0 then xs + [prices[col]] else xs;
        if col >= 0 {
          MinStep(xs, prices[col], start, v);
          if prices[col] < v || start {
            start := false;
            v := prices[col];
          }
        }
        j := j + 1;
      }
    }

    /** get_minassoc: the smallest price of an assigned column (scanned by row), 0 when nothing is assigned. */
    method GetMinAssoc() returns (v: int)
      requires Valid()
      ensures v == RowRangeMin(assoc.Model(), prices[..], 0, assoc.nrows)
    {
      ghost var p := assoc.Model();
      ghost var pr := prices[..];
      var start := true;
      v := 0;
      var i := 0;
      while i < assoc.nrows
        invariant 0 <= i <= assoc.nrows
        invariant start <==> |RowRangePrices(p, pr, 0, i)| == 0
        invariant v == MinOr0(RowRangePrices(p, pr, 0, i))
      {
        var col := assoc.Col(i);
        ghost var xs := RowRangePrices(p, pr, 0, i);
        assert RowRangePrices(p, pr, 0, i + 1) == if col >= 0 then xs + [prices[col]] else xs;
        if col >= 0 {
          MinStep(xs, prices[col], start, v);
          if start || prices[col] < v {
            start := false;
            v := prices[col];
          }
        }
        i := i + 1;
      }
    }

    /**
     * get_maxunass: the largest price of an unassigned column, 0 when
     * every column is assigned.
     */
    method GetMaxUnass() returns (v: int)
      requires Valid()
      ensures v == MaxOr0(UnassignedPrices(assoc.Model(), prices[..], assoc.ncols))
    {
      ghost var p := assoc.Model();
      ghost var pr := prices[..];
      var start := true;
      v := 0;
      var i := 0;
      while i < assoc.ncols
        invariant 0 <= i <= assoc.ncols
        invariant start <==> |UnassignedPrices(p, pr, i)| == 0
        invariant v == MaxOr0(UnassignedPrices(p, pr, i))
      {
        var r := assoc.Row(i);
        ghost var xs := UnassignedPrices(p, pr, i);
        UnassignedPricesSnoc(p, pr, i);
        if r < 0 {
          MaxStep(xs, prices[i], start, v);
          if start || prices[i] > v {
            start := false;
            v := prices[i];
          }
        }
        i := i + 1;
      }
    }

    /** get_minassoc_prof: the smallest profit of an assigned row, 0 when nothing is assigned. */
    method GetMinAssocProf() returns (v: int)
      requires Valid()
      ensures v == MinOr0(RowProfits(assoc.Model(), profits[..], assoc.nrows, true))
    {
      ghost var p := assoc.Model();
      ghost var pf := profits[..];
      var start := true;
      v := 0;
      var i := 0;
      while i < assoc.nrows
        invariant 0 <= i <= assoc.nrows
        invariant start <==> |RowProfits(p, pf, i, true)| == 0
        invariant v == MinOr0(RowProfits(p, pf, i, true))
      {
        var c := assoc.Col(i);
        ghost var xs := RowProfits(p, pf, i, true);
        RowProfitsSnoc(p, pf, i, true);
        if c >= 0 {
          MinStep(xs, profits[i], start, v);
          if start || profits[i] < v {
            start := false;
            v := profits[i];
          }
        }
        i := i + 1;
      }
    }

    /** get_maxunass_prof: the largest profit of an unassigned row, 0 when every row is assigned. */
    method GetMaxUnassProf() returns (v: int)
      requires Valid()
      ensures v == MaxOr0(RowProfits(assoc.Model(), profits[..], assoc.nrows, false))
    {
      ghost var p := assoc.Model();
      ghost var pf := profits[..];
      var start := true;
      v := 0;
      var i := 0;
      while i < assoc.nrows
        invariant 0 <= i <= assoc.nrows
        invariant start <==> |RowProfits(p, pf, i, false)| == 0
        invariant v == MaxOr0(RowProfits(p, pf, i, false))
      {
        var c := assoc.Col(i);
        ghost var xs := RowProfits(p, pf, i, false);
        RowProfitsSnoc(p, pf, i, false);
        if c < 0 {
          MaxStep(xs, profits[i], start, v);
          if start || profits[i] > v {
            start := false;
            v := profits[i];
          }
        }
        i := i + 1;
      }
    }

    /**
     * The first pass of hidden_bid: the (price, column) lists of the
     * assigned and of the unassigned columns, the smallest assigned price
     * capped at MAXINT and the largest unassigned price floored at 0.
     */
    method Partition(maxint: int) returns (sa: seq<Bid>, su: seq<Bid>, minassoc: int, maxunass: int)
      requires Valid()
      ensures sa == ColBids(assoc.Model(), prices[..], prices.Length, true)
      ensures su == ColBids(assoc.Model(), prices[..], prices.Length, false)
      ensures minassoc == MinValue(maxint, sa) && maxunass == MaxValue(0, su)
      ensures forall t :: 0 <= t < |su| ==> 0 <= su[t].index < prices.Length
    {
      ghost var p := assoc.Model();
      ghost var pr := prices[..];
      sa, su := [], [];
      minassoc, maxunass := maxint, 0;
      var i := 0;
      while i < prices.Length
        invariant 0 <= i <= prices.Length
        invariant sa == ColBids(p, pr, i, true) && su == ColBids(p, pr, i, false)
        invariant minassoc == MinValue(maxint, sa) && maxunass == MaxValue(0, su)
      {
        var b := Bid(prices[i], i);
        BidsSnoc(p, pr, i);
        if assoc.Row(i) >= 0 {
          ValueSnoc(maxint, sa, b);
          sa := sa + [b];
          minassoc := if minassoc < prices[i] then minassoc else prices[i];
        } else {
          ValueSnoc(0, su, b);
          su := su + [b];
          maxunass := if maxunass < prices[i] then prices[i] else maxunass;
        }
        i := i + 1;
      }
      ColBidsMembers(p, pr, prices.Length, false);
      forall t | 0 <= t < |su|
        ensures 0 <= su[t].index < prices.Length
      {
        assert su[t] in su;
      }
    }

    /** The last pass of hidden_bid: every listed column from position `from` on gets price v. */
    method Reprice(su: seq<Bid>, from: nat, v: int)
      requires Valid() && from <= |su|
      requires forall t :: 0 <= t < |su| ==> 0 <= su[t].index < prices.Length
      modifies prices
      ensures Valid()
      ensures prices[..] == SetAll(old(prices[..]), Indices(su[from..]), v)
    {
      var j := from;
      while j < |su|
        invariant from <= j <= |su|
        invariant prices[..] == SetAll(old(prices[..]), Indices(su[from..j]), v)
      {
        assert Indices(su[from..j + 1])[..j - from] == Indices(su[from..j]);
        prices[su[j].index] := v;
        j := j + 1;
      }
      assert su[from..|su|] == su[from..];
    }

    /** One round of the eviction loop: the column of sa[k] loses its pair. */
    method EvictNext(ghost p0: Pairing, sa: seq<Bid>, k: nat)
      requires Valid() && Consistent(p0) && k < |sa| && DistinctIdx(sa)
      requires forall t :: 0 <= t < |sa| ==> 0 <= sa[t].index < NCols(p0) && LookupRow(p0, sa[t].index) >= 0
      requires assoc.Model() == EvictAll(p0, Indices(sa[..k]))
      modifies assoc`nnz, assoc.rowassign, assoc.colassign
      ensures Valid() && assoc.Model() == EvictAll(p0, Indices(sa[..k + 1]))
    {
      ghost var e := Indices(sa);
      assert e[..k] == Indices(sa[..k]) && e[..k + 1] == Indices(sa[..k + 1]);
      assert forall t :: 0 <= t < |e| ==> 0 <= e[t] < NCols(p0) && LookupRow(p0, e[t]) >= 0;
      assert forall a, b :: 0 <= a < b < |e| ==> e[a] != e[b];
      EvictStep(p0, e, k);
      EvictAllSnoc(p0, e, k);
      var cola := sa[k].index;
      UnpairIsClear(assoc.Model(), cola);
      var rowa := assoc.Row(cola);
      assoc.ClearPair(rowa, cola);
    }

    /**
     * The eviction loop of hidden_bid: from position 0, while below nbids
     * and the assigned price is below the unassigned one, the assigned
     * column loses its pair; `last` is the last evicted price (minassoc
     * when none is evicted).
     */
    method EvictOutbid(sa: seq<Bid>, su: seq<Bid>, nbids: nat, minassoc: int) returns (k: nat, last: int)
      requires Valid() && nbids <= |sa| && nbids <= |su|
      requires DistinctIdx(sa)
      requires forall t :: 0 <= t < |sa| ==> 0 <= sa[t].index < assoc.ncols && LookupRow(assoc.Model(), sa[t].index) >= 0
      modifies assoc`nnz, assoc.rowassign, assoc.colassign
      ensures Valid()
      ensures k == WinsFrom(sa, su, 0, nbids)
      ensures last == if k == 0 then minassoc else sa[k - 1].value
      ensures assoc.Model() == EvictAll(old(assoc.Model()), Indices(sa[..k]))
    {
      ghost var p0 := assoc.Model();
      k, last := 0, minassoc;
      assert sa[..0] == [];
      while k < nbids && sa[k].value < su[k].value
        invariant 0 <= k <= nbids
        invariant WinsFrom(sa, su, k, nbids) == WinsFrom(sa, su, 0, nbids)
        invariant Valid() && assoc.Model() == EvictAll(p0, Indices(sa[..k]))
        invariant last == if k == 0 then minassoc else sa[k - 1].value
      {
        EvictNext(p0, sa, k);
        last := sa[k].value;
        k := k + 1;
      }
    }

    /**
     * The bidding branch of hidden_bid: both lists partially sorted to the
     * bid count (assigned ascending, unassigned descending), the outbid
     * assigned columns evicted, the rest of the unassigned list repriced.
     */
    method Outbid(sa: seq<Bid>, su: seq<Bid>, minassoc: int, maxunass: int) returns (sa': seq<Bid>, su': seq<Bid>, k: nat, last: int)
      requires Valid()
      requires sa == ColBids(assoc.Model(), prices[..], prices.Length, true)
      requires su == ColBids(assoc.Model(), prices[..], prices.Length, false)
      requires var nbids := Min(Min(assoc.ncols - assoc.nrows, |sa|), |su|);
        nbids > 0 && minassoc < maxunass
      modifies prices, assoc`nnz, assoc.rowassign, assoc.colassign
      ensures Valid()
      ensures BidOrLowerDone(old(assoc.Model()), old(prices[..]), sa, su, minassoc, maxunass, sa', su', k, last, assoc.Model(), prices[..])
    {
      ghost var p0, pr0 := assoc.Model(), prices[..];
      var nbids := Min(Min(assoc.ncols - assoc.nrows, |sa|), |su|);
      assert nbids == Min(Min(NCols(p0) - NRows(p0), |sa|), |su|);
      sa', su' := PartialSort(sa, nbids, true), PartialSort(su, nbids, false);
      SortedAssocFacts(p0, pr0, nbids, sa');
      SortedUnassocFacts(p0, pr0, nbids, su');
      k, last := EvictOutbid(sa', su', nbids, minassoc);
      Reprice(su', k, last);
      assert BidOrLowerDone(p0, pr0, sa, su, minassoc, maxunass, sa', su', k, last, assoc.Model(), prices[..]);
    }

    /**
     * hidden_bid after its first pass: bid when there are bids to make and
     * some assigned price is below some unassigned one, otherwise give
     * every unassigned column minassoc - 1.
     */
    method BidOrLower(sa: seq<Bid>, su: seq<Bid>, minassoc: int, maxunass: int) returns (sa': seq<Bid>, su': seq<Bid>, k: nat, last: int)
      requires Valid()
      requires sa == ColBids(assoc.Model(), prices[..], prices.Length, true)
      requires su == ColBids(assoc.Model(), prices[..], prices.Length, false)
      requires forall t :: 0 <= t < |su| ==> 0 <= su[t].index < prices.Length
      modifies prices, assoc`nnz, assoc.rowassign, assoc.colassign
      ensures Valid()
      ensures BidOrLowerDone(old(assoc.Model()), old(prices[..]), sa, su, minassoc, maxunass, sa', su', k, last, assoc.Model(), prices[..])
    {
      var nbids := Min(Min(assoc.ncols - assoc.nrows, |sa|), |su|);
      if nbids > 0 && minassoc < maxunass {
        sa', su', k, last := Outbid(sa, su, minassoc, maxunass);
      } else {
        sa', su', k, last := sa, su, 0, minassoc - 1;
        Reprice(su, 0, minassoc - 1);
      }
    }

    /**
     * hidden_bid (MAXINT passed as maxint): while the cheapest assigned
     * price is below the dearest unassigned one, position by position, the
     * assigned column is evicted; then the remaining unassigned columns
     * are repriced. The result is the `PriceModel.HiddenBid` function.
     */
    method HiddenBid(maxint: int)
      requires Valid()
      modifies prices, assoc`nnz, assoc.rowassign, assoc.colassign
      ensures Valid()
      ensures State() == PriceModel.HiddenBid(old(State()), maxint)
    {
      ghost var st0 := State();
      var sa, su, minassoc, maxunass := Partition(maxint);
      var sa', su', k, last := BidOrLower(sa, su, minassoc, maxunass);
      HiddenBidSteps(st0, maxint, sa, su, minassoc, maxunass, sa', su', k, last, State());
    }

    /** The inner loop of group_price_equalize: the columns held by rows lo .. hi-1 get price v. */
    method SetGroupPrices(lo: int, hi: int, v: int)
      requires Valid()
      modifies prices
      ensures Valid()
      ensures prices[..] == SetGroup(assoc.Model(), old(prices[..]), lo, hi, v)
    {
      ghost var p := assoc.Model();
      ghost var pr := prices[..];
      var j := lo;
      while j < hi
        invariant j == lo || lo < j <= hi
        invariant Valid() && assoc.Model() == p
        invariant prices[..] == SetGroup(p, pr, lo, j, v)
      {
        ghost var before := prices[..];
        var col := assoc.Col(j);
        if col >= 0 {
          prices[col] := v;
        }
        assert prices[..] == Put(before, LookupCol(p, j), v);
        j := j + 1;
      }
    }

    /** The loop of group_price_equalize over the group pointers ptr[0] .. ptr[|ptr|-1]. */
    method EqualizeGroups(ptr: seq<int>)
      requires Valid() && |ptr| > 0
      modifies prices
      ensures Valid()
      ensures prices[..] == Equalize(assoc.Model(), old(prices[..]), ptr, |ptr| - 1)
    {
      ghost var p := assoc.Model();
      var i := 0;
      while i < |ptr| - 1
        invariant 0 <= i < |ptr|
        invariant Valid() && assoc.Model() == p
        invariant prices[..] == Equalize(p, old(prices[..]), ptr, i)
      {
        ghost var before := prices[..];
        var mpg := MaxPriceInRowRange(ptr[i], ptr[i + 1]);
        SetGroupPrices(ptr[i], ptr[i + 1], mpg);
        assert prices[..] == SetGroup(p, before, ptr[i], ptr[i + 1], RowRangeMax(p, before, ptr[i], ptr[i + 1]));
        i := i + 1;
      }
    }

    /**
     * group_price_equalize: for each row group of the shape in turn, the
     * columns held by the group's rows get the group's largest held price.
     */
    method GroupPriceEqualize(sh: AuctShape)
      requires Valid() && sh.Valid()
      requires prices != sh.rowptr
      modifies prices
      ensures Valid()
      ensures prices[..] == Equalize(assoc.Model(), old(prices[..]), sh.rowptr[..], sh.n)
    {
      var ptr := sh.rowptr[..];
      EqualizeGroups(ptr);
    }

    /**
     * numAssoc(Sh, i, j): the number of pairs in the block of expanded
     * rows of row i and expanded columns of column j; at most the row's
     * multiplicity once the shape is up to date.
     */
    method NumAssoc(sh: AuctShape, i: int, j: int) returns (v: int)
      requires Valid() && sh.Valid()
      ensures v == BlockValue(assoc.Model(), sh.GetRowPtr(i), sh.GetRowPtr(i + 1), sh.GetColPtr(j), sh.GetColPtr(j + 1))
      ensures sh.computeFlag == 0 && 0 <= i < sh.n ==> 0 <= v <= Clamp(sh.rowmult[i])
    {
      v := assoc.BlockVal(sh.GetRowPtr(i), sh.GetRowPtr(i + 1), sh.GetColPtr(j), sh.GetColPtr(j + 1));
      if sh.computeFlag == 0 && 0 <= i < sh.n {
        assert sh.rowmult[..i + 1][..i] == sh.rowmult[..i];
      }
    }

    /**
     * getrowassign: per expanded row, the original payoff column of its
     * associated column (through the shape's column map), -1 when the row
     * is unassigned.
     */
    method GetRowAssign(sh: AuctShape) returns (ovec: seq<int>)
      requires Valid() && sh.Valid()
      ensures |ovec| == assoc.nrows
      ensures forall r :: 0 <= r < assoc.nrows ==> ovec[r] == sh.GetColMap(assoc.colassign[r])
      ensures forall r :: 0 <= r < assoc.nrows && assoc.colassign[r] == -1 ==> ovec[r] == -1
      ensures sh.computeFlag == 0 && |sh.colmap| == assoc.ncols ==>
        forall r :: 0 <= r < assoc.nrows && assoc.colassign[r] != -1 ==>
          ovec[r] == sh.colmap[assoc.colassign[r]] && 0 <= ovec[r] < sh.m
    {
      ovec := [];
      var i := 0;
      while i < assoc.nrows
        invariant 0 <= i <= assoc.nrows
        invariant |ovec| == i
        invariant forall r :: 0 <= r < i ==> ovec[r] == sh.GetColMap(assoc.colassign[r])
      {
        ovec := ovec + [sh.GetColMap(assoc.Col(i))];
        i := i + 1;
      }
      if sh.computeFlag == 0 {
        SyncedSize(sh.Model().cols);
      }
    }

    /** getrowassign_id: per row, the column it holds, -1 when unassigned; each listed column points back. */
    method GetRowAssignId() returns (ovec: seq<int>)
      requires Valid()
      ensures ovec == assoc.colassign[..]
      ensures forall r :: 0 <= r < |ovec| ==> ovec[r] == -1 || (0 <= ovec[r] < assoc.ncols && assoc.rowassign[ovec[r]] == r)
    {
      ovec := [];
      var i := 0;
      while i < assoc.nrows
        invariant 0 <= i <= assoc.nrows
        invariant ovec == assoc.colassign[..i]
      {
        ovec := ovec + [assoc.Col(i)];
        i := i + 1;
      }
    }
  }
}
