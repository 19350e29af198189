/**
 * The pricing layer as values: an association together with a price per
 * column and a profit per row (AuctAssoc.h / AuctAssoc.cpp), the range
 * queries over them, the hidden bid of asymmetric problems and the
 * group price equalisation. The class in `Pricing` is proved against
 * these functions.
 */
module PriceModel {
  import opened Assoc

  /** Association, prices (one per column) and profits (one per row). */
  datatype AuctState = AuctState(pairs: Pairing, prices: seq<int>, profits: seq<int>)

  ghost predicate Sized(st: AuctState)
  {
    Consistent(st.pairs) && |st.prices| == NCols(st.pairs) && |st.profits| == NRows(st.pairs)
  }

  /** transpose: the association is transposed and prices and profits exchange places. */
  function TransposedState(st: AuctState): AuctState
  {
    AuctState(Transposed(st.pairs), st.profits, st.prices)
  }

  lemma TransposedStateInvolution(st: AuctState)
    requires Sized(st)
    ensures Sized(TransposedState(st))
    ensures TransposedState(TransposedState(st)) == st
  {
    TransposedConsistent(st.pairs);
  }

  function Min(a: int, b: int): int { if a < b then a else b }
  function Max(a: int, b: int): int { if a < b then b else a }

  // ------------------------------------------------------------------
  // Extremes of a list of values
  // ------------------------------------------------------------------

  function SeqMin(xs: seq<int>): (v: int)
    requires |xs| > 0
    ensures v in xs && forall x :: x in xs ==> v <= x
  {
    if |xs| == 1 then xs[0]
    else
      assert xs == xs[..|xs| - 1] + [xs[|xs| - 1]];
      Min(SeqMin(xs[..|xs| - 1]), xs[|xs| - 1])
  }

  function SeqMax(xs: seq<int>): (v: int)
    requires |xs| > 0
    ensures v in xs && forall x :: x in xs ==> x <= v
  {
    if |xs| == 1 then xs[0]
    else
      assert xs == xs[..|xs| - 1] + [xs[|xs| - 1]];
      Max(SeqMax(xs[..|xs| - 1]), xs[|xs| - 1])
  }

  /** The smallest value, or 0 for an empty list (the start-flag loops). */
  function MinOr0(xs: seq<int>): int
  {
    if |xs| == 0 then 0
    else if |xs| == 1 then xs[0]
    else Min(MinOr0(xs[..|xs| - 1]), xs[|xs| - 1])
  }

  /** The largest value, or 0 for an empty list (the start-flag loops). */
  function MaxOr0(xs: seq<int>): int
  {
    if |xs| == 0 then 0
    else if |xs| == 1 then xs[0]
    else Max(MaxOr0(xs[..|xs| - 1]), xs[|xs| - 1])
  }

  /** MinOr0 and MaxOr0 are 0 on an empty list, and otherwise attained bounds. */
  lemma {:induction false} ExtremesMeaning(xs: seq<int>)
    ensures |xs| == 0 ==> MinOr0(xs) == 0 && MaxOr0(xs) == 0
    ensures |xs| > 0 ==> MinOr0(xs) in xs && MaxOr0(xs) in xs
    ensures forall x :: x in xs ==> MinOr0(xs) <= x <= MaxOr0(xs)
  {
    if |xs| > 1 {
      var init := xs[..|xs| - 1];
      ExtremesMeaning(init);
      assert xs == init + [xs[|xs| - 1]];
    }
  }

  /** Appending one value updates the extremes by one comparison. */
  lemma ExtremesSnoc(xs: seq<int>, x: int)
    ensures MinOr0(xs + [x]) == if |xs| == 0 then x else Min(MinOr0(xs), x)
    ensures MaxOr0(xs + [x]) == if |xs| == 0 then x else Max(MaxOr0(xs), x)
  {
    assert (xs + [x])[..|xs|] == xs;
  }

  /** One step of a start-flag maximum loop: the first value, or a larger one, replaces v. */
  lemma MaxStep(xs: seq<int>, x: int, start: bool, v: int)
    requires (start <==> |xs| == 0) && v == MaxOr0(xs)
    ensures MaxOr0(xs + [x]) == if start || x > v then x else v
  {
    ExtremesSnoc(xs, x);
  }

  /** One step of a start-flag minimum loop: the first value, or a smaller one, replaces v. */
  lemma MinStep(xs: seq<int>, x: int, start: bool, v: int)
    requires (start <==> |xs| == 0) && v == MinOr0(xs)
    ensures MinOr0(xs + [x]) == if start || x < v then x else v
  {
    ExtremesSnoc(xs, x);
  }

  /** One step of a maximum loop that starts from 0. */
  lemma MaxFloorStep(xs: seq<int>, x: int, v: int)
    requires v == Max(0, MaxOr0(xs))
    ensures Max(0, MaxOr0(xs + [x])) == if x > v then x else v
  {
    ExtremesSnoc(xs, x);
  }

  // ------------------------------------------------------------------
  // The lists the range queries scan
  // ------------------------------------------------------------------

  /** Prices of the columns held by the rows in [lo, hi), in row order. */
  function RowRangePrices(p: Pairing, prices: seq<int>, lo: int, hi: int): seq<int>
    decreases hi - lo
  {
    if hi <= lo then []
    else
      var c := LookupCol(p, hi - 1);
      RowRangePrices(p, prices, lo, hi - 1) + (if 0 <= c < |prices| then [prices[c]] else [])
  }

  /** xs holds exactly the prices of the columns held by rows in [lo, hi). */
  predicate RangePricesOf(xs: seq<int>, p: Pairing, prices: seq<int>, lo: int, hi: int)
  {
    && (forall x :: x in xs ==> exists r :: lo <= r < hi && 0 <= LookupCol(p, r) < |prices| && x == prices[LookupCol(p, r)])
    && (forall r :: lo <= r < hi && 0 <= LookupCol(p, r) < |prices| ==> prices[LookupCol(p, r)] in xs)
  }

  /** The row-range list holds exactly the prices of the columns held by rows in the range. */
  lemma {:induction false} RowRangePricesMembers(p: Pairing, prices: seq<int>, lo: int, hi: int)
    ensures RangePricesOf(RowRangePrices(p, prices, lo, hi), p, prices, lo, hi)
    decreases hi - lo
  {
    if hi > lo {
      RowRangePricesMembers(p, prices, lo, hi - 1);
      var ys := RowRangePrices(p, prices, lo, hi - 1);
      var c := LookupCol(p, hi - 1);
      var xs := RowRangePrices(p, prices, lo, hi);
      assert RangePricesOf(ys, p, prices, lo, hi - 1);
      assert xs == ys + (if 0 <= c < |prices| then [prices[c]] else []);
      forall x | x in xs
        ensures exists r :: lo <= r < hi && 0 <= LookupCol(p, r) < |prices| && x == prices[LookupCol(p, r)]
      {
        if x in ys {
          var r :| lo <= r < hi - 1 && 0 <= LookupCol(p, r) < |prices| && x == prices[LookupCol(p, r)];
          assert lo <= r < hi;
        } else {
          assert 0 <= LookupCol(p, hi - 1) < |prices| && x == prices[LookupCol(p, hi - 1)];
        }
      }
      forall r | lo <= r < hi && 0 <= LookupCol(p, r) < |prices|
        ensures prices[LookupCol(p, r)] in xs
      {
        if r < hi - 1 {
          assert prices[LookupCol(p, r)] in ys;
        }
      }
    }
  }

  /** Prices of the unassigned columns among the first n, in column order. */
  function UnassignedPrices(p: Pairing, prices: seq<int>, n: nat): seq<int>
    requires n <= |prices|
  {
    if n == 0 then []
    else UnassignedPrices(p, prices, n - 1) + (if LookupRow(p, n - 1) < 0 then [prices[n - 1]] else [])
  }

  /** xs holds exactly the prices of the unassigned columns among the first n. */
  predicate UnassignedPricesOf(xs: seq<int>, p: Pairing, prices: seq<int>, n: nat)
    requires n <= |prices|
  {
    && (forall x :: x in xs ==> exists c :: 0 <= c < n && LookupRow(p, c) < 0 && x == prices[c])
    && (forall c :: 0 <= c < n && LookupRow(p, c) < 0 ==> prices[c] in xs)
  }

  /** The list holds exactly the prices of the unassigned columns among the first n. */
  lemma {:induction false} UnassignedPricesMembers(p: Pairing, prices: seq<int>, n: nat)
    requires n <= |prices|
    ensures UnassignedPricesOf(UnassignedPrices(p, prices, n), p, prices, n)
  {
    if n > 0 {
      UnassignedPricesMembers(p, prices, n - 1);
      var ys := UnassignedPrices(p, prices, n - 1);
      var xs := UnassignedPrices(p, prices, n);
      assert UnassignedPricesOf(ys, p, prices, n - 1);
      assert xs == ys + (if LookupRow(p, n - 1) < 0 then [prices[n - 1]] else []);
      forall x | x in xs
        ensures exists c :: 0 <= c < n && LookupRow(p, c) < 0 && x == prices[c]
      {
        if x in ys {
          var c :| 0 <= c < n - 1 && LookupRow(p, c) < 0 && x == prices[c];
          assert 0 <= c < n;
        } else {
          assert LookupRow(p, n - 1) < 0 && x == prices[n - 1];
        }
      }
      forall c | 0 <= c < n && LookupRow(p, c) < 0
        ensures prices[c] in xs
      {
        if c < n - 1 {
          assert prices[c] in ys;
        }
      }
    }
  }

  /** One more column extends the list by its price exactly when it is unassigned. */
  lemma UnassignedPricesSnoc(p: Pairing, prices: seq<int>, n: nat)
    requires n < |prices|
    ensures UnassignedPrices(p, prices, n + 1) == if LookupRow(p, n) < 0 then UnassignedPrices(p, prices, n) + [prices[n]] else UnassignedPrices(p, prices, n)
  {
    assert UnassignedPrices(p, prices, n) + [] == UnassignedPrices(p, prices, n);
  }

  /** Profits of the first n rows, keeping the assigned rows (`held`) or the unassigned ones. */
  function RowProfits(p: Pairing, profits: seq<int>, n: nat, held: bool): seq<int>
    requires n <= |profits|
  {
    if n == 0 then []
    else RowProfits(p, profits, n - 1, held) + (if (LookupCol(p, n - 1) >= 0) == held then [profits[n - 1]] else [])
  }

  /** One more row extends the list by its profit exactly when it is of the requested kind. */
  lemma RowProfitsSnoc(p: Pairing, profits: seq<int>, n: nat, held: bool)
    requires n < |profits|
    ensures RowProfits(p, profits, n + 1, held) == if (LookupCol(p, n) >= 0) == held then RowProfits(p, profits, n, held) + [profits[n]] else RowProfits(p, profits, n, held)
  {
    assert RowProfits(p, profits, n, held) + [] == RowProfits(p, profits, n, held);
  }

  /** xs holds exactly the profits of the first n rows that are assigned (`held`) or unassigned. */
  predicate RowProfitsOf(xs: seq<int>, p: Pairing, profits: seq<int>, n: nat, held: bool)
    requires n <= |profits|
  {
    && (forall x :: x in xs ==> exists r :: 0 <= r < n && (LookupCol(p, r) >= 0 <==> held) && x == profits[r])
    && (forall r :: 0 <= r < n && (LookupCol(p, r) >= 0 <==> held) ==> profits[r] in xs)
  }

  /** The list holds exactly the profits of the first n rows that are assigned (`held`) or unassigned. */
  lemma {:induction false} RowProfitsMembers(p: Pairing, profits: seq<int>, n: nat, held: bool)
    requires n <= |profits|
    ensures RowProfitsOf(RowProfits(p, profits, n, held), p, profits, n, held)
  {
    if n > 0 {
      RowProfitsMembers(p, profits, n - 1, held);
      var ys := RowProfits(p, profits, n - 1, held);
      var xs := RowProfits(p, profits, n, held);
      assert RowProfitsOf(ys, p, profits, n - 1, held);
      assert xs == ys + (if (LookupCol(p, n - 1) >= 0) == held then [profits[n - 1]] else []);
      forall x | x in xs
        ensures exists r :: 0 <= r < n && (LookupCol(p, r) >= 0 <==> held) && x == profits[r]
      {
        if x in ys {
          var r :| 0 <= r < n - 1 && (LookupCol(p, r) >= 0 <==> held) && x == profits[r];
          assert 0 <= r < n;
        } else {
          assert (LookupCol(p, n - 1) >= 0 <==> held) && x == profits[n - 1];
        }
      }
      forall r | 0 <= r < n && (LookupCol(p, r) >= 0 <==> held)
        ensures profits[r] in xs
      {
        if r < n - 1 {
          assert profits[r] in ys;
        }
      }
    }
  }

  /**
   * get_maxunass: the largest price of an unassigned column bounds every
   * such price and is attained, and is 0 when every column is assigned.
   */
  lemma UnassignedMaxMeaning(p: Pairing, prices: seq<int>)
    requires |prices| == NCols(p)
    ensures var v := MaxOr0(UnassignedPrices(p, prices, |prices|));
      && (forall c :: 0 <= c < |prices| && LookupRow(p, c) < 0 ==> prices[c] <= v)
      && ((exists c :: 0 <= c < |prices| && LookupRow(p, c) < 0) ==>
            exists c :: 0 <= c < |prices| && LookupRow(p, c) < 0 && prices[c] == v)
      && ((forall c :: 0 <= c < |prices| ==> LookupRow(p, c) >= 0) ==> v == 0)
  {
    var xs := UnassignedPrices(p, prices, |prices|);
    UnassignedPricesMembers(p, prices, |prices|);
    ExtremesMeaning(xs);
    if |xs| > 0 {
      assert xs[0] in xs;
    }
  }

  /**
   * get_minassoc_prof: the smallest profit of an assigned row bounds every
   * such profit and is attained, and is 0 when no row is assigned.
   */
  lemma AssignedProfitMinMeaning(p: Pairing, profits: seq<int>)
    requires |profits| == NRows(p)
    ensures var v := MinOr0(RowProfits(p, profits, |profits|, true));
      && (forall r :: 0 <= r < |profits| && LookupCol(p, r) >= 0 ==> v <= profits[r])
      && ((exists r :: 0 <= r < |profits| && LookupCol(p, r) >= 0) ==>
            exists r :: 0 <= r < |profits| && LookupCol(p, r) >= 0 && profits[r] == v)
      && ((forall r :: 0 <= r < |profits| ==> LookupCol(p, r) < 0) ==> v == 0)
  {
    var xs := RowProfits(p, profits, |profits|, true);
    RowProfitsMembers(p, profits, |profits|, true);
    ExtremesMeaning(xs);
    if |xs| > 0 {
      assert xs[0] in xs;
    }
  }

  /**
   * get_maxunass_prof: the largest profit of an unassigned row bounds every
   * such profit and is attained, and is 0 when every row is assigned.
   */
  lemma UnassignedProfitMaxMeaning(p: Pairing, profits: seq<int>)
    requires |profits| == NRows(p)
    ensures var w := MaxOr0(RowProfits(p, profits, |profits|, false));
      && (forall r :: 0 <= r < |profits| && LookupCol(p, r) < 0 ==> profits[r] <= w)
      && ((exists r :: 0 <= r < |profits| && LookupCol(p, r) < 0) ==>
            exists r :: 0 <= r < |profits| && LookupCol(p, r) < 0 && profits[r] == w)
      && ((forall r :: 0 <= r < |profits| ==> LookupCol(p, r) >= 0) ==> w == 0)
  {
    var ys := RowProfits(p, profits, |profits|, false);
    RowProfitsMembers(p, profits, |profits|, false);
    ExtremesMeaning(ys);
    if |ys| > 0 {
      assert ys[0] in ys;
    }
  }

  /** max_price_in_rowrange: the largest price held in the row range, floored at 0. */
  function RowRangeMax(p: Pairing, prices: seq<int>, lo: int, hi: int): int
  {
    var xs := RowRangePrices(p, prices, lo, hi);
    Max(0, MaxOr0(xs))
  }

  /** max_price_in_rowrange is 0 or more, bounds every held price in the range, and is attained unless 0. */
  lemma RowRangeMaxMeaning(p: Pairing, prices: seq<int>, lo: int, hi: int)
    ensures var v := RowRangeMax(p, prices, lo, hi);
      && v >= 0
      && (forall r :: lo <= r < hi && 0 <= LookupCol(p, r) < |prices| ==> prices[LookupCol(p, r)] <= v)
      && (v == 0 || exists r :: lo <= r < hi && 0 <= LookupCol(p, r) < |prices| && prices[LookupCol(p, r)] == v)
  {
    var xs := RowRangePrices(p, prices, lo, hi);
    RowRangePricesMembers(p, prices, lo, hi);
    ExtremesMeaning(xs);
    if |xs| > 0 {
      RowRangePricesWitness(p, prices, lo, hi, MaxOr0(xs));
    }
  }

  /** Every listed price belongs to a column held by a row in the range. */
  lemma RowRangePricesWitness(p: Pairing, prices: seq<int>, lo: int, hi: int, x: int)
    requires x in RowRangePrices(p, prices, lo, hi)
    ensures exists r :: lo <= r < hi && 0 <= LookupCol(p, r) < |prices| && x == prices[LookupCol(p, r)]
  {
    RowRangePricesMembers(p, prices, lo, hi);
  }

  /** The row-range maximum reads only the prices of columns held by rows in the range. */
  lemma {:induction false} RowRangePricesCongruent(p: Pairing, a: seq<int>, b: seq<int>, lo: int, hi: int)
    requires |a| == |b|
    requires forall r :: lo <= r < hi && 0 <= LookupCol(p, r) < |a| ==> a[LookupCol(p, r)] == b[LookupCol(p, r)]
    ensures RowRangePrices(p, a, lo, hi) == RowRangePrices(p, b, lo, hi)
    decreases hi - lo
  {
    if hi > lo {
      RowRangePricesCongruent(p, a, b, lo, hi - 1);
    }
  }

  /**
   * min_price_in_rowrange as written: with `>` in its comparison the
   * start-flag loop keeps the largest held price (0 when none is held).
   */
  function RowRangeMinAsWritten(p: Pairing, prices: seq<int>, lo: int, hi: int): int
  {
    MaxOr0(RowRangePrices(p, prices, lo, hi))
  }

  /** min_price_in_rowrange as documented: the smallest held price, 0 when none is held. */
  function RowRangeMin(p: Pairing, prices: seq<int>, lo: int, hi: int): int
  {
    MinOr0(RowRangePrices(p, prices, lo, hi))
  }

  /** The corrected query is a lower bound attained in the range. */
  lemma RowRangeMinMeaning(p: Pairing, prices: seq<int>, lo: int, hi: int)
    ensures var v := RowRangeMin(p, prices, lo, hi);
      && (forall r :: lo <= r < hi && 0 <= LookupCol(p, r) < |prices| ==> v <= prices[LookupCol(p, r)])
      && ((exists r :: lo <= r < hi && 0 <= LookupCol(p, r) < |prices|) ==>
            exists r :: lo <= r < hi && 0 <= LookupCol(p, r) < |prices| && prices[LookupCol(p, r)] == v)
      && ((forall r :: lo <= r < hi ==> LookupCol(p, r) < 0) ==> v == 0)
  {
    var xs := RowRangePrices(p, prices, lo, hi);
    RowRangePricesMembers(p, prices, lo, hi);
    if |xs| > 0 {
      assert xs[0] in xs;
      assert exists r :: lo <= r < hi && 0 <= LookupCol(p, r) < |prices| && xs[0] == prices[LookupCol(p, r)];
    }
    ExtremesMeaning(xs);
    if exists r :: lo <= r < hi && 0 <= LookupCol(p, r) < |prices| {
      var r :| lo <= r < hi && 0 <= LookupCol(p, r) < |prices|;
      assert prices[LookupCol(p, r)] in xs;
    }
  }

  /**
   * Rows 0 and 1 holding columns 0 and 1 priced 5 and 3: the literal
   * min_price_in_rowrange over [0, 2) yields 5, the documented minimum is 3.
   */
  lemma RowRangeMinAsWrittenReturnsMax()
    ensures var p := Pairing([0, 1], [0, 1], 2);
      && Consistent(p)
      && RowRangeMinAsWritten(p, [5, 3], 0, 2) == 5
      && RowRangeMin(p, [5, 3], 0, 2) == 3
  {
    var p := Pairing([0, 1], [0, 1], 2);
    assert [0, 1][..1] == [0] && [0][..0] == [];
    assert RowRangePrices(p, [5, 3], 0, 1) == [5];
    assert RowRangePrices(p, [5, 3], 0, 2) == [5, 3];
  }

  // ------------------------------------------------------------------
  // group_price_equalize
  // ------------------------------------------------------------------

  /** Sets the price of every column held by a row in [lo, hi) to v. */
  function SetGroup(p: Pairing, prices: seq<int>, lo: int, hi: int, v: int): (res: seq<int>)
    ensures |res| == |prices|
    decreases hi - lo
  {
    if hi <= lo then prices else Put(SetGroup(p, prices, lo, hi - 1, v), LookupCol(p, hi - 1), v)
  }

  /** The prices after equalising groups 0 .. g-1, each to the row-range maximum at its turn. */
  function Equalize(p: Pairing, prices: seq<int>, ptr: seq<int>, g: nat): (res: seq<int>)
    requires g < |ptr|
    ensures |res| == |prices|
  {
    if g == 0 then prices
    else
      var pr := Equalize(p, prices, ptr, g - 1);
      SetGroup(p, pr, ptr[g - 1], ptr[g], RowRangeMax(p, pr, ptr[g - 1], ptr[g]))
  }

  /** SetGroup changes exactly the columns whose row lies in the range. */
  lemma {:induction false} SetGroupEffect(p: Pairing, prices: seq<int>, lo: int, hi: int, v: int)
    requires Consistent(p) && |prices| == NCols(p)
    ensures forall c :: 0 <= c < |prices| ==>
      SetGroup(p, prices, lo, hi, v)[c] == if LookupRow(p, c) >= 0 && lo <= LookupRow(p, c) < hi then v else prices[c]
    decreases hi - lo
  {
    if hi > lo {
      SetGroupEffect(p, prices, lo, hi - 1, v);
    }
  }

  /** The group pointers never decrease. */
  predicate Monotone(ptr: seq<int>)
  {
    forall a, b :: 0 <= a <= b < |ptr| ==> ptr[a] <= ptr[b]
  }

  /**
   * A reference for the price of column c after groups 0 .. g-1: the
   * maximum held price, over the entry prices, of the last of those groups
   * whose row range holds the column's row, or the entry price when there
   * is none.
   */
  function GroupPrice(p: Pairing, prices: seq<int>, ptr: seq<int>, g: nat, c: int): int
    requires g < |ptr| && 0 <= c < |prices|
  {
    if g == 0 then prices[c]
    else if LookupRow(p, c) >= 0 && ptr[g - 1] <= LookupRow(p, c) < ptr[g] then RowRangeMax(p, prices, ptr[g - 1], ptr[g])
    else GroupPrice(p, prices, ptr, g - 1, c)
  }

  /** A column whose row lies in no group below g keeps its entry price. */
  lemma {:induction false} GroupPriceOutside(p: Pairing, prices: seq<int>, ptr: seq<int>, g: nat, c: int)
    requires g < |ptr| && Monotone(ptr) && 0 <= c < |prices|
    requires LookupRow(p, c) < 0 || !(ptr[0] <= LookupRow(p, c) < ptr[g])
    ensures GroupPrice(p, prices, ptr, g, c) == prices[c]
  {
    if g > 0 {
      GroupPriceOutside(p, prices, ptr, g - 1, c);
    }
  }

  /** A column whose row lies in group t < g gets that group's maximum. */
  lemma {:induction false} GroupPriceInside(p: Pairing, prices: seq<int>, ptr: seq<int>, g: nat, c: int, t: nat)
    requires g < |ptr| && Monotone(ptr) && 0 <= c < |prices|
    requires t < g && LookupRow(p, c) >= 0 && ptr[t] <= LookupRow(p, c) < ptr[t + 1]
    ensures GroupPrice(p, prices, ptr, g, c) == RowRangeMax(p, prices, ptr[t], ptr[t + 1])
  {
    if t < g - 1 {
      assert ptr[t + 1] <= ptr[g - 1];
      GroupPriceInside(p, prices, ptr, g - 1, c, t);
    }
  }

  /** The fold Equalize agrees with the reference, column by column. */
  lemma {:induction false} EqualizeAt(p: Pairing, prices: seq<int>, ptr: seq<int>, g: nat, c: int)
    requires Consistent(p) && |prices| == NCols(p)
    requires g < |ptr| && Monotone(ptr) && 0 <= c < |prices|
    ensures Equalize(p, prices, ptr, g)[c] == GroupPrice(p, prices, ptr, g, c)
  {
    if g > 0 {
      var pr := Equalize(p, prices, ptr, g - 1);
      var lo, hi := ptr[g - 1], ptr[g];
      assert ptr[0] <= lo <= hi;
      forall r | lo <= r < hi && 0 <= LookupCol(p, r) < |pr|
        ensures pr[LookupCol(p, r)] == prices[LookupCol(p, r)]
      {
        var c' := LookupCol(p, r);
        assert LookupRow(p, c') == r;
        EqualizeAt(p, prices, ptr, g - 1, c');
        GroupPriceOutside(p, prices, ptr, g - 1, c');
      }
      RowRangePricesCongruent(p, pr, prices, lo, hi);
      SetGroupEffect(p, pr, lo, hi, RowRangeMax(p, pr, lo, hi));
      EqualizeAt(p, prices, ptr, g - 1, c);
    }
  }

  /**
   * group_price_equalize: with group pointers in increasing order, every
   * column held by a row of group t gets that group's maximum held price
   * (floored at 0, taken over the prices on entry), and every other column,
   * in particular every unassigned one, keeps its price.
   */
  lemma EqualizeEffect(p: Pairing, prices: seq<int>, ptr: seq<int>, g: nat)
    requires Consistent(p) && |prices| == NCols(p)
    requires g < |ptr| && Monotone(ptr)
    ensures forall c, t :: 0 <= c < |prices| && 0 <= t < g && LookupRow(p, c) >= 0 && ptr[t] <= LookupRow(p, c) < ptr[t + 1] ==>
      Equalize(p, prices, ptr, g)[c] == RowRangeMax(p, prices, ptr[t], ptr[t + 1])
    ensures forall c :: 0 <= c < |prices| && (LookupRow(p, c) < 0 || !(ptr[0] <= LookupRow(p, c) < ptr[g])) ==>
      Equalize(p, prices, ptr, g)[c] == prices[c]
  {
    forall c, t | 0 <= c < |prices| && 0 <= t < g && LookupRow(p, c) >= 0 && ptr[t] <= LookupRow(p, c) < ptr[t + 1]
      ensures Equalize(p, prices, ptr, g)[c] == RowRangeMax(p, prices, ptr[t], ptr[t + 1])
    {
      EqualizeAt(p, prices, ptr, g, c);
      GroupPriceInside(p, prices, ptr, g, c, t);
    }
    forall c | 0 <= c < |prices| && (LookupRow(p, c) < 0 || !(ptr[0] <= LookupRow(p, c) < ptr[g]))
      ensures Equalize(p, prices, ptr, g)[c] == prices[c]
    {
      EqualizeAt(p, prices, ptr, g, c);
      GroupPriceOutside(p, prices, ptr, g, c);
    }
  }

  // ------------------------------------------------------------------
  // hidden_bid
  // ------------------------------------------------------------------

  /** A price tagged with its column (IndVal<int>). */
  datatype Bid = Bid(value: int, index: int)

  /**
   * The (price, column) entries of the first n columns that are assigned
   * (held) or unassigned (not held), in column order: the two lists the
   * first pass of hidden_bid builds.
   */
  function ColBids(p: Pairing, prices: seq<int>, n: nat, held: bool): seq<Bid>
    requires n <= |prices|
  {
    if n == 0 then []
    else ColBids(p, prices, n - 1, held) + (if (LookupRow(p, n - 1) >= 0) == held then [Bid(prices[n - 1], n - 1)] else [])
  }

  /** Every entry is a column below n of the requested kind with its price, in increasing column order. */
  predicate BidsOf(bs: seq<Bid>, p: Pairing, prices: seq<int>, n: nat, held: bool)
  {
    && (forall t :: 0 <= t < |bs| ==> 0 <= bs[t].index < n && bs[t].index < |prices| && (LookupRow(p, bs[t].index) >= 0) == held && bs[t].value == prices[bs[t].index])
    && (forall a, b :: 0 <= a < b < |bs| ==> bs[a].index < bs[b].index)
  }

  /** The list holds only columns of the requested kind with their prices, in increasing column order. */
  lemma {:induction false} ColBidsSound(p: Pairing, prices: seq<int>, n: nat, held: bool)
    requires n <= |prices|
    ensures BidsOf(ColBids(p, prices, n, held), p, prices, n, held)
  {
    if n > 0 {
      ColBidsSound(p, prices, n - 1, held);
      var ys := ColBids(p, prices, n - 1, held);
      var bs := ColBids(p, prices, n, held);
      assert BidsOf(ys, p, prices, n - 1, held);
      assert bs == ys + (if (LookupRow(p, n - 1) >= 0) == held then [Bid(prices[n - 1], n - 1)] else []);
      forall t | 0 <= t < |bs|
        ensures 0 <= bs[t].index < n && bs[t].index < |prices| && (LookupRow(p, bs[t].index) >= 0) == held && bs[t].value == prices[bs[t].index]
      {
        if t < |ys| {
          assert bs[t] == ys[t];
        } else {
          assert bs[t] == Bid(prices[n - 1], n - 1) && (LookupRow(p, n - 1) >= 0) == held;
        }
      }
      forall a, b | 0 <= a < b < |bs|
        ensures bs[a].index < bs[b].index
      {
        assert bs[a] == ys[a];
        if b < |ys| {
          assert bs[b] == ys[b];
        } else {
          assert bs[b] == Bid(prices[n - 1], n - 1) && ys[a].index < n - 1;
        }
      }
    }
  }

  /** Every column of the requested kind among the first n is listed with its price. */
  lemma {:induction false} ColBidsComplete(p: Pairing, prices: seq<int>, n: nat, held: bool)
    requires n <= |prices|
    ensures forall c :: 0 <= c < n && (LookupRow(p, c) >= 0) == held ==> Bid(prices[c], c) in ColBids(p, prices, n, held)
  {
    if n > 0 {
      ColBidsComplete(p, prices, n - 1, held);
      var ys := ColBids(p, prices, n - 1, held);
      var bs := ColBids(p, prices, n, held);
      assert bs == ys + (if (LookupRow(p, n - 1) >= 0) == held then [Bid(prices[n - 1], n - 1)] else []);
      forall c | 0 <= c < n && (LookupRow(p, c) >= 0) == held
        ensures Bid(prices[c], c) in bs
      {
        if c < n - 1 {
          assert Bid(prices[c], c) in ys;
          var t :| 0 <= t < |ys| && ys[t] == Bid(prices[c], c);
          assert bs[t] == ys[t];
        } else {
          assert bs[|bs| - 1] == Bid(prices[c], c);
        }
      }
    }
  }

  /**
   * The first pass of hidden_bid lists each column of the requested kind
   * once with its price, in increasing column order, and nothing else.
   */
  lemma ColBidsMembers(p: Pairing, prices: seq<int>, n: nat, held: bool)
    requires n <= |prices|
    ensures var bs := ColBids(p, prices, n, held);
      && (forall b :: b in bs ==> 0 <= b.index < n && (LookupRow(p, b.index) >= 0) == held && b.value == prices[b.index])
      && (forall c :: 0 <= c < n && (LookupRow(p, c) >= 0) == held ==> Bid(prices[c], c) in bs)
      && (forall a, b :: 0 <= a < b < |bs| ==> bs[a].index < bs[b].index)
  {
    ColBidsSound(p, prices, n, held);
    ColBidsComplete(p, prices, n, held);
    var bs := ColBids(p, prices, n, held);
    assert BidsOf(bs, p, prices, n, held);
    forall b | b in bs
      ensures 0 <= b.index < n && (LookupRow(p, b.index) >= 0) == held && b.value == prices[b.index]
    {
      var t :| 0 <= t < |bs| && bs[t] == b;
      assert 0 <= bs[t].index < n && (LookupRow(p, bs[t].index) >= 0) == held && bs[t].value == prices[bs[t].index];
    }
  }

  /** One more column extends exactly one of the two lists by its entry. */
  lemma BidsSnoc(p: Pairing, prices: seq<int>, n: nat)
    requires n < |prices|
    ensures ColBids(p, prices, n + 1, true) == ColBids(p, prices, n, true) + if LookupRow(p, n) >= 0 then [Bid(prices[n], n)] else []
    ensures ColBids(p, prices, n + 1, false) == ColBids(p, prices, n, false) + if LookupRow(p, n) < 0 then [Bid(prices[n], n)] else []
  {
  }

  /** Appending one entry updates the running extremes by one comparison. */
  lemma ValueSnoc(init: int, bs: seq<Bid>, b: Bid)
    ensures MinValue(init, bs + [b]) == Min(MinValue(init, bs), b.value)
    ensures MaxValue(init, bs + [b]) == Max(MaxValue(init, bs), b.value)
  {
    assert (bs + [b])[..|bs|] == bs;
  }

  /** Running minimum of the values, starting from init. */
  function MinValue(init: int, bs: seq<Bid>): int
  {
    if |bs| == 0 then init
    else Min(MinValue(init, bs[..|bs| - 1]), bs[|bs| - 1].value)
  }

  /** Running maximum of the values, starting from init. */
  function MaxValue(init: int, bs: seq<Bid>): int
  {
    if |bs| == 0 then init
    else Max(MaxValue(init, bs[..|bs| - 1]), bs[|bs| - 1].value)
  }

  /** The running minimum is a lower bound that is the start value or some entry's value; dually the maximum. */
  lemma {:induction false} ValueBounds(init: int, bs: seq<Bid>)
    ensures MinValue(init, bs) <= init && forall b :: b in bs ==> MinValue(init, bs) <= b.value
    ensures MinValue(init, bs) == init || exists b :: b in bs && MinValue(init, bs) == b.value
    ensures init <= MaxValue(init, bs) && forall b :: b in bs ==> b.value <= MaxValue(init, bs)
    ensures MaxValue(init, bs) == init || exists b :: b in bs && MaxValue(init, bs) == b.value
  {
    if |bs| > 0 {
      ValueBounds(init, bs[..|bs| - 1]);
      assert bs == bs[..|bs| - 1] + [bs[|bs| - 1]];
    }
  }

  /** a comes no later than b in the requested order (ascending or descending value). */
  predicate Before(a: Bid, b: Bid, asc: bool)
  {
    if asc then a.value <= b.value else a.value >= b.value
  }

  /** The position of the first best entry. */
  function BestPos(xs: seq<Bid>, asc: bool): (j: nat)
    requires |xs| > 0
    ensures j < |xs|
  {
    if |xs| == 1 then 0
    else
      var j := BestPos(xs[..|xs| - 1], asc);
      if Before(xs[j], xs[|xs| - 1], asc) then j else |xs| - 1
  }

  /** The selected entry comes no later than any entry of the sequence. */
  lemma {:induction false} BestPosBest(xs: seq<Bid>, asc: bool)
    requires |xs| > 0
    ensures forall t :: 0 <= t < |xs| ==> Before(xs[BestPos(xs, asc)], xs[t], asc)
  {
    if |xs| > 1 {
      var init := xs[..|xs| - 1];
      BestPosBest(init, asc);
      forall t | 0 <= t < |xs|
        ensures Before(xs[BestPos(xs, asc)], xs[t], asc)
      {
        if t < |xs| - 1 {
          assert xs[t] == init[t];
        }
      }
    }
  }

  /**
   * std::partial_sort of the first k positions: the k best entries in order,
   * followed by the rest. Ties go to the earlier entry; the library leaves
   * their order unspecified.
   */
  function PartialSort(xs: seq<Bid>, k: nat, asc: bool): (ys: seq<Bid>)
    ensures |ys| == |xs|
    decreases k
  {
    if k == 0 || |xs| == 0 then xs
    else
      var j := BestPos(xs, asc);
      assert xs == xs[..j] + [xs[j]] + xs[j + 1..];
      [xs[j]] + PartialSort(xs[..j] + xs[j + 1..], k - 1, asc)
  }

  /** One selection step: the best entry goes first, the rest is sorted one place less. */
  lemma PartialSortUnfold(xs: seq<Bid>, k: nat, asc: bool)
    requires k > 0 && |xs| > 0
    ensures PartialSort(xs, k, asc) == [xs[BestPos(xs, asc)]] + PartialSort(xs[..BestPos(xs, asc)] + xs[BestPos(xs, asc) + 1..], k - 1, asc)
  {
  }

  /** Moving entry j to the front of a permutation of the other entries permutes the sequence. */
  lemma SelectPerm(xs: seq<Bid>, j: nat, tail: seq<Bid>, ys: seq<Bid>)
    requires j < |xs|
    requires multiset(tail) == multiset(xs[..j] + xs[j + 1..])
    requires ys == [xs[j]] + tail
    ensures multiset(ys) == multiset(xs)
  {
    assert xs == xs[..j] + [xs[j]] + xs[j + 1..];
  }

  /** A partial sort is a permutation of its input. */
  lemma {:induction false} PartialSortPerm(xs: seq<Bid>, k: nat, asc: bool)
    ensures multiset(PartialSort(xs, k, asc)) == multiset(xs)
    decreases k
  {
    if k > 0 && |xs| > 0 {
      var j := BestPos(xs, asc);
      var rest := xs[..j] + xs[j + 1..];
      var tail := PartialSort(rest, k - 1, asc);
      var ys := PartialSort(xs, k, asc);
      PartialSortPerm(rest, k - 1, asc);
      SelectPerm(xs, j, tail, ys);
    }
  }

  /** Every entry of a partial sort is an entry of its input. */
  lemma PartialSortMember(xs: seq<Bid>, k: nat, asc: bool, x: Bid)
    requires x in PartialSort(xs, k, asc)
    ensures x in xs
  {
    PartialSortPerm(xs, k, asc);
    assert x in multiset(PartialSort(xs, k, asc));
  }

  /** The selected entry comes before every entry left after removing it. */
  lemma BestBeforeRest(xs: seq<Bid>, asc: bool, x: Bid)
    requires |xs| > 0
    requires x in xs[..BestPos(xs, asc)] + xs[BestPos(xs, asc) + 1..]
    ensures Before(xs[BestPos(xs, asc)], x, asc)
  {
    var j := BestPos(xs, asc);
    var rest := xs[..j] + xs[j + 1..];
    BestPosBest(xs, asc);
    var t :| 0 <= t < |rest| && rest[t] == x;
    assert rest[t] == xs[if t < j then t else t + 1];
  }

  /** The first k entries of a partial sort are ordered and come before every later entry. */
  lemma {:induction false} PartialSortOrder(xs: seq<Bid>, k: nat, asc: bool)
    ensures forall a, b :: 0 <= a < b < |xs| && a < k ==> Before(PartialSort(xs, k, asc)[a], PartialSort(xs, k, asc)[b], asc)
    decreases k
  {
    if k > 0 && |xs| > 0 {
      var j := BestPos(xs, asc);
      var rest := xs[..j] + xs[j + 1..];
      PartialSortOrder(rest, k - 1, asc);
      var tail := PartialSort(rest, k - 1, asc);
      var ys := PartialSort(xs, k, asc);
      assert ys == [xs[j]] + tail;
      forall a, b | 0 <= a < b < |xs| && a < k
        ensures Before(ys[a], ys[b], asc)
      {
        if a == 0 {
          PartialSortMember(rest, k - 1, asc, tail[b - 1]);
          BestBeforeRest(xs, asc, tail[b - 1]);
        } else {
          assert Before(tail[a - 1], tail[b - 1], asc);
        }
      }
    }
  }

  /** Entries with pairwise distinct columns. */
  predicate DistinctIdx(xs: seq<Bid>)
  {
    forall a, b :: 0 <= a < b < |xs| ==> xs[a].index != xs[b].index
  }

  /** In a list with distinct columns every entry occurs at most once. */
  lemma {:induction false} DistinctOnce(xs: seq<Bid>, x: Bid)
    requires DistinctIdx(xs)
    ensures multiset(xs)[x] <= 1
  {
    if |xs| > 0 {
      var init := xs[..|xs| - 1];
      assert DistinctIdx(init) by {
        forall a, b | 0 <= a < b < |init|
          ensures init[a].index != init[b].index
        {
          assert init[a] == xs[a] && init[b] == xs[b];
        }
      }
      DistinctOnce(init, x);
      assert xs == init + [xs[|xs| - 1]];
      if x == xs[|xs| - 1] {
        forall t | 0 <= t < |init|
          ensures init[t] != x
        {
          assert init[t] == xs[t] && xs[t].index != xs[|xs| - 1].index;
        }
        assert x !in init;
      }
    }
  }

  /** An entry found at two positions occurs at least twice. */
  lemma TwiceCounted(ys: seq<Bid>, a: nat, b: nat)
    requires a < b < |ys| && ys[a] == ys[b]
    ensures multiset(ys)[ys[a]] >= 2
  {
    assert ys == ys[..b] + [ys[b]] + ys[b + 1..];
    assert ys[..b][a] == ys[a];
  }

  /** A permutation of a list with distinct columns has distinct columns. */
  lemma PermDistinct(xs: seq<Bid>, ys: seq<Bid>)
    requires multiset(ys) == multiset(xs) && DistinctIdx(xs)
    ensures DistinctIdx(ys)
  {
    forall a, b | 0 <= a < b < |ys|
      ensures ys[a].index != ys[b].index
    {
      if ys[a] == ys[b] {
        TwiceCounted(ys, a, b);
        DistinctOnce(xs, ys[a]);
      } else {
        assert ys[a] in multiset(xs) && ys[b] in multiset(xs);
        var s :| 0 <= s < |xs| && xs[s] == ys[a];
        var t :| 0 <= t < |xs| && xs[t] == ys[b];
        assert s != t;
        if s < t {
          assert xs[s].index != xs[t].index;
        } else {
          assert xs[t].index != xs[s].index;
        }
      }
    }
  }

  /** Sorting keeps the columns distinct. */
  lemma PartialSortDistinct(xs: seq<Bid>, k: nat, asc: bool)
    requires DistinctIdx(xs)
    ensures DistinctIdx(PartialSort(xs, k, asc))
  {
    PartialSortPerm(xs, k, asc);
    PermDistinct(xs, PartialSort(xs, k, asc));
  }

  function Indices(bs: seq<Bid>): (cs: seq<int>)
    ensures |cs| == |bs| && forall t :: 0 <= t < |bs| ==> cs[t] == bs[t].index
  {
    seq(|bs|, t requires 0 <= t < |bs| => bs[t].index)
  }

  /** The number of leading positions, from i on and below nb, where the assigned price is below the unassigned one. */
  function WinsFrom(sa: seq<Bid>, su: seq<Bid>, i: nat, nb: nat): (k: nat)
    requires nb <= |sa| && nb <= |su| && i <= nb
    ensures i <= k <= nb
    decreases nb - i
  {
    if i < nb && sa[i].value < su[i].value then WinsFrom(sa, su, i + 1, nb) else i
  }

  /** Below the count, the assigned price is below the unassigned one; at the count, if below nb, it is not. */
  lemma {:induction false} WinsFromMeaning(sa: seq<Bid>, su: seq<Bid>, i: nat, nb: nat)
    requires nb <= |sa| && nb <= |su| && i <= nb
    ensures var k := WinsFrom(sa, su, i, nb);
      && (forall t :: i <= t < k ==> sa[t].value < su[t].value)
      && (k < nb ==> su[k].value <= sa[k].value)
    decreases nb - i
  {
    if i < nb && sa[i].value < su[i].value {
      WinsFromMeaning(sa, su, i + 1, nb);
    }
  }

  /** Clears, in order, the pair of each listed column (each clear_pair(row(c), c)). */
  function EvictAll(p: Pairing, cols: seq<int>): Pairing
  {
    if |cols| == 0 then p
    else Unpair(EvictAll(p, cols[..|cols| - 1]), cols[|cols| - 1])
  }

  /** Writes v at each listed index, in order. */
  function SetAll(prices: seq<int>, idxs: seq<int>, v: int): (res: seq<int>)
    ensures |res| == |prices|
  {
    if |idxs| == 0 then prices else Put(SetAll(prices, idxs[..|idxs| - 1], v), idxs[|idxs| - 1], v)
  }

  lemma {:induction false} SetAllEffect(prices: seq<int>, idxs: seq<int>, v: int)
    ensures forall c :: 0 <= c < |prices| ==> SetAll(prices, idxs, v)[c] == if c in idxs then v else prices[c]
  {
    if |idxs| > 0 {
      SetAllEffect(prices, idxs[..|idxs| - 1], v);
      assert idxs == idxs[..|idxs| - 1] + [idxs[|idxs| - 1]];
    }
  }

  /** Evicting distinct assigned columns one by one: each loses its pair, nothing else is touched. */
  /**
   * q is p with exactly the columns of cols unpaired: still consistent and
   * of the same shape, with |cols| fewer pairs, every listed column and the
   * row that held it free, and every other entry as in p.
   */
  ghost predicate EvictedFrom(q: Pairing, p: Pairing, cols: seq<int>)
  {
    && Consistent(q) && NRows(q) == NRows(p) && NCols(q) == NCols(p)
    && q.nnz == p.nnz - |cols|
    && (forall c :: c in cols ==> LookupRow(q, c) == -1)
    && (forall c :: c !in cols ==> LookupRow(q, c) == LookupRow(p, c))
    && (forall r :: LookupCol(q, r) == if LookupCol(p, r) in cols then -1 else LookupCol(p, r))
  }

  /** Evicting a list of distinct assigned columns, one unpair at a time. */
  lemma {:induction false} EvictAllEffect(p: Pairing, cols: seq<int>)
    requires Consistent(p)
    requires forall t :: 0 <= t < |cols| ==> 0 <= cols[t] < NCols(p) && LookupRow(p, cols[t]) >= 0
    requires forall a, b :: 0 <= a < b < |cols| ==> cols[a] != cols[b]
    ensures EvictedFrom(EvictAll(p, cols), p, cols)
  {
    if |cols| > 0 {
      var init := cols[..|cols| - 1];
      var c := cols[|cols| - 1];
      assert cols == init + [c];
      EvictAllEffect(p, init);
      var q := EvictAll(p, init);
      assert EvictedFrom(q, p, init);
      assert c !in init;
      UnpairEffect(q, c);
      var u := EvictAll(p, cols);
      assert u == Unpair(q, c);
      forall c' | c' in cols
        ensures LookupRow(u, c') == -1
      {
        if c' != c {
          assert c' in init;
        }
      }
      forall r
        ensures LookupCol(u, r) == if LookupCol(p, r) in cols then -1 else LookupCol(p, r)
      {
        if LookupCol(p, r) in init {
          assert LookupCol(q, r) == -1;
        }
      }
    }
  }

  /** Everything hidden_bid decides before it writes. */
  datatype Plan = Plan(sa: seq<Bid>, su: seq<Bid>, minassoc: int, nbids: int, bidding: bool, k: nat)

  function HiddenPlan(st: AuctState, maxint: int): (pl: Plan)
    requires |st.prices| == NCols(st.pairs)
    ensures pl.bidding ==> pl.k <= pl.nbids <= |pl.sa| && pl.nbids <= |pl.su|
    ensures !pl.bidding ==> pl.k == 0
  {
    var n := |st.prices|;
    var sa0 := ColBids(st.pairs, st.prices, n, true);
    var su0 := ColBids(st.pairs, st.prices, n, false);
    var minassoc := MinValue(maxint, sa0);
    var nbids := Min(Min(NCols(st.pairs) - NRows(st.pairs), |sa0|), |su0|);
    if nbids > 0 && minassoc < MaxValue(0, su0) then
      var sa := PartialSort(sa0, nbids, true);
      var su := PartialSort(su0, nbids, false);
      Plan(sa, su, minassoc, nbids, true, WinsFrom(sa, su, 0, nbids))
    else
      Plan(sa0, su0, minassoc, nbids, false, 0)
  }

  /** The plan's lists are rearrangements of the first pass's lists, with the bid count and minimum of those. */
  lemma PlanFacts(st: AuctState, maxint: int)
    requires |st.prices| == NCols(st.pairs)
    ensures var pl := HiddenPlan(st, maxint);
      && multiset(pl.sa) == multiset(ColBids(st.pairs, st.prices, |st.prices|, true))
      && multiset(pl.su) == multiset(ColBids(st.pairs, st.prices, |st.prices|, false))
      && pl.nbids == Min(Min(NCols(st.pairs) - NRows(st.pairs), |pl.sa|), |pl.su|)
      && pl.minassoc == MinValue(maxint, ColBids(st.pairs, st.prices, |st.prices|, true))
  {
    var sa0 := ColBids(st.pairs, st.prices, |st.prices|, true);
    var su0 := ColBids(st.pairs, st.prices, |st.prices|, false);
    var pl := HiddenPlan(st, maxint);
    if pl.bidding {
      PartialSortPerm(sa0, pl.nbids, true);
      PartialSortPerm(su0, pl.nbids, false);
    }
  }

  /** The columns whose pairs hidden_bid clears, cheapest first. */
  function EvictedCols(st: AuctState, maxint: int): seq<int>
    requires |st.prices| == NCols(st.pairs)
  {
    var pl := HiddenPlan(st, maxint);
    Indices(pl.sa[..pl.k])
  }

  /** The price hidden_bid gives to the unassigned columns it reprices. */
  function NewPrice(st: AuctState, maxint: int): int
    requires |st.prices| == NCols(st.pairs)
  {
    var pl := HiddenPlan(st, maxint);
    if !pl.bidding then pl.minassoc - 1
    else if pl.k == 0 then pl.minassoc
    else pl.sa[pl.k - 1].value
  }

  /** The unassigned columns hidden_bid reprices: all but the first k of the descending list. */
  function RepricedCols(st: AuctState, maxint: int): seq<int>
    requires |st.prices| == NCols(st.pairs)
  {
    var pl := HiddenPlan(st, maxint);
    Indices(pl.su[pl.k..])
  }

  /**
   * hidden_bid: evict the cheapest assigned columns while outbid, then
   * reprice the unassigned columns. Without bidding k is 0, so nothing
   * is evicted and every unassigned column is repriced.
   */
  function HiddenBid(st: AuctState, maxint: int): AuctState
    requires |st.prices| == NCols(st.pairs)
  {
    AuctState(EvictAll(st.pairs, EvictedCols(st, maxint)),
              SetAll(st.prices, RepricedCols(st, maxint), NewPrice(st, maxint)),
              st.profits)
  }

  lemma {:induction false} AssocBidsCount(p: Pairing, prices: seq<int>, n: nat)
    requires n <= |prices| && n <= NCols(p)
    requires forall c :: 0 <= c < NCols(p) ==> p.rowOfCol[c] >= -1
    ensures |ColBids(p, prices, n, true)| == Assigned(p.rowOfCol[..n])
    ensures |ColBids(p, prices, n, false)| == n - Assigned(p.rowOfCol[..n])
  {
    if n > 0 {
      AssocBidsCount(p, prices, n - 1);
      var s := p.rowOfCol[..n];
      assert s[..n - 1] == p.rowOfCol[..n - 1];
      assert Assigned(s) == Assigned(s[..n - 1]) + (if s[n - 1] != -1 then 1 else 0);
      assert s[n - 1] == LookupRow(p, n - 1);
    }
  }

  /** Sequences holding the same multiset have the same members. */
  lemma SameMembers(xs: seq<Bid>, ys: seq<Bid>)
    requires multiset(xs) == multiset(ys)
    ensures forall b :: b in xs <==> b in ys
  {
    forall b
      ensures b in xs <==> b in ys
    {
      assert b in xs <==> b in multiset(xs);
      assert b in ys <==> b in multiset(ys);
    }
  }

  /** The assigned list of the plan holds exactly the assigned columns with their prices. */
  lemma PlanAssocMembers(st: AuctState, maxint: int)
    requires |st.prices| == NCols(st.pairs)
    ensures forall b :: b in HiddenPlan(st, maxint).sa ==>
      0 <= b.index < NCols(st.pairs) && LookupRow(st.pairs, b.index) >= 0 && b.value == st.prices[b.index]
    ensures forall c :: 0 <= c < NCols(st.pairs) && LookupRow(st.pairs, c) >= 0 ==> Bid(st.prices[c], c) in HiddenPlan(st, maxint).sa
  {
    PlanFacts(st, maxint);
    ColBidsMembers(st.pairs, st.prices, |st.prices|, true);
    SameMembers(HiddenPlan(st, maxint).sa, ColBids(st.pairs, st.prices, |st.prices|, true));
  }

  /** Where an assigned column sits in the assigned list of the plan. */
  lemma PlanAssocPos(st: AuctState, maxint: int, c: int) returns (t: nat)
    requires |st.prices| == NCols(st.pairs)
    requires 0 <= c < NCols(st.pairs) && LookupRow(st.pairs, c) >= 0
    ensures t < |HiddenPlan(st, maxint).sa| && HiddenPlan(st, maxint).sa[t] == Bid(st.prices[c], c)
  {
    PlanAssocMembers(st, maxint);
    var sa := HiddenPlan(st, maxint).sa;
    assert Bid(st.prices[c], c) in sa;
    t :| 0 <= t < |sa| && sa[t] == Bid(st.prices[c], c);
  }

  /** An entry of the assigned list of the plan is an assigned column with its price. */
  lemma PlanAssocAt(st: AuctState, maxint: int, t: nat)
    requires |st.prices| == NCols(st.pairs)
    requires t < |HiddenPlan(st, maxint).sa|
    ensures var b := HiddenPlan(st, maxint).sa[t];
      0 <= b.index < NCols(st.pairs) && LookupRow(st.pairs, b.index) >= 0 && b.value == st.prices[b.index]
  {
    PlanAssocMembers(st, maxint);
    assert HiddenPlan(st, maxint).sa[t] in HiddenPlan(st, maxint).sa;
  }

  /** The unassigned list of the plan holds exactly the unassigned columns with their prices. */
  lemma PlanUnassocMembers(st: AuctState, maxint: int)
    requires |st.prices| == NCols(st.pairs)
    ensures forall b :: b in HiddenPlan(st, maxint).su ==>
      0 <= b.index < NCols(st.pairs) && LookupRow(st.pairs, b.index) < 0 && b.value == st.prices[b.index]
    ensures forall c :: 0 <= c < NCols(st.pairs) && LookupRow(st.pairs, c) < 0 ==> Bid(st.prices[c], c) in HiddenPlan(st, maxint).su
  {
    PlanFacts(st, maxint);
    ColBidsMembers(st.pairs, st.prices, |st.prices|, false);
    SameMembers(HiddenPlan(st, maxint).su, ColBids(st.pairs, st.prices, |st.prices|, false));
  }

  /** No column appears twice in either list of the plan. */
  lemma PlanDistinct(st: AuctState, maxint: int)
    requires |st.prices| == NCols(st.pairs)
    ensures DistinctIdx(HiddenPlan(st, maxint).sa) && DistinctIdx(HiddenPlan(st, maxint).su)
  {
    var n := |st.prices|;
    var sa0 := ColBids(st.pairs, st.prices, n, true);
    var su0 := ColBids(st.pairs, st.prices, n, false);
    ColBidsMembers(st.pairs, st.prices, n, true);
    ColBidsMembers(st.pairs, st.prices, n, false);
    assert DistinctIdx(sa0) && DistinctIdx(su0);
    var pl := HiddenPlan(st, maxint);
    if pl.bidding {
      PartialSortDistinct(sa0, pl.nbids, true);
      PartialSortDistinct(su0, pl.nbids, false);
    }
  }

  /** A partial sort of the assigned list holds distinct assigned columns. */
  lemma SortedAssocFacts(p: Pairing, prices: seq<int>, nbids: nat, sa: seq<Bid>)
    requires |prices| == NCols(p)
    requires sa == PartialSort(ColBids(p, prices, |prices|, true), nbids, true)
    ensures DistinctIdx(sa)
    ensures forall t :: 0 <= t < |sa| ==> 0 <= sa[t].index < NCols(p) && LookupRow(p, sa[t].index) >= 0
  {
    var sa0 := ColBids(p, prices, |prices|, true);
    ColBidsMembers(p, prices, |prices|, true);
    PartialSortDistinct(sa0, nbids, true);
    forall t | 0 <= t < |sa|
      ensures 0 <= sa[t].index < NCols(p) && LookupRow(p, sa[t].index) >= 0
    {
      PartialSortMember(sa0, nbids, true, sa[t]);
    }
  }

  /** A partial sort of the unassigned list holds in-range columns. */
  lemma SortedUnassocFacts(p: Pairing, prices: seq<int>, nbids: nat, su: seq<Bid>)
    requires |prices| == NCols(p)
    requires su == PartialSort(ColBids(p, prices, |prices|, false), nbids, false)
    ensures forall t :: 0 <= t < |su| ==> 0 <= su[t].index < NCols(p)
  {
    var su0 := ColBids(p, prices, |prices|, false);
    ColBidsMembers(p, prices, |prices|, false);
    forall t | 0 <= t < |su|
      ensures 0 <= su[t].index < NCols(p)
    {
      PartialSortMember(su0, nbids, false, su[t]);
    }
  }

  /**
   * hidden_bid when bidding, read as its steps: the first k entries of the
   * ascending assigned list are evicted and the rest of the descending
   * unassigned list gets the last evicted price.
   */
  lemma HiddenBidBidding(st: AuctState, maxint: int, sa0: seq<Bid>, su0: seq<Bid>, minassoc: int, nbids: int,
                         sa: seq<Bid>, su: seq<Bid>, k: nat, last: int)
    requires |st.prices| == NCols(st.pairs)
    requires sa0 == ColBids(st.pairs, st.prices, |st.prices|, true) && su0 == ColBids(st.pairs, st.prices, |st.prices|, false)
    requires minassoc == MinValue(maxint, sa0)
    requires nbids == Min(Min(NCols(st.pairs) - NRows(st.pairs), |sa0|), |su0|)
    requires nbids > 0 && minassoc < MaxValue(0, su0)
    requires sa == PartialSort(sa0, nbids, true) && su == PartialSort(su0, nbids, false)
    requires k == WinsFrom(sa, su, 0, nbids)
    requires last == if k == 0 then minassoc else sa[k - 1].value
    ensures HiddenBid(st, maxint) == AuctState(EvictAll(st.pairs, Indices(sa[..k])), SetAll(st.prices, Indices(su[k..]), last), st.profits)
  {
    var pl := HiddenPlan(st, maxint);
    assert pl == Plan(sa, su, minassoc, nbids, true, k);
    assert EvictedCols(st, maxint) == Indices(sa[..k]);
    assert RepricedCols(st, maxint) == Indices(su[k..]);
    assert NewPrice(st, maxint) == last;
  }

  /** hidden_bid without bidding evicts nothing and gives every unassigned column minassoc - 1. */
  lemma HiddenBidNotBidding(st: AuctState, maxint: int, su: seq<Bid>, minassoc: int)
    requires |st.prices| == NCols(st.pairs)
    requires su == ColBids(st.pairs, st.prices, |st.prices|, false)
    requires minassoc == MinValue(maxint, ColBids(st.pairs, st.prices, |st.prices|, true))
    requires var nbids := Min(Min(NCols(st.pairs) - NRows(st.pairs), |ColBids(st.pairs, st.prices, |st.prices|, true)|), |su|);
      !(nbids > 0 && minassoc < MaxValue(0, su))
    ensures HiddenBid(st, maxint) == AuctState(st.pairs, SetAll(st.prices, Indices(su[0..]), minassoc - 1), st.profits)
  {
    assert su[0..] == su;
    var pl := HiddenPlan(st, maxint);
    assert !pl.bidding && pl.k == 0 && pl.su == su;
    assert pl.su[pl.k..] == su;
    assert |EvictedCols(st, maxint)| == 0;
  }

  /**
   * What hidden_bid does after its first pass, from association p and
   * prices pr to p' and pr': bid when there are bids to make and some
   * assigned price is below some unassigned one, otherwise lower every
   * unassigned price to minassoc - 1.
   */
  ghost predicate BidOrLowerDone(p: Pairing, pr: seq<int>, sa: seq<Bid>, su: seq<Bid>, minassoc: int, maxunass: int,
                                 sa': seq<Bid>, su': seq<Bid>, k: nat, last: int, p': Pairing, pr': seq<int>)
  {
    var nbids := Min(Min(NCols(p) - NRows(p), |sa|), |su|);
    if nbids > 0 && minassoc < maxunass then
      && sa' == PartialSort(sa, nbids, true) && su' == PartialSort(su, nbids, false)
      && k <= |sa'| && k <= |su'|
      && k == WinsFrom(sa', su', 0, nbids)
      && last == (if k == 0 then minassoc else sa'[k - 1].value)
      && p' == EvictAll(p, Indices(sa'[..k]))
      && pr' == SetAll(pr, Indices(su'[k..]), last)
    else
      && p' == p
      && pr' == SetAll(pr, Indices(su[0..]), minassoc - 1)
  }

  /** hidden_bid step by step: the first pass, then either the bidding branch or the lowering of unassigned prices. */
  lemma HiddenBidSteps(st: AuctState, maxint: int, sa: seq<Bid>, su: seq<Bid>, minassoc: int, maxunass: int,
                       sa': seq<Bid>, su': seq<Bid>, k: nat, last: int, st': AuctState)
    requires |st.prices| == NCols(st.pairs)
    requires sa == ColBids(st.pairs, st.prices, |st.prices|, true) && su == ColBids(st.pairs, st.prices, |st.prices|, false)
    requires minassoc == MinValue(maxint, sa) && maxunass == MaxValue(0, su)
    requires st'.profits == st.profits
    requires BidOrLowerDone(st.pairs, st.prices, sa, su, minassoc, maxunass, sa', su', k, last, st'.pairs, st'.prices)
    ensures st' == HiddenBid(st, maxint)
  {
    var nbids := Min(Min(NCols(st.pairs) - NRows(st.pairs), |sa|), |su|);
    if nbids > 0 && minassoc < maxunass {
      HiddenBidBidding(st, maxint, sa, su, minassoc, nbids, sa', su', k, last);
    } else {
      HiddenBidNotBidding(st, maxint, su, minassoc);
    }
  }

  /** The assigned list has one entry per pair, the unassigned list one per free column. */
  lemma PlanSizes(st: AuctState, maxint: int)
    requires Sized(st)
    ensures |HiddenPlan(st, maxint).sa| == st.pairs.nnz
    ensures |HiddenPlan(st, maxint).su| == NCols(st.pairs) - st.pairs.nnz
  {
    var n := |st.prices|;
    AssocBidsCount(st.pairs, st.prices, n);
    assert st.pairs.rowOfCol[..n] == st.pairs.rowOfCol;
    var pl := HiddenPlan(st, maxint);
    assert |multiset(pl.sa)| == |pl.sa|;
    assert |multiset(pl.su)| == |pl.su|;
  }

  /** When bidding, the first nbids assigned entries are the cheapest, in ascending order. */
  lemma PlanOrder(st: AuctState, maxint: int)
    requires |st.prices| == NCols(st.pairs)
    ensures var pl := HiddenPlan(st, maxint);
      pl.bidding ==> forall a, b :: 0 <= a < b < |pl.sa| && a < pl.nbids ==> pl.sa[a].value <= pl.sa[b].value
  {
    var pl := HiddenPlan(st, maxint);
    if pl.bidding {
      PartialSortOrder(ColBids(st.pairs, st.prices, |st.prices|, true), pl.nbids, true);
    }
  }

  /** The evicted columns are k distinct columns, each assigned on entry. */
  lemma EvictedColsFacts(st: AuctState, maxint: int)
    requires |st.prices| == NCols(st.pairs)
    ensures var e := EvictedCols(st, maxint);
      && |e| == HiddenPlan(st, maxint).k
      && (forall t :: 0 <= t < |e| ==> 0 <= e[t] < NCols(st.pairs) && LookupRow(st.pairs, e[t]) >= 0)
      && (forall a, b :: 0 <= a < b < |e| ==> e[a] != e[b])
  {
    var pl := HiddenPlan(st, maxint);
    PlanAssocMembers(st, maxint);
    PlanDistinct(st, maxint);
    var e := EvictedCols(st, maxint);
    forall t | 0 <= t < |e|
      ensures 0 <= e[t] < NCols(st.pairs) && LookupRow(st.pairs, e[t]) >= 0
    {
      assert e[t] == pl.sa[t].index;
      assert pl.sa[t] in pl.sa;
    }
    forall a, b | 0 <= a < b < |e|
      ensures e[a] != e[b]
    {
      assert e[a] == pl.sa[a].index && e[b] == pl.sa[b].index;
    }
  }

  /** Columns listed in a run of entries, and the entry that lists each. */
  lemma IndicesWitness(bs: seq<Bid>, c: int) returns (t: nat)
    requires c in Indices(bs)
    ensures t < |bs| && bs[t].index == c
  {
    t :| 0 <= t < |Indices(bs)| && Indices(bs)[t] == c;
  }

  /** The column of each entry is listed. */
  lemma IndicesHas(bs: seq<Bid>, t: nat)
    requires t < |bs|
    ensures bs[t].index in Indices(bs)
  {
    assert Indices(bs)[t] == bs[t].index;
  }

  /** A repriced column was unassigned on entry and is not among the first k of the descending list. */
  lemma RepricedUnassigned(st: AuctState, maxint: int, c: int)
    requires |st.prices| == NCols(st.pairs)
    requires c in RepricedCols(st, maxint)
    ensures 0 <= c < NCols(st.pairs) && LookupRow(st.pairs, c) < 0
    ensures c !in Indices(HiddenPlan(st, maxint).su[..HiddenPlan(st, maxint).k])
  {
    var pl := HiddenPlan(st, maxint);
    var u := IndicesWitness(pl.su[pl.k..], c);
    assert pl.su[pl.k + u] in pl.su;
    PlanUnassocMembers(st, maxint);
    if c in Indices(pl.su[..pl.k]) {
      var t := IndicesWitness(pl.su[..pl.k], c);
      PlanDistinct(st, maxint);
      assert false;
    }
  }

  /** A column unassigned on entry and not among the first k of the descending list is repriced. */
  lemma UnassignedRepriced(st: AuctState, maxint: int, c: int)
    requires |st.prices| == NCols(st.pairs)
    requires 0 <= c < NCols(st.pairs) && LookupRow(st.pairs, c) < 0
    requires c !in Indices(HiddenPlan(st, maxint).su[..HiddenPlan(st, maxint).k])
    ensures c in RepricedCols(st, maxint)
  {
    var pl := HiddenPlan(st, maxint);
    var su := pl.su;
    PlanUnassocMembers(st, maxint);
    assert Bid(st.prices[c], c) in su;
    var t :| 0 <= t < |su| && su[t] == Bid(st.prices[c], c);
    if t < pl.k {
      IndicesHas(su[..pl.k], t);
    } else {
      IndicesHas(su[pl.k..], t - pl.k);
    }
  }

  /** The first k of the descending list are columns unassigned on entry. */
  lemma KeptUnassigned(st: AuctState, maxint: int, c: int)
    requires |st.prices| == NCols(st.pairs)
    requires c in Indices(HiddenPlan(st, maxint).su[..HiddenPlan(st, maxint).k])
    ensures 0 <= c < NCols(st.pairs) && LookupRow(st.pairs, c) < 0
  {
    var pl := HiddenPlan(st, maxint);
    var t := IndicesWitness(pl.su[..pl.k], c);
    assert pl.su[t] in pl.su;
    PlanUnassocMembers(st, maxint);
  }

  /**
   * hidden_bid keeps the association consistent, leaves the shape and
   * the profits alone, and never changes the price of a column that was
   * assigned on entry.
   */
  lemma HiddenBidFrame(st: AuctState, maxint: int)
    requires Sized(st)
    ensures var r := HiddenBid(st, maxint);
      && Sized(r)
      && NRows(r.pairs) == NRows(st.pairs) && NCols(r.pairs) == NCols(st.pairs)
      && r.profits == st.profits
      && (forall c :: 0 <= c < |st.prices| && LookupRow(st.pairs, c) >= 0 ==> r.prices[c] == st.prices[c])
  {
    EvictedColsFacts(st, maxint);
    EvictAllEffect(st.pairs, EvictedCols(st, maxint));
    SetAllEffect(st.prices, RepricedCols(st, maxint), NewPrice(st, maxint));
    forall c | c in RepricedCols(st, maxint)
      ensures 0 <= c < NCols(st.pairs) && LookupRow(st.pairs, c) < 0
    {
      RepricedUnassigned(st, maxint, c);
    }
  }

  /** Evicting one more listed column is one more clear_pair. */
  lemma EvictAllSnoc(p: Pairing, cols: seq<int>, i: nat)
    requires i < |cols|
    ensures EvictAll(p, cols[..i + 1]) == Unpair(EvictAll(p, cols[..i]), cols[i])
  {
    assert cols[..i + 1][..i] == cols[..i];
  }

  /** Evicting distinct assigned columns keeps the association consistent and its shape. */
  lemma EvictAllKeeps(p: Pairing, cols: seq<int>)
    requires Consistent(p)
    requires forall t :: 0 <= t < |cols| ==> 0 <= cols[t] < NCols(p) && LookupRow(p, cols[t]) >= 0
    requires forall a, b :: 0 <= a < b < |cols| ==> cols[a] != cols[b]
    ensures var q := EvictAll(p, cols);
      Consistent(q) && NRows(q) == NRows(p) && NCols(q) == NCols(p) && q.nnz == p.nnz - |cols|
  {
    EvictAllEffect(p, cols);
  }

  /** Evicting distinct assigned columns unassigns exactly those columns. */
  lemma EvictAllRowOf(p: Pairing, cols: seq<int>, c: int)
    requires Consistent(p)
    requires forall t :: 0 <= t < |cols| ==> 0 <= cols[t] < NCols(p) && LookupRow(p, cols[t]) >= 0
    requires forall a, b :: 0 <= a < b < |cols| ==> cols[a] != cols[b]
    ensures LookupRow(EvictAll(p, cols), c) == if c in cols then -1 else LookupRow(p, c)
  {
    EvictAllEffect(p, cols);
  }

  /**
   * One more eviction: after clearing the first i of a list of distinct
   * assigned columns, the association is still consistent and the next
   * column is still assigned, so its clear_pair call is well defined.
   */
  lemma EvictStep(p: Pairing, cols: seq<int>, i: nat)
    requires Consistent(p)
    requires forall t :: 0 <= t < |cols| ==> 0 <= cols[t] < NCols(p) && LookupRow(p, cols[t]) >= 0
    requires forall a, b :: 0 <= a < b < |cols| ==> cols[a] != cols[b]
    requires i < |cols|
    ensures var q := EvictAll(p, cols[..i]);
      && Consistent(q) && NRows(q) == NRows(p) && NCols(q) == NCols(p)
      && 0 <= cols[i] < NCols(q) && 0 <= LookupRow(q, cols[i]) < NRows(q)
  {
    assert cols[i] !in cols[..i];
    EvictAllKeeps(p, cols[..i]);
    EvictAllRowOf(p, cols[..i], cols[i]);
  }

  /** The row of a column after hidden_bid: none if evicted, the old one otherwise. */
  lemma EvictedRow(st: AuctState, maxint: int, c: int)
    requires Sized(st)
    ensures LookupRow(HiddenBid(st, maxint).pairs, c) == if c in EvictedCols(st, maxint) then -1 else LookupRow(st.pairs, c)
  {
    EvictedColsFacts(st, maxint);
    EvictAllEffect(st.pairs, EvictedCols(st, maxint));
  }

  /** hidden_bid drops the pair count by the number of evicted columns and stays consistent. */
  lemma EvictedCount(st: AuctState, maxint: int)
    requires Sized(st)
    ensures Consistent(HiddenBid(st, maxint).pairs)
    ensures HiddenBid(st, maxint).pairs.nnz == st.pairs.nnz - |EvictedCols(st, maxint)|
  {
    EvictedColsFacts(st, maxint);
    EvictAllEffect(st.pairs, EvictedCols(st, maxint));
  }

  /**
   * hidden_bid evicts k pairs, and only when it bids, so k is at most
   * min(Ncols - Nrows, #assigned, #unassigned); the count drops by exactly k;
   * the evicted columns are left unassigned and every other column keeps
   * its row.
   */
  lemma HiddenBidEviction(st: AuctState, maxint: int)
    requires Sized(st)
    ensures var r := HiddenBid(st, maxint);
      var e := EvictedCols(st, maxint);
      && (|e| > 0 ==> HiddenPlan(st, maxint).bidding)
      && (|e| > 0 ==> |e| <= Min(Min(NCols(st.pairs) - NRows(st.pairs), st.pairs.nnz), NCols(st.pairs) - st.pairs.nnz))
      && r.pairs.nnz == st.pairs.nnz - |e|
      && (forall c :: c in e ==> LookupRow(st.pairs, c) >= 0 && LookupRow(r.pairs, c) == -1)
      && (forall c :: c !in e ==> LookupRow(r.pairs, c) == LookupRow(st.pairs, c))
  {
    var e := EvictedCols(st, maxint);
    var r := HiddenBid(st, maxint);
    PlanSizes(st, maxint);
    EvictedColsFacts(st, maxint);
    EvictedCount(st, maxint);
    forall c | c in e
      ensures LookupRow(st.pairs, c) >= 0 && LookupRow(r.pairs, c) == -1
    {
      var a :| 0 <= a < |e| && e[a] == c;
      EvictedRow(st, maxint, c);
    }
    forall c | c !in e
      ensures LookupRow(r.pairs, c) == LookupRow(st.pairs, c)
    {
      EvictedRow(st, maxint, c);
    }
  }

  /** Every evicted price is at most the price of any column still assigned after hidden_bid. */
  lemma HiddenBidEvictsCheapest(st: AuctState, maxint: int, c: int, c': int)
    requires Sized(st)
    requires c in EvictedCols(st, maxint)
    requires 0 <= c' < NCols(st.pairs) && LookupRow(HiddenBid(st, maxint).pairs, c') >= 0
    ensures 0 <= c < |st.prices| && st.prices[c] <= st.prices[c']
  {
    var pl := HiddenPlan(st, maxint);
    EvictedRow(st, maxint, c');
    var a := IndicesWitness(pl.sa[..pl.k], c);
    PlanAssocAt(st, maxint, a);
    var b := PlanAssocPos(st, maxint, c');
    assert pl.bidding;
    if b < pl.k {
      IndicesHas(pl.sa[..pl.k], b);
    }
    PlanOrder(st, maxint);
    assert pl.sa[a].value <= pl.sa[b].value;
  }

  /**
   * hidden_bid repricing: every column unassigned on entry, except the
   * first k of the descending list, gets the new price; those k keep
   * theirs.
   */
  lemma HiddenBidRepricing(st: AuctState, maxint: int)
    requires |st.prices| == NCols(st.pairs)
    ensures var pl := HiddenPlan(st, maxint);
      var r := HiddenBid(st, maxint);
      && (forall c :: 0 <= c < |st.prices| && LookupRow(st.pairs, c) < 0 && c !in Indices(pl.su[..pl.k]) ==> r.prices[c] == NewPrice(st, maxint))
      && (forall c :: c in Indices(pl.su[..pl.k]) ==> 0 <= c < |st.prices| && r.prices[c] == st.prices[c])
  {
    var pl := HiddenPlan(st, maxint);
    var kept := Indices(pl.su[..pl.k]);
    SetAllEffect(st.prices, RepricedCols(st, maxint), NewPrice(st, maxint));
    forall c | 0 <= c < |st.prices| && LookupRow(st.pairs, c) < 0 && c !in kept
      ensures c in RepricedCols(st, maxint)
    {
      UnassignedRepriced(st, maxint, c);
    }
    forall c | c in kept
      ensures 0 <= c < |st.prices| && c !in RepricedCols(st, maxint)
    {
      KeptUnassigned(st, maxint, c);
      if c in RepricedCols(st, maxint) {
        RepricedUnassigned(st, maxint, c);
      }
    }
  }

  /**
   * With bidding, the new price is the last evicted price (the smallest
   * assigned price when nothing is evicted), so it bounds every evicted
   * price.
   */
  lemma HiddenBidNewPrice(st: AuctState, maxint: int, c: int)
    requires |st.prices| == NCols(st.pairs)
    requires c in EvictedCols(st, maxint)
    ensures 0 <= c < |st.prices| && st.prices[c] <= NewPrice(st, maxint)
  {
    var pl := HiddenPlan(st, maxint);
    var t := IndicesWitness(pl.sa[..pl.k], c);
    assert pl.bidding && NewPrice(st, maxint) == pl.sa[pl.k - 1].value;
    assert pl.sa[t] in pl.sa;
    PlanAssocMembers(st, maxint);
    if t < pl.k - 1 {
      PlanOrder(st, maxint);
      assert pl.sa[t].value <= pl.sa[pl.k - 1].value;
    }
  }

  /**
   * Without bidding, every unassigned column is repriced to minassoc - 1,
   * where minassoc is the smallest assigned price capped at MAXINT, so
   * MAXINT - 1 when nothing is assigned.
   */
  lemma HiddenBidNoBid(st: AuctState, maxint: int)
    requires Sized(st)
    ensures var pl := HiddenPlan(st, maxint);
      && (!pl.bidding ==> NewPrice(st, maxint) == MinValue(maxint, ColBids(st.pairs, st.prices, |st.prices|, true)) - 1)
      && (!pl.bidding ==> RepricedCols(st, maxint) == Indices(pl.su))
      && (!pl.bidding && st.pairs.nnz == 0 ==> NewPrice(st, maxint) == maxint - 1)
  {
    var pl := HiddenPlan(st, maxint);
    if !pl.bidding {
      assert pl.su[pl.k..] == pl.su;
      if st.pairs.nnz == 0 {
        PlanSizes(st, maxint);
        assert pl.sa == ColBids(st.pairs, st.prices, |st.prices|, true);
      }
    }
  }
}
