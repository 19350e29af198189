/**
 * The forward-auction driver auctionF (AuctAlg.cpp) and the pass-through
 * `auction` (AuctAlg.h). The bidding is a value model first: one cycle
 * (`Bid`), the inner loop that cycles until enough pairs exist or the
 * budget is spent (`Inner`), the outer loop that adds a hidden bid after
 * each inner loop (`Outer`), the epsilon-scaling schedule (`Scaling`) and
 * the whole run after the set-up (`Drive`). The methods are proved
 * against these functions, and the promises of the driver — the cycle
 * budget, the time-out flag, optimality without a time-out, the greedy
 * fill never losing a pair — are lemmas about them.
 */
module Engine {
  import opened Assoc
  import opened PriceModel
  import opened Payoff
  import opened Params
  import opened Shape
  import opened Pricing
  import opened Metrics
  import opened SingleBids
  import opened MultiBids
  import opened Cycles
  import opened MultiCycle
  import opened Greedy
  import opened InternalMatrix
  import opened Orientation

  /**
   * The fixed inputs of the bidding once the problem is oriented: the
   * internal payoff, the shape's row and column pointers and its row map,
   * whether multiplicities are in play, the target pair count min(Nf, Mf),
   * the cycle budget, MAXINT and the expanded column count.
   */
  datatype Run = Run(a: seq<seq<Entry>>, rowptr: seq<int>, colptr: seq<int>, rowmap: seq<int>,
                     multi: bool, thresh: int, maxcycles: int, maxint: int, mf: int)

  /** A state of the bidding together with the number of cycles spent so far. */
  datatype Progress = Progress(st: AuctState, cycles: int)

  /** The end of a run: the final state, the cycles spent, the pairs the auction found and whether it timed out. */
  datatype Outcome = Outcome(st: AuctState, cycles: int, nauction: int, timedOut: bool)

  /** What the run needs of an association with nr rows and nc columns. */
  ghost predicate Fits(r: Run, nr: int, nc: int)
  {
    && |r.a| < |r.rowptr| && GroupsWithin(r.rowptr, nr)
    && ColsBelow(r.a, |r.colptr| - 1)
    && GroupsWithin(r.colptr, nc)
    && (r.multi ==> GroupsReadable(r.colptr, nc))
    && (!r.multi ==> ColsBelow(r.a, nc) && |r.a| <= nr)
    && |r.rowmap| == nr && MapsInto(r.rowmap, |r.rowmap|, |r.a|)
  }

  /** What every bidding step needs of the state and the run. */
  ghost predicate Ready(st: AuctState, r: Run)
  {
    Sized(st) && Fits(r, NRows(st.pairs), NCols(st.pairs))
  }

  /** The two states have the same dimensions. */
  ghost predicate SameDims(st: AuctState, st': AuctState)
  {
    NRows(st'.pairs) == NRows(st.pairs) && NCols(st'.pairs) == NCols(st.pairs)
  }

  /*
   * The steps below are total: a state the run does not fit (which the
   * driver never produces, see BidKeeps and HiddenKeeps) is left as it is.
   */

  /** One bidding cycle: auct_cycle_SM with multiplicities, auct_cycle_SP1 without. */
  ghost function Bid(st: AuctState, r: Run, eps: int): AuctState
  {
    if !Ready(st, r) then st
    else if r.multi then SMCycle(st, r.a, r.rowptr, r.colptr, eps, -r.maxint)
    else Cycle(st, r.a, eps, -r.maxint, false)
  }

  /** hidden_bid on a state. */
  ghost function Hidden(st: AuctState, r: Run): AuctState
  {
    if !Ready(st, r) then st else HiddenBid(st, r.maxint)
  }

  /** blank: every pair removed, prices and profits kept. */
  ghost function Blanked(st: AuctState): (res: AuctState)
    ensures SameDims(st, res) && res.pairs.nnz == 0
    ensures Sized(st) ==> Sized(res)
  {
    EmptyConsistent(NRows(st.pairs), NCols(st.pairs));
    AuctState(Empty(NRows(st.pairs), NCols(st.pairs)), st.prices, st.profits)
  }

  /** A bidding cycle keeps the state well-sized and its dimensions. */
  lemma BidKeeps(st: AuctState, r: Run, eps: int)
    requires Ready(st, r)
    ensures Ready(Bid(st, r, eps), r) && SameDims(st, Bid(st, r, eps))
  {
    if r.multi {
      SMCycleKeeps(st, r.a, |r.a|, r.rowptr, r.colptr, eps, -r.maxint);
    } else {
      CycleMonotone(st, r.a, |r.a|, eps, -r.maxint, false);
    }
  }

  /** With multiplicities, a ready state meets what auct_cycle_SM needs and Bid is that cycle. */
  lemma BidIsSM(st: AuctState, r: Run, eps: int)
    requires Ready(st, r) && r.multi
    ensures |r.a| < |r.rowptr| && ColsBelow(r.a, |r.colptr| - 1)
    ensures GroupsWithin(r.colptr, |st.prices|) && GroupsReadable(r.colptr, |st.prices|)
    ensures Bid(st, r, eps) == SMCycle(st, r.a, r.rowptr, r.colptr, eps, -r.maxint)
  {
  }

  /** Without multiplicities, a ready state meets what auct_cycle_SP1 needs and Bid is that cycle. */
  lemma BidIsSP1(st: AuctState, r: Run, eps: int)
    requires Ready(st, r) && !r.multi
    ensures ColsBelow(r.a, |st.prices|) && Bid(st, r, eps) == Cycle(st, r.a, eps, -r.maxint, false)
  {
  }

  /** hidden_bid keeps the state well-sized and its dimensions. */
  lemma HiddenKeeps(st: AuctState, r: Run)
    requires Ready(st, r)
    ensures Ready(Hidden(st, r), r) && SameDims(st, Hidden(st, r))
  {
    HiddenBidFrame(st, r.maxint);
  }

  /** The inner loop: while fewer than thresh pairs exist and the budget allows, count a cycle and bid. */
  ghost function Inner(st: AuctState, c: int, r: Run, eps: int): Progress
    decreases r.maxcycles - c
  {
    if st.pairs.nnz < r.thresh && c < r.maxcycles then
      Inner(Bid(st, r, eps), c + 1, r, eps)
    else Progress(st, c)
  }

  /** The inner loop never counts backwards. */
  lemma {:induction false} InnerCounts(st: AuctState, c: int, r: Run, eps: int)
    ensures c <= Inner(st, c, r, eps).cycles
    decreases r.maxcycles - c
  {
    if st.pairs.nnz < r.thresh && c < r.maxcycles {
      InnerCounts(Bid(st, r, eps), c + 1, r, eps);
    }
  }

  /** The inner loop at its end: the state and the count as they are. */
  lemma InnerStop(st: AuctState, c: int, r: Run, eps: int)
    requires !(st.pairs.nnz < r.thresh && c < r.maxcycles)
    ensures Inner(st, c, r, eps) == Progress(st, c)
  {
  }

  /** One turn of the inner loop. */
  lemma InnerStep(st: AuctState, c: int, r: Run, eps: int)
    requires st.pairs.nnz < r.thresh && c < r.maxcycles
    ensures Inner(st, c, r, eps) == Inner(Bid(st, r, eps), c + 1, r, eps)
  {
  }

  /** The outer loop: inner loops, each followed by a hidden bid when `hidden`, until thresh pairs exist or the budget is spent. */
  ghost function Outer(st: AuctState, c: int, r: Run, eps: int, hidden: bool): Progress
    decreases r.maxcycles - c
  {
    if st.pairs.nnz < r.thresh && c < r.maxcycles then
      var mid := Inner(st, c, r, eps);
      InnerCounts(Bid(st, r, eps), c + 1, r, eps);
      Outer(if hidden then Hidden(mid.st, r) else mid.st, mid.cycles, r, eps, hidden)
    else Progress(st, c)
  }

  /**
   * The epsilon-scaling loop: for eps = epsstart, then eps / epsfac, while
   * eps > 1 and the budget allows, blank the pairs and run the outer loop
   * with hidden bids. An epsfac of at least 2 makes eps fall each time.
   */
  ghost function Scaling(st: AuctState, c: int, r: Run, eps: int, epsfac: int): Progress
    requires eps > 1 ==> epsfac >= 2
    decreases eps
  {
    if eps > 1 && c < r.maxcycles then
      var done := Outer(Blanked(st), c, r, eps, true);
      EpsFalls(eps, epsfac);
      Scaling(done.st, done.cycles, r, eps / epsfac, epsfac)
    else Progress(st, c)
  }

  /** The epsilon the scaling loop leaves in the parameters: the last one it set, or `cur` when it sets none. */
  ghost function LastEps(st: AuctState, c: int, r: Run, eps: int, epsfac: int, cur: int): int
    requires eps > 1 ==> epsfac >= 2
    decreases eps
  {
    if eps > 1 && c < r.maxcycles then
      var done := Outer(Blanked(st), c, r, eps, true);
      EpsFalls(eps, epsfac);
      LastEps(done.st, done.cycles, r, eps / epsfac, epsfac, eps)
    else cur
  }

  /** Dividing an epsilon above 1 by a factor of at least 2 gives a smaller, non-negative epsilon. */
  lemma EpsFalls(eps: int, epsfac: int)
    requires eps > 1 && epsfac >= 2
    ensures 0 <= eps / epsfac < eps
  {
    assert eps / epsfac * epsfac + eps % epsfac == eps;
    assert eps / epsfac * epsfac >= eps / epsfac * 2 by {
      assert eps / epsfac >= 0;
    }
  }

  /** greedy_fill on a state: only the pairs change. */
  ghost function Filled(st: AuctState, r: Run): AuctState
  {
    if !Ready(st, r) then st
    else AuctState(Fill(st.pairs, r.a, r.rowmap, r.colptr, |r.rowmap|, r.mf, -r.maxint), st.prices, st.profits)
  }

  /**
   * The run after the set-up, on the oriented state: with scaling, the
   * scaling loop, and on a spent budget the greedy fill and the end; then
   * the last pass (epsilon 1 with scaling, epsstart without, hidden bids
   * only with scaling) from a blank association, and the greedy fill if
   * the budget is spent.
   */
  ghost function Drive(st: AuctState, r: Run, escale: bool, epsstart: int, epsfac: int): Outcome
    requires escale && epsstart > 1 ==> epsfac >= 2
  {
    var scaled := if escale then Scaling(st, 0, r, epsstart, epsfac) else Progress(st, 0);
    if escale && scaled.cycles >= r.maxcycles then Close(scaled.st, scaled.cycles, r)
    else
      var last := Outer(Blanked(scaled.st), scaled.cycles, r, if escale then 1 else epsstart, escale);
      Close(last.st, last.cycles, r)
  }

  /**
   * The epsilon the run leaves in the parameters, which held eps0: epsstart
   * without scaling; with scaling, 1 after the last pass, or the last
   * epsilon of the scaling loop when it spent the budget.
   */
  ghost function DriveEps(st: AuctState, r: Run, escale: bool, epsstart: int, epsfac: int, eps0: int): int
    requires escale && epsstart > 1 ==> epsfac >= 2
  {
    if !escale then epsstart
    else if Scaling(st, 0, r, epsstart, epsfac).cycles >= r.maxcycles then LastEps(st, 0, r, epsstart, epsfac, eps0)
    else 1
  }

  /** The end of the run after c cycles: timed out, with the greedy fill, when the budget is spent. */
  ghost function Close(st: AuctState, c: int, r: Run): Outcome
  {
    if c >= r.maxcycles then Outcome(Filled(st, r), c, st.pairs.nnz, true)
    else Outcome(st, c, st.pairs.nnz, false)
  }

  /** An outcome of the bidding, with the association back in the caller's orientation. */
  function Reported(o: Outcome, flip: bool): Outcome
  {
    Outcome(Oriented(o.st, flip), o.cycles, o.nauction, o.timedOut)
  }


  // ------------------------------------------------------------------
  // Properties of the run
  // ------------------------------------------------------------------

  /**
   * The inner loop keeps the state ready and its dimensions; it ends
   * within the budget, before the budget only with at least thresh
   * pairs, and it counts at least one cycle whenever its guard holds.
   */
  lemma {:induction false} InnerMeaning(st: AuctState, c: int, r: Run, eps: int)
    requires Ready(st, r)
    ensures var res := Inner(st, c, r, eps);
      && Ready(res.st, r) && SameDims(st, res.st)
      && c <= res.cycles && (c <= r.maxcycles ==> res.cycles <= r.maxcycles)
      && (res.cycles < r.maxcycles ==> res.st.pairs.nnz >= r.thresh)
      && (st.pairs.nnz < r.thresh && c < r.maxcycles ==> c < res.cycles)
    decreases r.maxcycles - c
  {
    if st.pairs.nnz < r.thresh && c < r.maxcycles {
      BidKeeps(st, r, eps);
      InnerMeaning(Bid(st, r, eps), c + 1, r, eps);
    }
  }

  /** The outer loop keeps the state ready and its dimensions, ends within the budget, and before it only with thresh pairs. */
  lemma {:induction false} OuterMeaning(st: AuctState, c: int, r: Run, eps: int, hidden: bool)
    requires Ready(st, r)
    ensures var res := Outer(st, c, r, eps, hidden);
      && Ready(res.st, r) && SameDims(st, res.st)
      && c <= res.cycles && (c <= r.maxcycles ==> res.cycles <= r.maxcycles)
      && (res.cycles < r.maxcycles ==> res.st.pairs.nnz >= r.thresh)
    decreases r.maxcycles - c
  {
    if st.pairs.nnz < r.thresh && c < r.maxcycles {
      var mid := Inner(st, c, r, eps);
      InnerMeaning(st, c, r, eps);
      HiddenKeeps(mid.st, r);
      OuterMeaning(if hidden then Hidden(mid.st, r) else mid.st, mid.cycles, r, eps, hidden);
    }
  }

  /** The scaling loop keeps the state ready and its dimensions and ends within the budget. */
  lemma {:induction false} ScalingMeaning(st: AuctState, c: int, r: Run, eps: int, epsfac: int)
    requires Ready(st, r) && (eps > 1 ==> epsfac >= 2)
    ensures var res := Scaling(st, c, r, eps, epsfac);
      && Ready(res.st, r) && SameDims(st, res.st)
      && c <= res.cycles && (c <= r.maxcycles ==> res.cycles <= r.maxcycles)
    decreases eps
  {
    if eps > 1 && c < r.maxcycles {
      var done := Outer(Blanked(st), c, r, eps, true);
      OuterMeaning(Blanked(st), c, r, eps, true);
      EpsFalls(eps, epsfac);
      ScalingMeaning(done.st, done.cycles, r, eps / epsfac, epsfac);
    }
  }

  /** The greedy fill keeps every pair, so the pair count never falls, and it stays within the dimensions. */
  lemma FilledKeeps(st: AuctState, r: Run)
    requires Ready(st, r)
    ensures var res := Filled(st, r);
      Sized(res) && SameDims(st, res) && res.pairs.nnz >= st.pairs.nnz
      && (forall i :: LookupCol(st.pairs, i) != -1 ==> LookupCol(res.pairs, i) == LookupCol(st.pairs, i))
  {
    FillMonotone(st.pairs, |r.rowmap|, r.a, r.rowmap, r.colptr, if |r.rowmap| < r.mf then |r.rowmap| else r.mf, -r.maxint);
  }

  /**
   * The driver's promises: never more cycles than the budget (none at all
   * when the budget is not positive); timed out exactly when the counter
   * reached the budget; without a time-out the auction alone reached the
   * target, which is min(Nf, Mf) and so the largest possible count; the
   * greedy fill only adds pairs, and never past that maximum.
   */
  lemma DriveMeaning(st: AuctState, r: Run, escale: bool, epsstart: int, epsfac: int)
    requires Ready(st, r) && (escale && epsstart > 1 ==> epsfac >= 2)
    requires r.thresh == Min(NRows(st.pairs), NCols(st.pairs))
    ensures var o := Drive(st, r, escale, epsstart, epsfac);
      && Sized(o.st) && SameDims(st, o.st)
      && 0 <= o.cycles && (o.cycles <= r.maxcycles || o.cycles == 0)
      && (o.timedOut <==> o.cycles >= r.maxcycles)
      && (!o.timedOut ==> o.nauction == r.thresh)
      && o.nauction <= o.st.pairs.nnz <= r.thresh
  {
    var scaled := if escale then Scaling(st, 0, r, epsstart, epsfac) else Progress(st, 0);
    if escale {
      ScalingMeaning(st, 0, r, epsstart, epsfac);
    }
    if escale && scaled.cycles >= r.maxcycles {
      CloseMeaning(scaled.st, scaled.cycles, r);
    } else {
      var last := Outer(Blanked(scaled.st), scaled.cycles, r, if escale then 1 else epsstart, escale);
      OuterMeaning(Blanked(scaled.st), scaled.cycles, r, if escale then 1 else epsstart, escale);
      CloseMeaning(last.st, last.cycles, r);
    }
  }

  /** The scaling loop leaves the last epsilon it set, which lies in (1, eps], or `cur` when it sets none. */
  lemma {:induction false} LastEpsMeaning(st: AuctState, c: int, r: Run, eps: int, epsfac: int, cur: int)
    requires eps > 1 ==> epsfac >= 2
    ensures var e := LastEps(st, c, r, eps, epsfac, cur);
      && (eps > 1 && c < r.maxcycles ==> 1 < e <= eps)
      && (!(eps > 1 && c < r.maxcycles) ==> e == cur)
    decreases eps
  {
    if eps > 1 && c < r.maxcycles {
      var done := Outer(Blanked(st), c, r, eps, true);
      EpsFalls(eps, epsfac);
      LastEpsMeaning(done.st, done.cycles, r, eps / epsfac, epsfac, eps);
    }
  }

  /**
   * The epsilon a run leaves: without a time-out, 1 with scaling and
   * epsstart without; with scaling from an epsstart above 1 and a positive
   * budget, always within [1, epsstart].
   */
  lemma DriveEpsMeaning(st: AuctState, r: Run, escale: bool, epsstart: int, epsfac: int, eps0: int)
    requires escale && epsstart > 1 ==> epsfac >= 2
    ensures var e := DriveEps(st, r, escale, epsstart, epsfac, eps0);
      && (!Drive(st, r, escale, epsstart, epsfac).timedOut ==> e == (if escale then 1 else epsstart))
      && (escale && epsstart > 1 && 0 < r.maxcycles ==> 1 <= e <= epsstart)
  {
    if escale && epsstart > 1 {
      LastEpsMeaning(st, 0, r, epsstart, epsfac, eps0);
    }
  }

  /**
   * Every round starts from S.blank(), so the pairs the run is given are
   * discarded: two states with the same dimensions, prices and profits
   * run alike. The exception is escaling with no cycle budget, where the
   * greedy fill works on the given pairs.
   */
  lemma DriveIgnoresPairs(st1: AuctState, st2: AuctState, r: Run, escale: bool, epsstart: int, epsfac: int, eps0: int)
    requires escale && epsstart > 1 ==> epsfac >= 2
    requires Blanked(st1) == Blanked(st2)
    requires !escale || 0 < r.maxcycles
    ensures Drive(st1, r, escale, epsstart, epsfac) == Drive(st2, r, escale, epsstart, epsfac)
    ensures DriveEps(st1, r, escale, epsstart, epsfac, eps0) == DriveEps(st2, r, escale, epsstart, epsfac, eps0)
  {
  }

  /** Closing a ready state: the fill keeps its dimensions, and the auction's count is at most the final count. */
  lemma CloseMeaning(st: AuctState, c: int, r: Run)
    requires Ready(st, r)
    ensures var o := Close(st, c, r);
      && Sized(o.st) && SameDims(st, o.st) && o.cycles == c
      && (o.timedOut <==> c >= r.maxcycles)
      && o.nauction == st.pairs.nnz <= o.st.pairs.nnz <= Min(NRows(st.pairs), NCols(st.pairs))
  {
    if c >= r.maxcycles {
      FilledKeeps(st, r);
    }
    PairCountBounds(Close(st, c, r).st.pairs);
  }

  // ------------------------------------------------------------------
  // The bidding loops on the objects
  // ------------------------------------------------------------------

  /** auct_cycle_SM as a bidding step of a run with multiplicities. */
  method BidSM(r: Run, s: AuctAssoc, prms: AuctParm)
    requires s.Valid() && Fits(r, s.assoc.nrows, s.assoc.ncols) && prms.maxint == r.maxint && r.multi
    modifies s.assoc`nnz, s.assoc.rowassign, s.assoc.colassign, s.prices, s.profits
    ensures s.Valid() && s.State() == Bid(old(s.State()), r, prms.epsilon)
  {
    ghost var st := s.State();
    s.ValidSized();
    BidIsSM(st, r, prms.epsilon);
    CycleSM(r.a, r.rowptr, r.colptr, s, prms);
  }

  /** auct_cycle_SP1 as a bidding step of a run without multiplicities. */
  method BidSP1(r: Run, s: AuctAssoc, prms: AuctParm)
    requires s.Valid() && Fits(r, s.assoc.nrows, s.assoc.ncols) && prms.maxint == r.maxint && !r.multi
    modifies s.assoc`nnz, s.assoc.rowassign, s.assoc.colassign, s.prices, s.profits
    ensures s.Valid() && s.State() == Bid(old(s.State()), r, prms.epsilon)
  {
    ghost var st := s.State();
    s.ValidSized();
    BidIsSP1(st, r, prms.epsilon);
    CycleSP1(r.a, s, prms);
  }

  /** One cycle of the inner loop: auct_cycle_SM with multiplicities, auct_cycle_SP1 without. */
  method BidOnce(r: Run, s: AuctAssoc, prms: AuctParm)
    requires s.Valid() && Fits(r, s.assoc.nrows, s.assoc.ncols) && prms.maxint == r.maxint
    modifies s.assoc`nnz, s.assoc.rowassign, s.assoc.colassign, s.prices, s.profits
    ensures s.Valid() && s.State() == Bid(old(s.State()), r, prms.epsilon)
  {
    if r.multi {
      BidSM(r, s, prms);
    } else {
      BidSP1(r, s, prms);
    }
  }

  /** The inner while loop of auctionF, counting from c0. */
  method InnerLoop(r: Run, s: AuctAssoc, prms: AuctParm, c0: int) returns (c: int)
    requires s.Valid() && Fits(r, s.assoc.nrows, s.assoc.ncols) && prms.maxint == r.maxint
    modifies s.assoc`nnz, s.assoc.rowassign, s.assoc.colassign, s.prices, s.profits
    ensures s.Valid() && Progress(s.State(), c) == Inner(old(s.State()), c0, r, prms.epsilon)
  {
    ghost var eps := prms.epsilon;
    ghost var cur := s.State();
    ghost var goal := Inner(cur, c0, r, eps);
    c := c0;
    while s.assoc.NAssoc() < r.thresh && c < r.maxcycles
      invariant s.Valid() && prms.epsilon == eps && s.State() == cur
      invariant Inner(cur, c, r, eps) == goal
      decreases r.maxcycles - c
    {
      InnerStep(cur, c, r, eps);
      BidOnce(r, s, prms);
      cur, c := Bid(cur, r, eps), c + 1;
    }
    InnerStop(cur, c, r, eps);
  }

  /** The outer while loop of auctionF: inner loops, each followed by hidden_bid when `hidden`. */
  method OuterLoop(r: Run, s: AuctAssoc, prms: AuctParm, c0: int, hidden: bool) returns (c: int)
    requires s.Valid() && Fits(r, s.assoc.nrows, s.assoc.ncols) && prms.maxint == r.maxint
    modifies s.assoc`nnz, s.assoc.rowassign, s.assoc.colassign, s.prices, s.profits
    ensures s.Valid() && Progress(s.State(), c) == Outer(old(s.State()), c0, r, prms.epsilon, hidden)
  {
    ghost var eps := prms.epsilon;
    ghost var goal := Outer(s.State(), c0, r, eps, hidden);
    c := c0;
    while s.assoc.NAssoc() < r.thresh && c < r.maxcycles
      invariant s.Valid() && prms.epsilon == eps && prms.maxint == r.maxint
      invariant Outer(s.State(), c, r, eps, hidden) == goal
      decreases r.maxcycles - c
    {
      ghost var st, c' := s.State(), c;
      c := InnerLoop(r, s, prms, c);
      ghost var mid := Inner(st, c', r, eps);
      InnerMeaning(st, c', r, eps);
      if hidden {
        s.HiddenBid(prms.maxint);
        assert s.State() == Hidden(mid.st, r);
      }
      assert Outer(st, c', r, eps, hidden) == Outer(s.State(), c, r, eps, hidden);
    }
  }

  /** Set epsilon, blank S and run the outer loop: one round of the scaling loop, or the last pass. */
  method Round(r: Run, s: AuctAssoc, prms: AuctParm, eps: int, c0: int, hidden: bool) returns (c: int)
    requires s.Valid() && Fits(r, s.assoc.nrows, s.assoc.ncols) && prms.maxint == r.maxint
    modifies s.assoc`nnz, s.assoc.rowassign, s.assoc.colassign, s.prices, s.profits, prms`epsilon
    ensures s.Valid() && prms.epsilon == eps
    ensures Progress(s.State(), c) == Outer(Blanked(old(s.State())), c0, r, eps, hidden)
  {
    ghost var st := s.State();
    prms.SetEpsilon(eps);
    s.assoc.Blank();
    assert s.State() == Blanked(st);
    c := OuterLoop(r, s, prms, c0, hidden);
  }

  /** The epsilon-scaling for loop of auctionF. */
  method ScaleLoop(r: Run, s: AuctAssoc, prms: AuctParm, epsstart: int, epsfac: int) returns (c: int)
    requires s.Valid() && Fits(r, s.assoc.nrows, s.assoc.ncols) && prms.maxint == r.maxint
    requires epsstart > 1 ==> epsfac >= 2
    modifies s.assoc`nnz, s.assoc.rowassign, s.assoc.colassign, s.prices, s.profits, prms`epsilon
    ensures s.Valid() && Progress(s.State(), c) == Scaling(old(s.State()), 0, r, epsstart, epsfac)
    ensures prms.epsilon == LastEps(old(s.State()), 0, r, epsstart, epsfac, old(prms.epsilon))
  {
    ghost var goal := Scaling(s.State(), 0, r, epsstart, epsfac);
    ghost var last := LastEps(s.State(), 0, r, epsstart, epsfac, prms.epsilon);
    c := 0;
    var eps := epsstart;
    while eps > 1 && c < r.maxcycles
      invariant s.Valid() && prms.maxint == r.maxint
      invariant eps > 1 ==> epsfac >= 2
      invariant Scaling(s.State(), c, r, eps, epsfac) == goal
      invariant LastEps(s.State(), c, r, eps, epsfac, prms.epsilon) == last
      decreases eps
    {
      ghost var st, c' := s.State(), c;
      c := Round(r, s, prms, eps, c, true);
      EpsFalls(eps, epsfac);
      eps := eps / epsfac;
    }
  }

  /** greedy_fill on S with the run's full rows and columns. */
  method FillUp(r: Run, s: AuctAssoc, prms: AuctParm)
    requires s.Valid() && Fits(r, s.assoc.nrows, s.assoc.ncols) && prms.maxint == r.maxint
    modifies s.assoc`nnz, s.assoc.rowassign, s.assoc.colassign
    ensures s.Valid() && s.State() == Filled(old(s.State()), r)
  {
    ghost var st := s.State();
    assert Ready(st, r);
    GreedyFill(r.a, r.rowmap, r.colptr, |r.rowmap|, r.mf, s, prms);
  }

  /** Record the cycle count and the auction's pair count; on a spent budget, flag the time-out and run greedy_fill. */
  method Finish(r: Run, s: AuctAssoc, prms: AuctParm, metric: AuctMetric, c: int)
    requires s.Valid() && Fits(r, s.assoc.nrows, s.assoc.ncols) && prms.maxint == r.maxint
    requires !metric.timedOut
    modifies s.assoc`nnz, s.assoc.rowassign, s.assoc.colassign
    modifies metric`ncycles, metric`nauction, metric`timedOut
    ensures s.Valid()
    ensures Outcome(s.State(), metric.ncycles, metric.nauction, metric.timedOut) == Close(old(s.State()), c, r)
  {
    metric.SetNCycles(c);
    metric.SetNAuctionAssoc(s.assoc.NAssoc());
    if c >= r.maxcycles {
      metric.SetTimedOut(true);
      FillUp(r, s, prms);
    }
  }

  /**
   * The end of auctionF: Finish, then the final pair count, which the
   * transposition does not change, and S back in the caller's orientation.
   */
  method Conclude(r: Run, flip: bool, s: AuctAssoc, prms: AuctParm, metric: AuctMetric, c: int)
    requires s.Valid()
    requires Fits(r, s.assoc.nrows, s.assoc.ncols) && prms.maxint == r.maxint && !metric.timedOut
    modifies s`prices, s`profits, s.assoc`nrows, s.assoc`ncols, s.assoc`rowassign, s.assoc`colassign, s.assoc`nnz
    modifies s.assoc.rowassign, s.assoc.colassign
    modifies metric`ncycles, metric`nauction, metric`timedOut, metric`ntotal
    ensures s.Valid()
    ensures Outcome(s.State(), metric.ncycles, metric.nauction, metric.timedOut)
         == Reported(Close(old(s.State()), c, r), flip)
    ensures metric.ntotal == s.State().pairs.nnz
  {
    Finish(r, s, prms, metric, c);
    metric.SetNTotalAssoc(s.assoc.NAssoc());
    if flip {
      s.Transpose();
    }
  }

  /** The last pass of auctionF from c0 cycles on: Round at epsilon eps, then Conclude. */
  method LastPass(r: Run, flip: bool, s: AuctAssoc, prms: AuctParm, metric: AuctMetric,
                  eps: int, c0: int, hidden: bool)
    requires s.Valid() && Fits(r, s.assoc.nrows, s.assoc.ncols) && prms.maxint == r.maxint
    requires !metric.timedOut
    modifies s`prices, s`profits, s.assoc`nrows, s.assoc`ncols, s.assoc`rowassign, s.assoc`colassign, s.assoc`nnz
    modifies s.prices, s.profits, s.assoc.rowassign, s.assoc.colassign, prms`epsilon
    modifies metric`ncycles, metric`nauction, metric`timedOut, metric`ntotal
    ensures s.Valid() && prms.epsilon == eps && metric.ntotal == s.State().pairs.nnz
    ensures var last := Outer(Blanked(old(s.State())), c0, r, eps, hidden);
      Outcome(s.State(), metric.ncycles, metric.nauction, metric.timedOut) == Reported(Close(last.st, last.cycles, r), flip)
  {
    var c := Round(r, s, prms, eps, c0, hidden);
    Conclude(r, flip, s, prms, metric, c);
  }

  /**
   * auctionF from the epsilon schedule on: the scaling loop, the exit on
   * a spent budget, the last pass and the greedy fill, with the cycle
   * count, the auction's pair count, the time-out flag and the final pair
   * count recorded in the metric, the epsilon left in the parameters, and
   * S transposed back when `flip`.
   */
  method Solve(r: Run, flip: bool, s: AuctAssoc, prms: AuctParm, metric: AuctMetric,
               escale: bool, epsstart: int, epsfac: int)
    requires s.Valid() && Fits(r, s.assoc.nrows, s.assoc.ncols) && prms.maxint == r.maxint
    requires epsfac == prms.epsfac && (escale && epsstart > 1 ==> epsfac >= 2)
    requires !metric.timedOut
    modifies s`prices, s`profits, s.assoc`nrows, s.assoc`ncols, s.assoc`rowassign, s.assoc`colassign, s.assoc`nnz
    modifies s.prices, s.profits, s.assoc.rowassign, s.assoc.colassign, prms`epsilon
    modifies metric`ncycles, metric`nauction, metric`timedOut, metric`ntotal
    ensures s.Valid()
    ensures Outcome(s.State(), metric.ncycles, metric.nauction, metric.timedOut)
         == Reported(Drive(old(s.State()), r, escale, epsstart, epsfac), flip)
    ensures metric.ntotal == s.State().pairs.nnz
    ensures prms.epsilon == DriveEps(old(s.State()), r, escale, epsstart, epsfac, old(prms.epsilon))
  {
    var c := 0;
    if escale {
      c := ScaleLoop(r, s, prms, epsstart, epsfac);
      if c >= r.maxcycles {
        Conclude(r, flip, s, prms, metric, c);
        return;
      }
    }
    LastPass(r, flip, s, prms, metric, if escale then 1 else epsstart, c, escale);
  }
}
