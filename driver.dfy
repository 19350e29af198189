/**
 * The set-up around the bidding in auctionF (AuctAlg.cpp) and the public
 * entry point `auction` (AuctAlg.h): the consistency checks, the
 * reorientation that puts the shorter side on the rows, the internal
 * payoff, the starting epsilon and the metric. `Forward` is the whole run
 * in the caller's orientation and `AuctionOf` the report it produces; the
 * methods are proved against them and the driver's promises are lemmas
 * about them.
 */
module Driver {
  import opened Assoc
  import opened PriceModel
  import opened Payoff
  import opened Params
  import opened Shape
  import opened Pricing
  import opened Metrics
  import opened MultiBids
  import opened Greedy
  import opened InternalMatrix
  import opened Engine
  import opened Orientation

  /** The parameters auctionF reads, and the epsilon they hold before it runs. */
  datatype Settings = Settings(maxcycles: int, maxint: int, escale: bool, epsrel: bool,
                               epsstart: int, epsfac: int, resolution: int, epsilon: int)

  function SettingsOf(p: AuctParm): Settings
    reads p
  {
    Settings(p.maxcycles, p.maxint, p.escale, p.epsrel, p.epsstart, p.epsfac, p.resolution, p.epsilon)
  }

  function Abs(x: int): nat
  {
    if x < 0 then -x else x
  }

  /** C division: the quotient truncated toward zero. */
  function Quot(x: int, y: int): int
    requires y != 0
  {
    var a := Abs(x) / Abs(y);
    if (x < 0) != (y < 0) then -a else a
  }

  /** The truncated quotient leaves a remainder smaller than the divisor, and has the sign of x * y. */
  lemma QuotMeaning(x: int, y: int)
    requires y != 0
    ensures var q := Quot(x, y);
      && Abs(q * y) <= Abs(x) < Abs(q * y) + Abs(y)
      && (q == 0 || ((q > 0) <==> ((x < 0) == (y < 0))))
  {
    DivBounds(Abs(x), Abs(y));
    AbsProduct(Quot(x, y), y);
  }

  lemma DivBounds(x: nat, y: nat)
    requires y > 0
    ensures x / y >= 0 && x / y * y <= x < x / y * y + y
  {
  }

  lemma AbsProduct(q: int, y: int)
    ensures Abs(q * y) == Abs(q) * Abs(y)
  {
    if q < 0 && y >= 0 {
      assert q * y == -((-q) * y);
    } else if q >= 0 && y < 0 {
      assert q * y == -(q * (-y));
    } else if q < 0 && y < 0 {
      assert q * y == (-q) * (-y);
    }
  }

  /**
   * The starting epsilon: epsstart itself, or min(N, M) * epsstart /
   * resolution when it is relative; forced to 1 when below 2 or when
   * epsfac is below 2.
   */
  function StartEps(cfg: Settings, k: int): (e: int)
    requires cfg.epsrel ==> cfg.resolution != 0
    ensures e >= 1 && (e > 1 ==> cfg.epsfac >= 2)
    ensures var e0 := if cfg.epsrel then Quot(k * cfg.epsstart, cfg.resolution) else cfg.epsstart;
      e == (if e0 < 2 || cfg.epsfac < 2 then 1 else e0)
  {
    var e0 := if cfg.epsrel then Quot(k * cfg.epsstart, cfg.resolution) else cfg.epsstart;
    if e0 < 2 || cfg.epsfac < 2 then 1 else e0
  }

  /** Whether multiplicities are in play: the expanded counts differ from the payoff's. */
  function Multi(up: ShapeState): bool
  {
    !(|up.rows.index| == |up.rows.mult| && |up.cols.index| == |up.cols.mult|)
  }

  /** The problem is reoriented when there are more expanded rows than expanded columns. */
  function Flip(up: ShapeState): bool
  {
    |up.rows.index| > |up.cols.index|
  }

  /** Epsilon-scaling as requested, except that a 1x1 payoff never scales. */
  function EScale(up: ShapeState, cfg: Settings): bool
  {
    cfg.escale && !(|up.rows.mult| == 1 && |up.cols.mult| == 1)
  }

  /** The shape in the orientation the bidding uses. */
  function OrientedShape(up: ShapeState): ShapeState
  {
    if Flip(up) then Shape.Transposed(up) else up
  }

  /**
   * The internal payoff: the n-by-m payoff, transposed by ctransp when the
   * problem is reoriented, every value multiplied by min(n, m) + 1.
   */
  function Internal(input: seq<seq<Entry>>, n: int, m: nat, flip: bool): seq<seq<Entry>>
  {
    Scaled(if flip then CTransp(input, m) else input, Min(n, m) + 1)
  }

  /** The inputs of the bidding, read off the oriented shape. */
  function RunOf(input: seq<seq<Entry>>, up: ShapeState, cfg: Settings): Run
  {
    var sd := OrientedShape(up);
    Run(Internal(input, |up.rows.mult|, |up.cols.mult|, Flip(up)), sd.rows.ptr, sd.cols.ptr, sd.rows.index,
        Multi(up), Min(|up.rows.index|, |up.cols.index|), cfg.maxcycles, cfg.maxint, |sd.cols.index|)
  }

  /**
   * The run on an accepted problem, reported in the caller's orientation:
   * orient, drive the bidding from the starting epsilon, orient back.
   */
  ghost function Forward(input: seq<seq<Entry>>, up: ShapeState, st: AuctState, cfg: Settings): Outcome
    requires cfg.epsrel ==> cfg.resolution != 0
  {
    Reported(Drive(Oriented(st, Flip(up)), RunOf(input, up, cfg), EScale(up, cfg),
                   StartEps(cfg, Min(|up.rows.mult|, |up.cols.mult|)), cfg.epsfac), Flip(up))
  }

  /** The epsilon an accepted run leaves in the parameters. */
  ghost function ForwardEps(input: seq<seq<Entry>>, up: ShapeState, st: AuctState, cfg: Settings): int
    requires cfg.epsrel ==> cfg.resolution != 0
  {
    DriveEps(Oriented(st, Flip(up)), RunOf(input, up, cfg), EScale(up, cfg),
             StartEps(cfg, Min(|up.rows.mult|, |up.cols.mult|)), cfg.epsfac, cfg.epsilon)
  }

  /** The metric fields auctionF sets before the bidding, which the bidding leaves alone. */
  datatype Flags = Flags(paydensity: int, sparsified: bool, rowmults: bool, colmults: bool, escaling: bool)

  /** What auctionF leaves behind: the association state, every field of the metric and the epsilon. */
  datatype Report = Report(st: AuctState, ncycles: int, nauction: int, ntotal: int, nmax: int,
                           timedOut: bool, reoriented: bool, flags: Flags, epsilon: int)

  /** A rejected problem: the association and the epsilon untouched, and the default metric. */
  function Untouched(st: AuctState, eps: int): Report
  {
    Report(st, 0, 0, 0, 0, false, false, Flags(0, false, false, false, false), eps)
  }

  /**
   * The report of auctionF, given whether the payoff agrees with the
   * shape, the payoff rows, whether the payoff was sparsified, the shape
   * after ifcompute, the association and the parameters. The problem is
   * rejected when the payoff or the association disagrees with the shape
   * or an expanded count is 0.
   */
  ghost function AuctionOf(payOk: bool, input: seq<seq<Entry>>, sparsified: bool, up: ShapeState,
                           st: AuctState, cfg: Settings): Report
    requires Synced(up.cols) && (cfg.epsrel ==> cfg.resolution != 0)
  {
    var nf, mf, n, m := |up.rows.index|, |up.cols.index|, |up.rows.mult|, |up.cols.mult|;
    if !payOk || nf != NRows(st.pairs) || mf != NCols(st.pairs) || nf == 0 || mf == 0 then Untouched(st, cfg.epsilon)
    else
      SyncedSize(up.cols);
      Described(Forward(input, up, st, cfg), ForwardEps(input, up, st, cfg), up, sparsified, cfg)
  }

  /**
   * The report of a run that went ahead: the outcome, min(Nf, Mf) as the
   * maximum, the payoff density NNZ / M * N in integer arithmetic, and the
   * flags for reorientation, sparsification, multiplicities and escaling.
   */
  function Described(o: Outcome, eps: int, up: ShapeState, sparsified: bool, cfg: Settings): Report
    requires |up.cols.mult| != 0
  {
    var nf, mf, n, m := |up.rows.index|, |up.cols.index|, |up.rows.mult|, |up.cols.mult|;
    Report(o.st, o.cycles, o.nauction, o.st.pairs.nnz, Min(nf, mf), o.timedOut, Flip(up),
           Flags(Quot(up.nnz, m) * n, sparsified, nf != n, mf != m, EScale(up, cfg)), eps)
  }

  // ------------------------------------------------------------------
  // Properties
  // ------------------------------------------------------------------

  /** The pointers of a synchronised side stay within [0, map length] and never decrease. */
  lemma SyncedGroups(s: Side)
    requires Synced(s)
    ensures GroupsWithin(s.ptr, |s.index|)
  {
    SyncedSize(s);
    forall i, j | 0 <= i <= j < |s.ptr|
      ensures 0 <= s.ptr[i] <= s.ptr[j] <= |s.index|
    {
      PtrsMonotone(s.mult, i, j);
      PtrsMonotone(s.mult, j, |s.mult|);
    }
  }

  /** Every column of the transposed payoff is a row index of the original. */
  lemma TransposeRowsBelow(a: seq<seq<Entry>>, m: nat)
    ensures ColsBelow(CTransp(a, m), |a|)
  {
    var b := SweptRows(a, m);
    var t: seq<seq<Entry>> := CTransp(a, m);
    forall c, k | 0 <= c < m && 0 <= k < |t[c]|
      ensures 0 <= t[c][k].col < |a|
    {
      assert t[c] == ColumnOf(b, c, |b|);
    }
  }

  /**
   * With multiplicities, every empty column group of the bidding's
   * orientation (the row groups when the problem is reoriented) ends below
   * the expanded count, so that min_price_in_colrange reading the price
   * one past it stays in range.
   */
  ghost predicate Readable(up: ShapeState)
  {
    Multi(up) ==>
      if Flip(up) then GroupsReadable(up.rows.ptr, |up.rows.index|) else GroupsReadable(up.cols.ptr, |up.cols.index|)
  }

  /** What ifcompute needs of a shape: the flag in range, synchronised when clean, maps in range when they changed. */
  ghost predicate Computable(up: ShapeState)
  {
    && 0 <= up.flag <= 2
    && (up.flag == 0 ==> Synced(up.rows) && Synced(up.cols))
    && (up.flag == 2 ==> InRange(up.rows.index, |up.rows.mult|) && InRange(up.cols.index, |up.cols.mult|))
  }

  /** The shape as ifcompute leaves it: clean and synchronised on both sides. */
  ghost function Current(up: ShapeState): (res: ShapeState)
    requires Computable(up)
    ensures res == IfCompute(up) && res.flag == 0 && Synced(res.rows) && Synced(res.cols)
  {
    IfComputeSynced(up);
    IfCompute(up)
  }

  /** What auctionF needs to accept a problem, on the shape after ifcompute. */
  ghost predicate Accepted(input: seq<seq<Entry>>, up: ShapeState, st: AuctState)
  {
    && Synced(up.rows) && Synced(up.cols)
    && |input| == |up.rows.mult| && ColsBelow(input, |up.cols.mult|)
    && Readable(up)
    && Sized(st) && NRows(st.pairs) == |up.rows.index| && NCols(st.pairs) == |up.cols.index|
  }

  /** An accepted problem, once oriented, fits every bidding step, and the target is min(Nf, Mf). */
  lemma ReadyAtStart(input: seq<seq<Entry>>, up: ShapeState, st: AuctState, cfg: Settings)
    requires Accepted(input, up, st)
    ensures var st0, r := Oriented(st, Flip(up)), RunOf(input, up, cfg);
      Ready(st0, r) && r.thresh == Min(NRows(st0.pairs), NCols(st0.pairs))
  {
    var flip := Flip(up);
    var sd := OrientedShape(up);
    var st0 := Oriented(st, flip);
    var r := RunOf(input, up, cfg);
    TransposedStateInvolution(st);
    SyncedGroups(up.rows);
    SyncedGroups(up.cols);
    SyncedSize(up.rows);
    SyncedSize(up.cols);
    var n, m := |up.rows.mult|, |up.cols.mult|;
    var src := if flip then CTransp(input, m) else input;
    if flip {
      TransposeRowsBelow(input, m);
      assert ColsBelow(src, n);
    }
    ScaledShape(src, Min(n, m) + 1, |sd.cols.mult|);
    assert Sized(st0);
    assert MapsInto(r.rowmap, |r.rowmap|, |r.a|) by {
      assert r.rowmap == sd.rows.index && |r.a| == |sd.rows.mult|;
    }
  }

  /**
   * The driver's promises in the caller's orientation: the association
   * keeps its dimensions; the cycle count stays within the budget (or is 0
   * when the budget is not positive); the time-out is flagged exactly when
   * the budget was reached; without a time-out the auction alone paired
   * min(Nf, Mf) rows; the greedy fill only adds pairs, never beyond
   * min(Nf, Mf).
   */
  lemma ForwardMeaning(input: seq<seq<Entry>>, up: ShapeState, st: AuctState, cfg: Settings)
    requires Accepted(input, up, st) && (cfg.epsrel ==> cfg.resolution != 0)
    ensures var o := Forward(input, up, st, cfg);
      && Sized(o.st) && NRows(o.st.pairs) == NRows(st.pairs) && NCols(o.st.pairs) == NCols(st.pairs)
      && 0 <= o.cycles && (o.cycles <= cfg.maxcycles || o.cycles == 0)
      && (o.timedOut <==> o.cycles >= cfg.maxcycles)
      && (!o.timedOut ==> o.nauction == Min(NRows(st.pairs), NCols(st.pairs)))
      && o.nauction <= o.st.pairs.nnz <= Min(NRows(st.pairs), NCols(st.pairs))
  {
    var flip := Flip(up);
    var st0, r := Oriented(st, flip), RunOf(input, up, cfg);
    ReadyAtStart(input, up, st, cfg);
    var eps := StartEps(cfg, Min(|up.rows.mult|, |up.cols.mult|));
    DriveMeaning(st0, r, EScale(up, cfg), eps, cfg.epsfac);
    var o := Drive(st0, r, EScale(up, cfg), eps, cfg.epsfac);
    TransposedStateInvolution(o.st);
  }

  /**
   * The verdicts auction_driver reads off the metric (isoptimal: nmax ==
   * nauction, isfeasible: nmax == ntotal): a rejected problem reports both;
   * an accepted run that did not time out is optimal and feasible, and any
   * optimal run is feasible.
   */
  lemma AuctionVerdicts(payOk: bool, input: seq<seq<Entry>>, sparsified: bool, up: ShapeState,
                        st: AuctState, cfg: Settings)
    requires Accepted(input, up, st) && (cfg.epsrel ==> cfg.resolution != 0)
    ensures var rep := AuctionOf(payOk, input, sparsified, up, st, cfg);
      && (!payOk ==> rep.nauction == rep.nmax && rep.ntotal == rep.nmax)
      && (!rep.timedOut ==> rep.nauction == rep.nmax && rep.ntotal == rep.nmax)
      && (rep.nauction == rep.nmax ==> rep.ntotal == rep.nmax)
  {
    AuctionMeaning(payOk, input, sparsified, up, st, cfg);
  }

  /**
   * The report of auctionF: a rejected problem leaves the association as it
   * was with the default metric; an accepted one reports min(Nf, Mf) as
   * the maximum, is optimal (nauction == nmax) whenever it did not time
   * out, is feasible at best (nauction <= ntotal <= nmax), spends at most
   * the cycle budget, and is reoriented exactly when Nf > Mf. A run that
   * did not time out leaves epsilon at 1 with epsilon scaling and at the
   * starting epsilon without; one that times out while scaling leaves the
   * last epsilon it set, between 1 and the starting one.
   */
  lemma AuctionMeaning(payOk: bool, input: seq<seq<Entry>>, sparsified: bool, up: ShapeState,
                       st: AuctState, cfg: Settings)
    requires Accepted(input, up, st) && (cfg.epsrel ==> cfg.resolution != 0)
    ensures var rep := AuctionOf(payOk, input, sparsified, up, st, cfg);
      var nf, mf := |up.rows.index|, |up.cols.index|;
      && (!payOk || nf == 0 || mf == 0 <==> rep == Untouched(st, cfg.epsilon))
      && (payOk && nf > 0 && mf > 0 ==>
            && Sized(rep.st) && NRows(rep.st.pairs) == nf && NCols(rep.st.pairs) == mf
            && rep.nmax == Min(nf, mf)
            && (!rep.timedOut ==> rep.nauction == rep.nmax)
            && rep.nauction <= rep.ntotal <= rep.nmax
            && (rep.timedOut <==> rep.ncycles >= cfg.maxcycles)
            && 0 <= rep.ncycles && (rep.ncycles <= cfg.maxcycles || rep.ncycles == 0)
            && (rep.reoriented <==> nf > mf)
            && var start := StartEps(cfg, Min(|up.rows.mult|, |up.cols.mult|));
            && (!rep.timedOut ==> rep.epsilon == (if EScale(up, cfg) then 1 else start))
            && (EScale(up, cfg) && 0 < cfg.maxcycles ==> 1 <= rep.epsilon <= start))
  {
    var nf, mf := |up.rows.index|, |up.cols.index|;
    if payOk && nf > 0 && mf > 0 {
      ForwardMeaning(input, up, st, cfg);
      DriveEpsMeaning(Oriented(st, Flip(up)), RunOf(input, up, cfg), EScale(up, cfg),
                      StartEps(cfg, Min(|up.rows.mult|, |up.cols.mult|)), cfg.epsfac, cfg.epsilon);
    }
  }

  /**
   * The pairs S holds when auctionF is called do not matter: S.blank()
   * clears them before every round, so only the dimensions, prices and
   * profits reach the result, and the same goes for the final epsilon.
   * The exception is escaling with maxcycles <= 0, which hands the given
   * pairs to greedy_fill.
   */
  lemma PairsDiscarded(input: seq<seq<Entry>>, up: ShapeState, st1: AuctState, st2: AuctState, cfg: Settings)
    requires cfg.epsrel ==> cfg.resolution != 0
    requires NRows(st1.pairs) == NRows(st2.pairs) && NCols(st1.pairs) == NCols(st2.pairs)
    requires st1.prices == st2.prices && st1.profits == st2.profits
    requires 0 < cfg.maxcycles || !EScale(up, cfg)
    ensures Forward(input, up, st1, cfg) == Forward(input, up, st2, cfg)
    ensures ForwardEps(input, up, st1, cfg) == ForwardEps(input, up, st2, cfg)
  {
    var o1, o2 := Oriented(st1, Flip(up)), Oriented(st2, Flip(up));
    assert Blanked(o1) == Blanked(o2);
    DriveIgnoresPairs(o1, o2, RunOf(input, up, cfg), EScale(up, cfg),
                      StartEps(cfg, Min(|up.rows.mult|, |up.cols.mult|)), cfg.epsfac, cfg.epsilon);
  }

  // ------------------------------------------------------------------
  // The driver on the objects
  // ------------------------------------------------------------------

  /** The association state, the metric and the epsilon as a report. */
  ghost function ReportOf(s: AuctAssoc, metric: AuctMetric, prms: AuctParm): Report
    reads s, s.assoc, s.assoc.rowassign, s.assoc.colassign, s.prices, s.profits, metric, prms`epsilon
  {
    Report(s.State(), metric.ncycles, metric.nauction, metric.ntotal, metric.nmax, metric.timedOut,
           metric.reoriented, FlagsOf(metric), prms.epsilon)
  }

  /** The metric's flags and payoff density. */
  function FlagsOf(metric: AuctMetric): Flags
    reads metric`paydensity, metric`sparsified, metric`rowmults, metric`colmults, metric`escaling
  {
    Flags(metric.paydensity, metric.sparsified, metric.rowmults, metric.colmults, metric.escaling)
  }

  /**
   * The bidding on the oriented S, from recording min(Nf, Mf) to the
   * orientation back.
   */
  method SolveBeside(r: Run, escale: bool, epsstart: int, epsfac: int, flip: bool,
                     s: AuctAssoc, prms: AuctParm, metric: AuctMetric)
    requires s.Valid() && Engine.Fits(r, s.assoc.nrows, s.assoc.ncols) && prms.maxint == r.maxint
    requires epsfac == prms.epsfac && (escale && epsstart > 1 ==> epsfac >= 2)
    requires !metric.timedOut
    modifies s`prices, s`profits, s.assoc`nrows, s.assoc`ncols, s.assoc`rowassign, s.assoc`colassign, s.assoc`nnz
    modifies s.prices, s.profits, s.assoc.rowassign, s.assoc.colassign, prms`epsilon
    modifies metric`ncycles, metric`nauction, metric`timedOut, metric`nmax, metric`ntotal
    ensures s.Valid()
    ensures Outcome(s.State(), metric.ncycles, metric.nauction, metric.timedOut)
         == Reported(Drive(old(s.State()), r, escale, epsstart, epsfac), flip)
    ensures metric.ntotal == s.State().pairs.nnz && metric.nmax == r.thresh
    ensures prms.epsilon == DriveEps(old(s.State()), r, escale, epsstart, epsfac, old(prms.epsilon))
  {
    metric.SetNMaxAssoc(r.thresh);
    Solve(r, flip, s, prms, metric, escale, epsstart, epsfac);
  }

  /**
   * The set-up of the bidding: orient S, build the internal payoff and the
   * run from the shape read in the bidding's orientation, and compute the
   * starting epsilon.
   */
  method Prepare(input: seq<seq<Entry>>, nf: int, mf: int,
                 sh: AuctShape, s: AuctAssoc, prms: AuctParm) returns (flip: bool, r: Run, epsstart: int)
    requires sh.rowmult.Length == sh.n && sh.colmult.Length == sh.m && s.Valid() && Accepted(input, sh.Model(), s.State())
    requires nf == |sh.rowmap| && mf == |sh.colmap|
    requires prms.epsrel ==> prms.resolution != 0
    modifies s`prices, s`profits, s.assoc`nrows, s.assoc`ncols, s.assoc`rowassign, s.assoc`colassign
    ensures s.Valid() && flip == Flip(old(sh.Model()))
    ensures s.State() == Oriented(old(s.State()), flip)
    ensures r == RunOf(input, old(sh.Model()), SettingsOf(prms))
    ensures epsstart == StartEps(SettingsOf(prms), Min(|old(sh.Model()).rows.mult|, |old(sh.Model()).cols.mult|))
    ensures Engine.Fits(r, s.assoc.nrows, s.assoc.ncols) && prms.maxint == r.maxint
    ensures r.thresh == Min(nf, mf)
    ensures s.prices == (if flip then old(s.profits) else old(s.prices))
    ensures s.profits == (if flip then old(s.prices) else old(s.profits))
    ensures s.assoc.rowassign == (if flip then old(s.assoc.colassign) else old(s.assoc.rowassign))
    ensures s.assoc.colassign == (if flip then old(s.assoc.rowassign) else old(s.assoc.colassign))
  {
    ghost var up, st, cfg := sh.Model(), s.State(), SettingsOf(prms);
    var n, m := sh.n, sh.m;
    flip := nf > mf;
    Orient(flip, s);
    ReadyAtStart(input, up, st, cfg);
    var rowptr, colptr, rowmap, colmap :=
      if flip then sh.colptr[..] else sh.rowptr[..], if flip then sh.rowptr[..] else sh.colptr[..],
      if flip then sh.colmap else sh.rowmap, if flip then sh.rowmap else sh.colmap;
    r := Run(Internal(input, n, m, flip), rowptr, colptr, rowmap, !(nf == n && mf == m),
             Min(nf, mf), prms.maxcycles, prms.maxint, |colmap|);
    assert r == RunOf(input, up, cfg);
    epsstart := StartEps(SettingsOf(prms), Min(n, m));
  }

  /**
   * The middle of auctionF: orient S, run the bidding, record the final
   * pair count and orient S back. The shape is read in the bidding's
   * orientation but its arrays are not swapped: Sh.transpose() is
   * modelled by reading the shape through Shape.Transposed.
   */
  method OrientedRun(input: seq<seq<Entry>>, nf: int, mf: int, escale: bool,
                     sh: AuctShape, s: AuctAssoc, prms: AuctParm, metric: AuctMetric)
    requires sh.rowmult.Length == sh.n && sh.colmult.Length == sh.m && s.Valid() && Accepted(input, sh.Model(), s.State())
    requires nf == |sh.rowmap| && mf == |sh.colmap|
    requires (prms.epsrel ==> prms.resolution != 0) && escale == EScale(sh.Model(), SettingsOf(prms))
    requires !metric.timedOut
    modifies s`prices, s`profits, s.assoc`nrows, s.assoc`ncols, s.assoc`rowassign, s.assoc`colassign, s.assoc`nnz
    modifies s.prices, s.profits, s.assoc.rowassign, s.assoc.colassign, prms`epsilon
    modifies metric`ncycles, metric`nauction, metric`timedOut, metric`nmax, metric`ntotal
    ensures s.Valid()
    ensures Outcome(s.State(), metric.ncycles, metric.nauction, metric.timedOut)
         == Forward(input, old(sh.Model()), old(s.State()), old(SettingsOf(prms)))
    ensures metric.ntotal == s.State().pairs.nnz && metric.nmax == Min(nf, mf)
    ensures prms.epsilon == ForwardEps(input, old(sh.Model()), old(s.State()), old(SettingsOf(prms)))
  {
    var flip, r, epsstart := Prepare(input, nf, mf, sh, s, prms);
    SolveBeside(r, escale, epsstart, prms.epsfac, flip, s, prms, metric);
  }

  /**
   * auctionF from the reorientation on, for an accepted problem: record
   * the reorientation and run the bidding in the better orientation.
   */
  method Bidding(input: seq<seq<Entry>>, nf: int, mf: int, escale: bool, ghost up: ShapeState, ghost st: AuctState, ghost cfg: Settings,
                 sh: AuctShape, s: AuctAssoc, prms: AuctParm, metric: AuctMetric)
    requires sh.rowmult.Length == sh.n && sh.colmult.Length == sh.m && s.Valid() && sh.Model() == up && s.State() == st && Accepted(input, up, st)
    requires nf == |sh.rowmap| && mf == |sh.colmap|
    requires SettingsOf(prms) == cfg && (cfg.epsrel ==> cfg.resolution != 0) && escale == EScale(up, cfg)
    requires !metric.timedOut
    modifies s`prices, s`profits, s.assoc`nrows, s.assoc`ncols, s.assoc`rowassign, s.assoc`colassign, s.assoc`nnz
    modifies s.prices, s.profits, s.assoc.rowassign, s.assoc.colassign, prms`epsilon
    modifies metric`ncycles, metric`nauction, metric`timedOut, metric`nmax, metric`ntotal, metric`reoriented
    ensures Outcome(s.State(), metric.ncycles, metric.nauction, metric.timedOut)
         == Forward(input, up, st, cfg)
    ensures metric.ntotal == s.State().pairs.nnz && metric.nmax == Min(nf, mf) && metric.reoriented == (nf > mf)
    ensures prms.epsilon == ForwardEps(input, up, st, cfg)
  {
    metric.SetReoriented(nf > mf);
    OrientedRun(input, nf, mf, escale, sh, s, prms, metric);
  }

  /** No array of the shape is an array of the association. */
  ghost predicate Apart(sh: AuctShape, s: AuctAssoc)
    reads sh, s, s.assoc
  {
    && Away(sh.rowmult, s) && Away(sh.colmult, s) && Away(sh.rowptr, s) && Away(sh.colptr, s)
  }

  /** The array is none of the association's. */
  ghost predicate Away(x: array<int>, s: AuctAssoc)
    reads s, s.assoc
  {
    x != s.prices && x != s.profits && x != s.assoc.rowassign && x != s.assoc.colassign
  }

  /**
   * The checks at the head of auctionF: nfullrows and nfullcols (which
   * bring the shape up to date), ifcompute, then is_consistent of the
   * payoff and, when that passes, of S.
   */
  method Screen(pay: AuctPay, sh: AuctShape, s: AuctAssoc) returns (ok: bool, nf: int, mf: int)
    requires sh.Valid() && s.Valid() && Apart(sh, s)
    requires sh.computeFlag == 2 ==> InRange(sh.rowmap, sh.n) && InRange(sh.colmap, sh.m)
    modifies sh`rowmap, sh`colmap, sh`computeFlag, sh.rowmult, sh.colmult, sh.rowptr, sh.colptr
    ensures sh.Valid() && sh.Model() == Current(old(sh.Model()))
    ensures s.Valid() && s.State() == old(s.State()) && Apart(sh, s)
    ensures nf == |sh.rowmap| && mf == |sh.colmap|
    ensures ok <==> old(pay.IsConsistent(sh)) && nf == s.assoc.nrows && mf == s.assoc.ncols
  {
    nf := sh.NFullRows();
    mf := sh.NFullCols();
    sh.IfComputeNow();
    ok := pay.IsConsistent(sh);
    if ok {
      ok := s.IsConsistent(sh);
    }
  }

  /** The metric's description of an accepted problem, set before the bidding. */
  method Describe(metric: AuctMetric, flags: Flags)
    modifies metric`rowmults, metric`colmults, metric`escaling, metric`paydensity, metric`sparsified
    ensures FlagsOf(metric) == flags
  {
    metric.SetRowMults(flags.rowmults);
    metric.SetColMults(flags.colmults);
    metric.SetEScaling(flags.escaling);
    metric.SetPayDensity(flags.paydensity);
    metric.SetSparsified(flags.sparsified);
  }

  /**
   * auctionF on a problem that passed the consistency checks: escaling off for a 1x1
   * payoff, the metric's flags and payoff density, then the bidding.
   */
  method Accept(input: seq<seq<Entry>>, nf: int, mf: int, sparsified: bool,
                ghost up: ShapeState, ghost st: AuctState, ghost cfg: Settings,
                sh: AuctShape, s: AuctAssoc, prms: AuctParm, metric: AuctMetric)
    requires sh.rowmult.Length == sh.n && sh.colmult.Length == sh.m && s.Valid() && sh.Model() == up && s.State() == st && SettingsOf(prms) == cfg
    requires up.flag == 0 && Accepted(input, up, st) && |up.cols.mult| != 0 && (cfg.epsrel ==> cfg.resolution != 0)
    requires nf == |up.rows.index| && mf == |up.cols.index| && nf > 0 && mf > 0
    requires metric.IsDefault()
    modifies s`prices, s`profits, s.assoc`nrows, s.assoc`ncols, s.assoc`rowassign, s.assoc`colassign, s.assoc`nnz
    modifies s.prices, s.profits, s.assoc.rowassign, s.assoc.colassign, prms`epsilon, metric
    ensures ReportOf(s, metric, prms) == Described(Forward(input, up, st, cfg), ForwardEps(input, up, st, cfg), up, sparsified, cfg)
  {
    SyncedSize(up.cols);
    var n, m, nnz := sh.n, sh.m, sh.nnz;
    var escale := prms.escale;
    if n == 1 && m == 1 {
      escale := false;
    }
    assert Quot(nnz, m) * n == Quot(up.nnz, |up.cols.mult|) * |up.rows.mult|;
    assert (nf != n) == (|up.rows.index| != |up.rows.mult|) && (mf != m) == (|up.cols.index| != |up.cols.mult|);
    var flags := Flags(Quot(nnz, m) * n, sparsified, nf != n, mf != m, escale);
    Describe(metric, flags);
    Bidding(input, nf, mf, escale, up, st, cfg, sh, s, prms, metric);
    assert ReportOf(s, metric, prms)
        == Described(Forward(input, up, st, cfg), ForwardEps(input, up, st, cfg), up, sparsified, cfg);
  }

  /**
   * auctionF(Pay, Sh, S, Parm): the consistency checks, a fresh metric, and for an
   * accepted problem its description and the bidding. The payoff rows
   * are read once, at the start.
   */
  method AuctionF(pay: AuctPay, sh: AuctShape, s: AuctAssoc, prms: AuctParm) returns (metric: AuctMetric)
    requires sh.Valid() && s.Valid() && Apart(sh, s)
    requires sh.computeFlag == 2 ==> InRange(sh.rowmap, sh.n) && InRange(sh.colmap, sh.m)
    requires pay.WellFormed(sh.m) && Readable(Current(sh.Model()))
    requires prms.epsrel ==> prms.resolution != 0
    modifies sh`rowmap, sh`colmap, sh`computeFlag, sh.rowmult, sh.colmult, sh.rowptr, sh.colptr
    modifies s`prices, s`profits, s.assoc`nrows, s.assoc`ncols, s.assoc`rowassign, s.assoc`colassign, s.assoc`nnz
    modifies s.prices, s.profits, s.assoc.rowassign, s.assoc.colassign, prms`epsilon
    ensures fresh(metric)
    ensures sh.Valid() && sh.Model() == Current(old(sh.Model()))
    ensures ReportOf(s, metric, prms)
         == AuctionOf(old(pay.IsConsistent(sh)), old(pay.Rows(sh.m)), old(pay.sparsified),
                      Current(old(sh.Model())), old(s.State()), old(SettingsOf(prms)))
  {
    var input := pay.Input(sh.m);
    ghost var before, st, cfg, payOk := sh.Model(), s.State(), SettingsOf(prms), pay.IsConsistent(sh);
    var sparsified := pay.sparsified;
    var ok, nf, mf := Screen(pay, sh, s);
    metric := Resume(input, ok, nf, mf, sparsified, payOk, before, st, cfg, sh, s, prms);
  }

  /** auction: the top-level entry, a pass-through to auctionF. */
  method Auction(pay: AuctPay, sh: AuctShape, s: AuctAssoc, prms: AuctParm) returns (metric: AuctMetric)
    requires sh.Valid() && s.Valid() && Apart(sh, s)
    requires sh.computeFlag == 2 ==> InRange(sh.rowmap, sh.n) && InRange(sh.colmap, sh.m)
    requires pay.WellFormed(sh.m) && Readable(Current(sh.Model()))
    requires prms.epsrel ==> prms.resolution != 0
    modifies sh`rowmap, sh`colmap, sh`computeFlag, sh.rowmult, sh.colmult, sh.rowptr, sh.colptr
    modifies s`prices, s`profits, s.assoc`nrows, s.assoc`ncols, s.assoc`rowassign, s.assoc`colassign, s.assoc`nnz
    modifies s.prices, s.profits, s.assoc.rowassign, s.assoc.colassign, prms`epsilon
    ensures fresh(metric)
    ensures sh.Valid() && sh.Model() == Current(old(sh.Model()))
    ensures ReportOf(s, metric, prms)
         == AuctionOf(old(pay.IsConsistent(sh)), old(pay.Rows(sh.m)), old(pay.sparsified),
                      Current(old(sh.Model())), old(s.State()), old(SettingsOf(prms)))
  {
    metric := AuctionF(pay, sh, s, prms);
  }

  /** The rest of auctionF, on the facts the consistency checks leave. */
  method Resume(input: seq<seq<Entry>>, ok: bool, nf: int, mf: int, sparsified: bool,
                ghost payOk: bool, ghost before: ShapeState, ghost st: AuctState, ghost cfg: Settings,
                sh: AuctShape, s: AuctAssoc, prms: AuctParm) returns (metric: AuctMetric)
    requires Computable(before) && Readable(Current(before)) && (cfg.epsrel ==> cfg.resolution != 0)
    requires sh.Valid() && sh.Model() == Current(before)
    requires s.Valid() && s.State() == st && Apart(sh, s) && SettingsOf(prms) == cfg
    requires nf == |sh.rowmap| && mf == |sh.colmap|
    requires ok <==> payOk && nf == s.assoc.nrows && mf == s.assoc.ncols
    requires (payOk ==> |input| == sh.n) && ColsBelow(input, sh.m)
    modifies s`prices, s`profits, s.assoc`nrows, s.assoc`ncols, s.assoc`rowassign, s.assoc`colassign, s.assoc`nnz
    modifies s.prices, s.profits, s.assoc.rowassign, s.assoc.colassign, prms`epsilon
    ensures fresh(metric) && sh.Valid() && sh.Model() == Current(before)
    ensures ReportOf(s, metric, prms) == AuctionOf(payOk, input, sparsified, Current(before), st, cfg)
  {
    metric := Decide(input, ok, nf, mf, sparsified, payOk, Current(before), st, cfg, sh, s, prms);
  }

  /** What the consistency checks at the start of auctionF establish, for the rest of it. */
  ghost predicate Screened(input: seq<seq<Entry>>, ok: bool, nf: int, mf: int, payOk: bool,
                           up: ShapeState, st: AuctState, cfg: Settings,
                           sh: AuctShape, s: AuctAssoc, prms: AuctParm)
    reads sh, sh.rowmult, sh.colmult, sh.rowptr, sh.colptr, s, s.assoc, s.assoc.rowassign, s.assoc.colassign
    reads s.prices, s.profits, prms
  {
    && sh.rowmult.Length == sh.n && sh.colmult.Length == sh.m && s.Valid() && sh.Model() == up && s.State() == st
    && SettingsOf(prms) == cfg && up.flag == 0 && Synced(up.rows) && Synced(up.cols) && Readable(up)
    && (payOk ==> |input| == |up.rows.mult|) && ColsBelow(input, |up.cols.mult|) && (cfg.epsrel ==> cfg.resolution != 0)
    && nf == |up.rows.index| && mf == |up.cols.index|
    && (ok <==> payOk && nf == NRows(st.pairs) && mf == NCols(st.pairs))
  }

  /** auctionF after the consistency checks: leave S and the metric alone when rejected, otherwise go ahead. */
  method Decide(input: seq<seq<Entry>>, ok: bool, nf: int, mf: int, sparsified: bool,
                ghost payOk: bool, ghost up: ShapeState, ghost st: AuctState, ghost cfg: Settings,
                sh: AuctShape, s: AuctAssoc, prms: AuctParm) returns (metric: AuctMetric)
    requires Screened(input, ok, nf, mf, payOk, up, st, cfg, sh, s, prms)
    modifies s`prices, s`profits, s.assoc`nrows, s.assoc`ncols, s.assoc`rowassign, s.assoc`colassign, s.assoc`nnz
    modifies s.prices, s.profits, s.assoc.rowassign, s.assoc.colassign, prms`epsilon
    ensures fresh(metric)
    ensures ReportOf(s, metric, prms) == AuctionOf(payOk, input, sparsified, up, st, cfg)
  {
    s.ValidSized();
    metric := new AuctMetric();
    if !ok || nf == 0 || mf == 0 {
      return;
    }
    SyncedSize(up.cols);
    Accept(input, nf, mf, sparsified, up, st, cfg, sh, s, prms, metric);
  }
}
