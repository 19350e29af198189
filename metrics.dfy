/**
 * The outcome record of an auction run (AuctMetric.h): cycle count,
 * association counts and flags, with the derived optimality and
 * feasibility tests. The setters are private to the auction driver in
 * the source; here they are plain methods the driver calls.
 */
module Metrics {

  class AuctMetric {
    var ncycles: int
    var nauction: int
    var ntotal: int
    var nmax: int
    /** The payoff density; a double in the source, computed with integer arithmetic there. */
    var paydensity: int
    var timedOut: bool
    var reoriented: bool
    var sparsified: bool
    var rowmults: bool
    var colmults: bool
    var escaling: bool

    /** The record describes a run that did nothing: no counts, no flags. */
    ghost predicate IsDefault()
      reads this
    {
      && ncycles == 0 && nauction == 0 && ntotal == 0 && nmax == 0 && paydensity == 0
      && !timedOut && !reoriented && !sparsified && !rowmults && !colmults && !escaling
    }

    /**
     * isoptimal: the auction alone reached the largest conceivable number of
     * associations; with the counts in the order a run leaves them, an
     * optimal result is also feasible.
     */
    predicate IsOptimal(): (r: bool)
      reads this
      ensures r <==> nauction == nmax
      ensures r && nauction <= ntotal <= nmax ==> IsFeasible()
    {
      nmax == nauction
    }

    /** isfeasible: auction and greedy fill together reached the largest conceivable number. */
    predicate IsFeasible(): (r: bool)
      reads this
      ensures r <==> ntotal == nmax
    {
      nmax == ntotal
    }

    /** AuctMetric(): all counts 0 and all flags false, so a rejected run reports optimal and feasible. */
    constructor ()
      ensures IsDefault()
      ensures IsOptimal() && IsFeasible()
    {
      ncycles, nauction, ntotal, nmax, paydensity := 0, 0, 0, 0, 0;
      timedOut, reoriented, sparsified, rowmults, colmults, escaling := false, false, false, false, false, false;
    }

    method SetNCycles(v: int)
      modifies this`ncycles
      ensures ncycles == v
    {
      ncycles := v;
    }

    method SetNAuctionAssoc(v: int)
      modifies this`nauction
      ensures nauction == v
    {
      nauction := v;
    }

    method SetNTotalAssoc(v: int)
      modifies this`ntotal
      ensures ntotal == v
    {
      ntotal := v;
    }

    method SetNMaxAssoc(v: int)
      modifies this`nmax
      ensures nmax == v
    {
      nmax := v;
    }

    method SetPayDensity(v: int)
      modifies this`paydensity
      ensures paydensity == v
    {
      paydensity := v;
    }

    method SetTimedOut(flag: bool)
      modifies this`timedOut
      ensures timedOut == flag
    {
      timedOut := flag;
    }

    method SetReoriented(flag: bool)
      modifies this`reoriented
      ensures reoriented == flag
    {
      reoriented := flag;
    }

    method SetSparsified(flag: bool)
      modifies this`sparsified
      ensures sparsified == flag
    {
      sparsified := flag;
    }

    method SetRowMults(flag: bool)
      modifies this`rowmults
      ensures rowmults == flag
    {
      rowmults := flag;
    }

    method SetColMults(flag: bool)
      modifies this`colmults
      ensures colmults == flag
    {
      colmults := flag;
    }

    method SetEScaling(flag: bool)
      modifies this`escaling
      ensures escaling == flag
    {
      escaling := flag;
    }
  }
}
