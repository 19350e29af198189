/**
 * The run parameters of an auction (AuctParm.h): cycle budget, bidding
 * increment, epsilon-scaling settings, the don't-care value of dense
 * payoffs and the largest payoff magnitude. The resolution and the
 * starting epsilon are doubles in the source; here they are integers.
 */
module Params {

  class AuctParm {
    var maxcycles: int
    var epsilon: int
    var dontcare: int
    var maxint: int
    var resolution: int
    var epsstart: int
    var escale: bool
    var debug: bool
    var messg: bool
    var epsrel: bool
    var epsfac: int

    /** AuctParm(): the default parameters. */
    constructor ()
      ensures maxcycles == 1000 && epsilon == 1 && resolution == 1 && maxint == 1000000000
      ensures epsstart == 5 && epsfac == 5 && dontcare == 0
      ensures escale && epsrel && !messg && !debug
    {
      maxcycles := 1000;
      epsilon := 1;
      resolution := 1;
      maxint := 1000000000;
      epsstart := 5;
      epsfac := 5;
      dontcare := 0;
      escale, epsrel := true, true;
      messg, debug := false, false;
    }

    method SetMaxCycles(n: int)
      modifies this`maxcycles
      ensures maxcycles == n
    {
      maxcycles := n;
    }

    method SetEpsilon(n: int)
      modifies this`epsilon
      ensures epsilon == n
    {
      epsilon := n;
    }

    method SetEpsStart(x: int)
      modifies this`epsstart
      ensures epsstart == x
    {
      epsstart := x;
    }

    method SetEpsFac(n: int)
      modifies this`epsfac
      ensures epsfac == n
    {
      epsfac := n;
    }

    method SetRes(x: int)
      modifies this`resolution
      ensures resolution == x
    {
      resolution := x;
    }

    method SetDontCare(x: int)
      modifies this`dontcare
      ensures dontcare == x
    {
      dontcare := x;
    }

    method SetMaxInt(n: int)
      modifies this`maxint
      ensures maxint == n
    {
      maxint := n;
    }

    method SetMessg(flag: bool)
      modifies this`messg
      ensures messg == flag
    {
      messg := flag;
    }

    method SetDebug(flag: bool)
      modifies this`debug
      ensures debug == flag
    {
      debug := flag;
    }

    /**
     * set_EScale: switching scaling off also makes epsilon absolute and
     * the starting epsilon 1; switching it on touches nothing else.
     */
    method SetEScale(flag: bool)
      modifies this`escale, this`epsrel, this`epsstart
      ensures escale == flag
      ensures epsrel == (if flag then old(epsrel) else false)
      ensures epsstart == (if flag then old(epsstart) else 1)
    {
      escale := flag;
      if !flag {
        epsrel := false;
        epsstart := 1;
      }
    }

    /** set_epsrelative: independent of the scaling flag. */
    method SetEpsRelative(flag: bool)
      modifies this`epsrel
      ensures epsrel == flag
    {
      epsrel := flag;
    }
  }
}
