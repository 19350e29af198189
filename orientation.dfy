/**
 * The reorientation of auctionF (AuctAlg.cpp): when the problem has more
 * full rows than full columns, the association S is transposed (its
 * transpose swaps the two assignment arrays, and prices with profits)
 * before the bidding and transposed back after it, so that the bidding
 * always runs on the side with fewer full rows.
 */
module Orientation {
  import opened Assoc
  import opened PriceModel
  import opened Shape
  import opened Pricing

  /** The association in the orientation the bidding uses. */
  function Oriented(st: AuctState, flip: bool): AuctState
  {
    if flip then TransposedState(st) else st
  }

  /** The transpose of S when the problem is reoriented; nothing otherwise. */
  method Orient(flip: bool, s: AuctAssoc)
    requires s.Valid()
    modifies s`prices, s`profits, s.assoc`nrows, s.assoc`ncols, s.assoc`rowassign, s.assoc`colassign
    ensures s.Valid()
    ensures s.State() == Oriented(old(s.State()), flip)
    ensures s.prices == (if flip then old(s.profits) else old(s.prices))
    ensures s.profits == (if flip then old(s.prices) else old(s.profits))
    ensures s.assoc.rowassign == (if flip then old(s.assoc.colassign) else old(s.assoc.rowassign))
    ensures s.assoc.colassign == (if flip then old(s.assoc.rowassign) else old(s.assoc.colassign))
  {
    if flip {
      s.Transpose();
    }
  }
}
