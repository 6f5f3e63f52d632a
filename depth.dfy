/** The decoded shape of one depth update, as the socket delivers it.
    Field names follow the JSON keys the records are decoded from. */
module Depth {

  datatype Option<T> = None | Some(value: T)

  /** One entry of the sparse level map: the best bid and best ask quoted
      there. A price of 0 (or below) means that side has no level. The
      quantities are single-precision floats in the application; here they
      are reals, since they are only copied and compared with zero. */
  datatype DepthLevel = DepthLevel(BestBid: int, BidQuantity: real, BestAsk: int, AskQuantity: real)

  /** One depth update: the level map keyed by price, an optional command
      string that nothing reads, and the last trade. */
  datatype DepthLevels = DepthLevels(
    Levels: map<int, DepthLevel>,
    Command: Option<string>,
    LastTradedPrice: int,
    LastTradedQuantity: real)

  /** The value the client starts with, before any update arrives. */
  const EmptyLevels: DepthLevels := DepthLevels(map[], None, 0, 0.0)

  /** `order` is one iteration order of the dictionary `m`: it lists every
      key of `m` exactly once and nothing else. */
  predicate Enumerates(order: seq<int>, m: map<int, DepthLevel>)
  {
    && (forall i :: 0 <= i < |order| ==> order[i] in m)
    && (forall key :: key in m ==> key in order)
    && (forall i, j :: 0 <= i < j < |order| ==> order[i] != order[j])
  }

  /** The levels of `m` in the iteration order `order`. */
  function Entries(m: map<int, DepthLevel>, order: seq<int>): (es: seq<DepthLevel>)
    requires forall i :: 0 <= i < |order| ==> order[i] in m
  {
    seq(|order|, i requires 0 <= i < |order| => m[order[i]])
  }
}
