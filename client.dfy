/** The client state: the published ladder of `PriceDetails` objects, the
    published last traded price, and the stored update whose observer
    rebuilds both. */
module Client {
  import opened Depth
  import opened Ladder

  /** One row of the ladder. The rebuild mutates its quantities and flag in
      place through references. */
  class PriceDetails {
    const price: int
    var bidQuantity: real
    var askQuantity: real
    var isLastTrade: bool

    constructor (price: int, bidQuantity: real := 0.0, askQuantity: real := 0.0)
      ensures Snapshot() == Row(price, bidQuantity, askQuantity, false)
    {
      this.price := price;
      this.bidQuantity := bidQuantity;
      this.askQuantity := askQuantity;
      isLastTrade := false;
    }

    /** The row's identity in the list view is its price. */
    function Id(): int
    {
      price
    }

    function Snapshot(): Row
      reads this
    {
      Row(price, bidQuantity, askQuantity, isLastTrade)
    }

    predicate BidExists()
      reads this
    {
      Snapshot().BidExists()
    }

    predicate AskExists()
      reads this
    {
      Snapshot().AskExists()
    }
  }

  function Prices(rows: seq<PriceDetails>): seq<int>
  {
    seq(|rows|, i requires 0 <= i < |rows| => rows[i].price)
  }

  /** The values the rows hold right now. */
  ghost function View(rows: seq<PriceDetails>): seq<Row>
    reads rows
  {
    seq(|rows|, i reads rows requires 0 <= i < |rows| => rows[i].Snapshot())
  }

  /** No row object appears twice. */
  ghost predicate Distinct(rows: seq<PriceDetails>)
  {
    forall i, j :: 0 <= i < j < |rows| ==> rows[i] != rows[j]
  }

  /** The first row at `price`, or a fresh throwaway row at price 0 that is
      not in `rows`, so that writing to it changes nothing visible. */
  method ForPrice(rows: seq<PriceDetails>, price: int) returns (d: PriceDetails)
    ensures match FirstIndex(Prices(rows), price)
      case Some(i) => d == rows[i]
      case None => fresh(d) && d !in rows && d.Snapshot() == Row(0, 0.0, 0.0, false)
  {
    match FirstIndex(Prices(rows), price)
    case Some(i) =>
      d := rows[i];
    case None =>
      d := new PriceDetails(0);
  }

  /** Appends one fresh, empty row per price from p - 100 up to p + 99. */
  method NewWindow(p: int) returns (rows: seq<PriceDetails>)
    ensures forall i :: 0 <= i < |rows| ==> fresh(rows[i])
    ensures Distinct(rows)
    ensures View(rows) == Window(p)
  {
    rows := [];
    for x := p - HalfWidth to p + HalfWidth
      invariant |rows| == x - (p - HalfWidth)
      invariant forall i :: 0 <= i < |rows| ==> fresh(rows[i])
      invariant Distinct(rows)
      invariant View(rows) == Window(p)[..|rows|]
    {
      var d := new PriceDetails(x);
      rows := rows + [d];
    }
  }

  /** Writes side `s` of one level into the row it quotes, looked up with
      `ForPrice`, when the quoted price is positive; a miss writes into the
      throwaway row. */
  method WriteSide(rows: seq<PriceDetails>, lv: DepthLevel, s: Side)
    requires Distinct(rows)
    modifies rows
    ensures View(rows) == ApplySide(old(View(rows)), lv, s)
  {
    ghost var before := View(rows);
    assert RowPrices(before) == Prices(rows);
    var price := BestPrice(lv, s);
    if price > 0 {
      var d := ForPrice(rows, price);
      match s {
        case Ask => d.askQuantity := lv.AskQuantity;
        case Bid => d.bidQuantity := lv.BidQuantity;
      }
      match FirstIndex(Prices(rows), price)
      case Some(k) =>
        forall j | 0 <= j < |rows|
          ensures View(rows)[j] == before[k := before[k].WithQty(s, Quantity(lv, s))][j]
        {
          assert j != k ==> rows[j] != rows[k];
        }
      case None =>
    }
  }

  /** Writes every level, ask side then bid side, visiting the keys of `m`
      in the dictionary's iteration order `order`. */
  method ApplyLevelsInPlace(rows: seq<PriceDetails>, m: map<int, DepthLevel>, order: seq<int>)
    requires Distinct(rows)
    requires forall i :: 0 <= i < |order| ==> order[i] in m
    modifies rows
    ensures View(rows) == ApplyLevels(old(View(rows)), Entries(m, order))
  {
    ghost var start := View(rows);
    ghost var es := Entries(m, order);
    for i := 0 to |order|
      invariant View(rows) == ApplyLevels(start, es[..i])
    {
      var val := m[order[i]];
      WriteSide(rows, val, Ask);
      WriteSide(rows, val, Bid);
      assert es[..i + 1][..i] == es[..i];
    }
    assert es[..|order|] == es;
  }

  /** Flags the row that `ForPrice` finds at price `p`; a miss flags the
      throwaway row. */
  method MarkLastTradeInPlace(rows: seq<PriceDetails>, p: int)
    requires Distinct(rows)
    modifies rows
    ensures View(rows) == MarkLastTrade(old(View(rows)), p)
  {
    ghost var before := View(rows);
    assert RowPrices(before) == Prices(rows);
    var d := ForPrice(rows, p);
    d.isLastTrade := true;
    match FirstIndex(Prices(rows), p)
    case Some(k) =>
      forall j | 0 <= j < |rows|
        ensures View(rows)[j] == before[k := before[k].(isLastTrade := true)][j]
      {
        assert j != k ==> rows[j] != rows[k];
      }
    case None =>
  }

  class SocketClient {
    /** The published ladder, highest price first. */
    var prices: seq<PriceDetails>
    /** The published last traded price. */
    var lastTradedPrice: int
    /** The last update received. */
    var levels: DepthLevels
    /** The values published through `lastTradedPrice`, one per change
        notification, oldest first. */
    ghost var lastTradedPriceChanges: seq<int>

    /** The state before any update: no rows, price 0, an empty update.
        Socket setup is not part of this model. */
    constructor ()
      ensures prices == [] && lastTradedPrice == 0 && levels == EmptyLevels
      ensures lastTradedPriceChanges == []
    {
      prices := [];
      lastTradedPrice := 0;
      levels := EmptyLevels;
      lastTradedPriceChanges := [];
    }

    /** `levels = u`, with its observer. `order` is the order in which the
        dictionary `u.Levels` iterates. The new ladder depends on `u` and
        that order alone; the published price changes only when it differs. */
    method SetLevels(u: DepthLevels, order: seq<int>)
      requires Enumerates(order, u.Levels)
      modifies this
      ensures levels == u
      ensures lastTradedPrice == u.LastTradedPrice
      ensures lastTradedPriceChanges == old(lastTradedPriceChanges)
        + (if u.LastTradedPrice != old(lastTradedPrice) then [u.LastTradedPrice] else [])
      ensures View(prices) == Rebuild(u, order)
      ensures forall i :: 0 <= i < |prices| ==> fresh(prices[i])
    {
      levels := u;
      var price := levels.LastTradedPrice;
      if price != lastTradedPrice {
        lastTradedPrice := price;
        lastTradedPriceChanges := lastTradedPriceChanges + [price];
      }
      var depthPrices := NewWindow(price);
      ApplyLevelsInPlace(depthPrices, levels.Levels, order);
      MarkLastTradeInPlace(depthPrices, levels.LastTradedPrice);
      prices := Reversed(depthPrices);
      assert View(prices) == Reversed(View(depthPrices));
    }
  }

  /** Assigning the same update twice leaves the same ladder as assigning it
      once, and the second assignment publishes no price change. */
  method ReassignSameUpdate(client: SocketClient, u: DepthLevels, order: seq<int>)
    requires Enumerates(order, u.Levels)
    modifies client
    ensures View(client.prices) == Rebuild(u, order)
    ensures client.lastTradedPriceChanges == old(client.lastTradedPriceChanges)
      + (if u.LastTradedPrice != old(client.lastTradedPrice) then [u.LastTradedPrice] else [])
  {
    client.SetLevels(u, order);
    ghost var once := View(client.prices);
    ghost var changes := client.lastTradedPriceChanges;
    client.SetLevels(u, order);
    assert View(client.prices) == once;
    assert client.lastTradedPriceChanges == changes;
  }
}
