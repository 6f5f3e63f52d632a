/** The ladder that one depth update produces, stated on values.

    Rebuilding the ladder (the observer on `SocketClient.levels`) lays out
    one fresh row per price in [p - 100, p + 100) around the last traded
    price p, copies each level's ask and bid quantity into the row at that
    level's price (a price outside the window is dropped), flags the row at
    p, and reverses the window so that the highest price comes first.
    `Rebuild` is that computation on values; the lemmas below say what the
    result is without reference to how it is computed. */
module Ladder {
  import opened Depth

  /** Rows below the last traded price; as many rows (p included) lie above. */
  const HalfWidth: int := 100
  /** Rows in every ladder. */
  const Width: int := 2 * HalfWidth

  /** The two sides of the book; the rebuild treats them alike. */
  datatype Side = Ask | Bid

  function BestPrice(lv: DepthLevel, s: Side): int
  {
    match s
    case Ask => lv.BestAsk
    case Bid => lv.BestBid
  }

  function Quantity(lv: DepthLevel, s: Side): real
  {
    match s
    case Ask => lv.AskQuantity
    case Bid => lv.BidQuantity
  }

  /** The level quotes a real price `price` on side `s`. */
  predicate Hits(lv: DepthLevel, s: Side, price: int)
  {
    BestPrice(lv, s) > 0 && BestPrice(lv, s) == price
  }

  /** The value of one `PriceDetails` row. */
  datatype Row = Row(price: int, bidQuantity: real, askQuantity: real, isLastTrade: bool)
  {
    predicate BidExists() { bidQuantity > 0.0 }

    predicate AskExists() { askQuantity > 0.0 }

    function Qty(s: Side): real
    {
      match s
      case Ask => askQuantity
      case Bid => bidQuantity
    }

    function WithQty(s: Side, q: real): Row
    {
      match s
      case Ask => this.(askQuantity := q)
      case Bid => this.(bidQuantity := q)
    }
  }

  function RowPrices(rows: seq<Row>): seq<int>
  {
    seq(|rows|, i requires 0 <= i < |rows| => rows[i].price)
  }

  /** The position of the first occurrence of `x`, as Swift's
      `first(where:)` finds it, or None. */
  function FirstIndex(prices: seq<int>, x: int): (r: Option<nat>)
    ensures r.Some? ==> r.value < |prices| && prices[r.value] == x
    ensures r.Some? ==> forall j :: 0 <= j < r.value ==> prices[j] != x
    ensures r.None? ==> forall j :: 0 <= j < |prices| ==> prices[j] != x
  {
    if prices == [] then None
    else if prices[0] == x then Some(0)
    else match FirstIndex(prices[1..], x)
      case None => None
      case Some(i) => Some(i + 1)
  }

  /** `rows` is a window around `p`: Width rows, ascending by one from p - HalfWidth. */
  ghost predicate IsWindow(rows: seq<Row>, p: int)
  {
    |rows| == Width && forall i :: 0 <= i < |rows| ==> rows[i].price == p - HalfWidth + i
  }

  /** The freshly built rows: no quantities, no flag. */
  function Window(p: int): seq<Row>
  {
    seq(Width, i requires 0 <= i < Width => Row(p - HalfWidth + i, 0.0, 0.0, false))
  }

  /** Sets side `s` of the first row at `price` to `q`; when no row has
      that price the write is lost and `rows` stays as it was. */
  function SetQuantity(rows: seq<Row>, price: int, s: Side, q: real): seq<Row>
  {
    match FirstIndex(RowPrices(rows), price)
    case Some(i) => rows[i := rows[i].WithQty(s, q)]
    case None => rows
  }

  /** One side of one level: only a positive price is looked up. */
  function ApplySide(rows: seq<Row>, lv: DepthLevel, s: Side): seq<Row>
  {
    if BestPrice(lv, s) > 0 then SetQuantity(rows, BestPrice(lv, s), s, Quantity(lv, s)) else rows
  }

  /** One level: the ask side first, then the bid side. */
  function ApplyLevel(rows: seq<Row>, lv: DepthLevel): seq<Row>
  {
    ApplySide(ApplySide(rows, lv, Ask), lv, Bid)
  }

  /** The levels in iteration order; the last one is applied last. Applying
      levels never moves a row and never touches a flag. */
  function ApplyLevels(rows: seq<Row>, es: seq<DepthLevel>): (r: seq<Row>)
    ensures |r| == |rows|
    ensures forall i :: 0 <= i < |rows| ==> r[i].price == rows[i].price && r[i].isLastTrade == rows[i].isLastTrade
    decreases |es|
  {
    if es == [] then rows
    else ApplyLevel(ApplyLevels(rows, es[..|es| - 1]), es[|es| - 1])
  }

  /** Flags the first row at price `p` as the last trade; when no row has
      that price nothing is flagged. */
  function MarkLastTrade(rows: seq<Row>, p: int): seq<Row>
  {
    match FirstIndex(RowPrices(rows), p)
    case Some(i) => rows[i := rows[i].(isLastTrade := true)]
    case None => rows
  }

  function Reversed<T>(s: seq<T>): seq<T>
  {
    seq(|s|, i requires 0 <= i < |s| => s[|s| - 1 - i])
  }

  /** The published ladder for update `u` when its level map is iterated in `order`. */
  function Rebuild(u: DepthLevels, order: seq<int>): seq<Row>
    requires Enumerates(order, u.Levels)
  {
    var p := u.LastTradedPrice;
    Reversed(MarkLastTrade(ApplyLevels(Window(p), Entries(u.Levels, order)), p))
  }

  /** Reference definition: the position of the last level, in iteration
      order, that quotes `price` on side `s`. */
  function LastHit(es: seq<DepthLevel>, s: Side, price: int): (r: Option<nat>)
    ensures r.Some? ==> r.value < |es| && Hits(es[r.value], s, price)
    ensures r.Some? ==> forall j :: r.value < j < |es| ==> !Hits(es[j], s, price)
    ensures r.None? ==> forall j :: 0 <= j < |es| ==> !Hits(es[j], s, price)
    decreases |es|
  {
    if es == [] then None
    else if Hits(es[|es| - 1], s, price) then Some(|es| - 1)
    else LastHit(es[..|es| - 1], s, price)
  }

  /** Reference definition: the quantity the last level quoting `price` on
      side `s` carries, or 0 when no level quotes it. */
  function LastQuote(es: seq<DepthLevel>, s: Side, price: int): real
  {
    match LastHit(es, s, price)
    case None => 0.0
    case Some(j) => Quantity(es[j], s)
  }

  /** No two levels of `m` quote the same real price on side `s`. */
  ghost predicate UniqueQuotes(m: map<int, DepthLevel>, s: Side)
  {
    forall k1, k2 :: k1 in m && k2 in m && Hits(m[k1], s, BestPrice(m[k2], s)) ==> k1 == k2
  }

  /** A side quote that lies outside the window of `p`, or is no quote at all. */
  predicate Outside(lv: DepthLevel, s: Side, p: int)
  {
    BestPrice(lv, s) <= 0 || BestPrice(lv, s) < p - HalfWidth || p + HalfWidth <= BestPrice(lv, s)
  }

  // ---------------------------------------------------------------------
  // Lookup in a window

  /** In a window, `forPrice` finds exactly the prices of the window, at
      offset price - (p - HalfWidth); every other price is a miss. */
  lemma FirstIndexInWindow(rows: seq<Row>, p: int, x: int)
    requires IsWindow(rows, p)
    ensures p - HalfWidth <= x < p + HalfWidth ==> FirstIndex(RowPrices(rows), x) == Some(x - (p - HalfWidth))
    ensures !(p - HalfWidth <= x < p + HalfWidth) ==> FirstIndex(RowPrices(rows), x) == None
  {
    if p - HalfWidth <= x < p + HalfWidth {
      assert RowPrices(rows)[x - (p - HalfWidth)] == x;
    }
  }

  /** Writing one side of one level into a window changes at most the
      matching quantity of the row at that level's price. */
  lemma ApplySideAt(rows: seq<Row>, p: int, lv: DepthLevel, s: Side, t: Side, i: int)
    requires IsWindow(rows, p) && 0 <= i < |rows|
    ensures IsWindow(ApplySide(rows, lv, s), p)
    ensures ApplySide(rows, lv, s)[i].isLastTrade == rows[i].isLastTrade
    ensures ApplySide(rows, lv, s)[i].Qty(t) ==
      if t == s && Hits(lv, s, rows[i].price) then Quantity(lv, s) else rows[i].Qty(t)
  {
    if BestPrice(lv, s) > 0 {
      FirstIndexInWindow(rows, p, BestPrice(lv, s));
    }
  }

  /** A level both of whose quotes miss the window leaves every row as it was. */
  lemma ApplyLevelOutside(rows: seq<Row>, p: int, lv: DepthLevel)
    requires IsWindow(rows, p)
    requires Outside(lv, Ask, p) && Outside(lv, Bid, p)
    ensures ApplyLevel(rows, lv) == rows
  {
  }

  /** After applying levels to a window, each row's quantity on a side is the
      last quote of that row's price on that side, or the row's own
      quantity when nothing quotes it. */
  lemma {:induction false} ApplyLevelsAt(rows: seq<Row>, p: int, es: seq<DepthLevel>, s: Side, i: int)
    requires IsWindow(rows, p) && 0 <= i < |rows|
    ensures ApplyLevels(rows, es)[i].Qty(s) ==
      match LastHit(es, s, rows[i].price)
      case None => rows[i].Qty(s)
      case Some(j) => Quantity(es[j], s)
    decreases |es|
  {
    if es != [] {
      var n := |es| - 1;
      var a := ApplyLevels(rows, es[..n]);
      ApplyLevelsAt(rows, p, es[..n], s, i);
      assert IsWindow(a, p);
      ApplySideAt(a, p, es[n], Ask, s, i);
      ApplySideAt(ApplySide(a, es[n], Ask), p, es[n], Bid, s, i);
    }
  }

  /** A level that does not quote `price` does not affect the last quote of it. */
  lemma {:induction false} LastQuoteWithout(es: seq<DepthLevel>, m: int, s: Side, price: int)
    requires 0 <= m < |es| && !Hits(es[m], s, price)
    ensures LastQuote(es[..m] + es[m + 1..], s, price) == LastQuote(es, s, price)
    decreases |es|
  {
    var rest := es[..m] + es[m + 1..];
    var n := |es| - 1;
    if m == n {
      assert rest == es[..n];
    } else {
      assert rest[..|rest| - 1] == es[..n][..m] + es[..n][m + 1..];
      assert rest[|rest| - 1] == es[n];
      if !Hits(es[n], s, price) {
        LastQuoteWithout(es[..n], m, s, price);
      }
    }
  }

  // ---------------------------------------------------------------------
  // What the published ladder is

  /** The ladder has Width rows, descending by one from p + 99 to p - 100. */
  lemma RebuildShape(u: DepthLevels, order: seq<int>)
    requires Enumerates(order, u.Levels)
    ensures |Rebuild(u, order)| == Width
    ensures forall k :: 0 <= k < Width ==> Rebuild(u, order)[k].price == u.LastTradedPrice + HalfWidth - 1 - k
    ensures Rebuild(u, order)[0].price == u.LastTradedPrice + HalfWidth - 1
    ensures Rebuild(u, order)[Width - 1].price == u.LastTradedPrice - HalfWidth
    ensures forall k :: 0 < k < Width ==> Rebuild(u, order)[k].price == Rebuild(u, order)[k - 1].price - 1
  {
  }

  /** Exactly one row carries the last-trade flag: the row at the last traded price. */
  lemma RebuildLastTrade(u: DepthLevels, order: seq<int>)
    requires Enumerates(order, u.Levels)
    ensures |Rebuild(u, order)| == Width
    ensures forall k :: 0 <= k < Width ==> (Rebuild(u, order)[k].isLastTrade <==> k == HalfWidth - 1)
    ensures forall k :: 0 <= k < Width ==> (Rebuild(u, order)[k].isLastTrade <==> Rebuild(u, order)[k].price == u.LastTradedPrice)
  {
    var p := u.LastTradedPrice;
    var a := ApplyLevels(Window(p), Entries(u.Levels, order));
    assert IsWindow(a, p);
    FirstIndexInWindow(a, p, p);
    RebuildShape(u, order);
  }

  /** Each row's quantity on a side is that of the last level, in iteration
      order, quoting the row's price on that side; 0 when none does. */
  lemma RebuildQuantity(u: DepthLevels, order: seq<int>, k: int, s: Side)
    requires Enumerates(order, u.Levels) && 0 <= k < Width
    ensures |Rebuild(u, order)| == Width
    ensures Rebuild(u, order)[k].price == u.LastTradedPrice + HalfWidth - 1 - k
    ensures Rebuild(u, order)[k].Qty(s) == LastQuote(Entries(u.Levels, order), s, Rebuild(u, order)[k].price)
  {
    var p := u.LastTradedPrice;
    var es := Entries(u.Levels, order);
    var i := Width - 1 - k;
    ApplyLevelsAt(Window(p), p, es, s, i);
    RebuildShape(u, order);
  }

  /** Stated on the level map: a row has no quantity on a side unless some
      level quotes its price there, and then it has the quantity of one of
      those levels. */
  lemma RebuildQuantityFromLevels(u: DepthLevels, order: seq<int>, k: int, s: Side)
    requires Enumerates(order, u.Levels) && 0 <= k < Width
    ensures |Rebuild(u, order)| == Width
    ensures (forall key :: key in u.Levels ==> !Hits(u.Levels[key], s, Rebuild(u, order)[k].price))
      ==> Rebuild(u, order)[k].Qty(s) == 0.0
    ensures (exists key :: key in u.Levels && Hits(u.Levels[key], s, Rebuild(u, order)[k].price))
      ==> exists key :: key in u.Levels && Hits(u.Levels[key], s, Rebuild(u, order)[k].price)
                        && Rebuild(u, order)[k].Qty(s) == Quantity(u.Levels[key], s)
  {
    RebuildQuantity(u, order, k, s);
    var es := Entries(u.Levels, order);
    var x := Rebuild(u, order)[k].price;
    match LastHit(es, s, x)
    case Some(j) =>
      assert es[j] == u.Levels[order[j]];
      assert Hits(u.Levels[order[j]], s, x);
      assert !(forall key :: key in u.Levels ==> !Hits(u.Levels[key], s, x));
    case None =>
      forall key | key in u.Levels
        ensures !Hits(u.Levels[key], s, x)
      {
        var j :| 0 <= j < |order| && order[j] == key;
        assert es[j] == u.Levels[key];
      }
  }

  /** When one level at most quotes each price on a side, that level's
      quantity is the row's, whatever the iteration order. */
  lemma RebuildUniqueQuote(u: DepthLevels, order: seq<int>, k: int, s: Side, key: int)
    requires Enumerates(order, u.Levels) && 0 <= k < Width && UniqueQuotes(u.Levels, s)
    requires key in u.Levels && Hits(u.Levels[key], s, u.LastTradedPrice + HalfWidth - 1 - k)
    ensures |Rebuild(u, order)| == Width
    ensures Rebuild(u, order)[k].Qty(s) == Quantity(u.Levels[key], s)
  {
    RebuildQuantityFromLevels(u, order, k, s);
    var other :| other in u.Levels && Hits(u.Levels[other], s, Rebuild(u, order)[k].price)
                 && Rebuild(u, order)[k].Qty(s) == Quantity(u.Levels[other], s);
    assert Hits(u.Levels[other], s, BestPrice(u.Levels[key], s));
  }

  /** `bidExists`/`askExists` of a row, when quotes are unique: some level
      quotes the row's price on that side with a positive quantity. */
  lemma RebuildExists(u: DepthLevels, order: seq<int>, k: int)
    requires Enumerates(order, u.Levels) && 0 <= k < Width
    requires UniqueQuotes(u.Levels, Ask) && UniqueQuotes(u.Levels, Bid)
    ensures |Rebuild(u, order)| == Width
    ensures Rebuild(u, order)[k].AskExists() <==>
      exists key :: key in u.Levels && Hits(u.Levels[key], Ask, Rebuild(u, order)[k].price) && u.Levels[key].AskQuantity > 0.0
    ensures Rebuild(u, order)[k].BidExists() <==>
      exists key :: key in u.Levels && Hits(u.Levels[key], Bid, Rebuild(u, order)[k].price) && u.Levels[key].BidQuantity > 0.0
  {
    RebuildQuantityFromLevels(u, order, k, Ask);
    RebuildQuantityFromLevels(u, order, k, Bid);
    var x := Rebuild(u, order)[k].price;
    forall key | key in u.Levels && Hits(u.Levels[key], Ask, x)
      ensures Rebuild(u, order)[k].askQuantity == u.Levels[key].AskQuantity
    {
      RebuildUniqueQuote(u, order, k, Ask, key);
    }
    forall key | key in u.Levels && Hits(u.Levels[key], Bid, x)
      ensures Rebuild(u, order)[k].bidQuantity == u.Levels[key].BidQuantity
    {
      RebuildUniqueQuote(u, order, k, Bid, key);
    }
  }

  /** When quotes are unique on both sides, dictionary order does not matter. */
  lemma RebuildOrderIrrelevant(u: DepthLevels, o1: seq<int>, o2: seq<int>)
    requires Enumerates(o1, u.Levels) && Enumerates(o2, u.Levels)
    requires UniqueQuotes(u.Levels, Ask) && UniqueQuotes(u.Levels, Bid)
    ensures Rebuild(u, o1) == Rebuild(u, o2)
  {
    var l1, l2 := Rebuild(u, o1), Rebuild(u, o2);
    RebuildShape(u, o1);
    RebuildShape(u, o2);
    RebuildLastTrade(u, o1);
    RebuildLastTrade(u, o2);
    forall k | 0 <= k < Width
      ensures l1[k] == l2[k]
    {
      SameQuantity(u, o1, o2, k, Ask);
      SameQuantity(u, o1, o2, k, Bid);
    }
  }

  lemma SameQuantity(u: DepthLevels, o1: seq<int>, o2: seq<int>, k: int, s: Side)
    requires Enumerates(o1, u.Levels) && Enumerates(o2, u.Levels) && 0 <= k < Width
    requires UniqueQuotes(u.Levels, s)
    ensures |Rebuild(u, o1)| == |Rebuild(u, o2)| == Width
    ensures Rebuild(u, o1)[k].Qty(s) == Rebuild(u, o2)[k].Qty(s)
  {
    RebuildQuantityFromLevels(u, o1, k, s);
    RebuildQuantityFromLevels(u, o2, k, s);
    RebuildShape(u, o1);
    RebuildShape(u, o2);
    var x := u.LastTradedPrice + HalfWidth - 1 - k;
    if key :| key in u.Levels && Hits(u.Levels[key], s, x) {
      RebuildUniqueQuote(u, o1, k, s, key);
      RebuildUniqueQuote(u, o2, k, s, key);
    }
  }

  /** Dropping one key from an iteration order enumerates the map without
      that key, and lists the remaining levels in the same order. */
  lemma EnumeratesWithout(order: seq<int>, m: map<int, DepthLevel>, i: int)
    requires Enumerates(order, m) && 0 <= i < |order|
    ensures Enumerates(order[..i] + order[i + 1..], m - {order[i]})
    ensures Entries(m - {order[i]}, order[..i] + order[i + 1..]) == Entries(m, order)[..i] + Entries(m, order)[i + 1..]
  {
  }

  /** Clipping: removing a level whose quotes both miss the window does not
      change the ladder, so such a level never shows in it. */
  lemma RebuildIgnoresOutside(u: DepthLevels, order: seq<int>, m: int)
    requires Enumerates(order, u.Levels) && 0 <= m < |order|
    requires Outside(u.Levels[order[m]], Ask, u.LastTradedPrice)
    requires Outside(u.Levels[order[m]], Bid, u.LastTradedPrice)
    ensures Enumerates(order[..m] + order[m + 1..], u.Levels - {order[m]})
    ensures Rebuild(u.(Levels := u.Levels - {order[m]}), order[..m] + order[m + 1..]) == Rebuild(u, order)
  {
    var o' := order[..m] + order[m + 1..];
    var u' := u.(Levels := u.Levels - {order[m]});
    EnumeratesWithout(order, u.Levels, m);
    var l, l' := Rebuild(u, order), Rebuild(u', o');
    RebuildShape(u, order);
    RebuildShape(u', o');
    RebuildLastTrade(u, order);
    RebuildLastTrade(u', o');
    forall k | 0 <= k < Width
      ensures l'[k] == l[k]
    {
      SameQuantityWithout(u, order, m, k, Ask);
      SameQuantityWithout(u, order, m, k, Bid);
    }
  }

  lemma SameQuantityWithout(u: DepthLevels, order: seq<int>, m: int, k: int, s: Side)
    requires Enumerates(order, u.Levels) && 0 <= m < |order| && 0 <= k < Width
    requires Outside(u.Levels[order[m]], s, u.LastTradedPrice)
    ensures Enumerates(order[..m] + order[m + 1..], u.Levels - {order[m]})
    ensures |Rebuild(u, order)| == Width
    ensures |Rebuild(u.(Levels := u.Levels - {order[m]}), order[..m] + order[m + 1..])| == Width
    ensures Rebuild(u.(Levels := u.Levels - {order[m]}), order[..m] + order[m + 1..])[k].Qty(s)
      == Rebuild(u, order)[k].Qty(s)
  {
    var o' := order[..m] + order[m + 1..];
    var u' := u.(Levels := u.Levels - {order[m]});
    var es := Entries(u.Levels, order);
    EnumeratesWithout(order, u.Levels, m);
    RebuildQuantity(u, order, k, s);
    RebuildQuantity(u', o', k, s);
    LastQuoteWithout(es, m, s, Rebuild(u, order)[k].price);
  }

  // ---------------------------------------------------------------------
  // Two worked updates

  /** A single level at the last traded price 1000 with a bid of 5 there and
      an ask of 3 at 1001. */
  lemma ScenarioSingleLevel()
    ensures var u := DepthLevels(map[1000 := DepthLevel(1000, 5.0, 1001, 3.0)], None, 1000, 0.0);
      && Enumerates([1000], u.Levels)
      && |Rebuild(u, [1000])| == Width
      && Rebuild(u, [1000])[HalfWidth - 1] == Row(1000, 5.0, 0.0, true)
      && Rebuild(u, [1000])[HalfWidth - 2] == Row(1001, 0.0, 3.0, false)
      && forall k :: 0 <= k < Width && k != HalfWidth - 1 && k != HalfWidth - 2 ==>
           Rebuild(u, [1000])[k].bidQuantity == 0.0 && Rebuild(u, [1000])[k].askQuantity == 0.0
  {
    var u := DepthLevels(map[1000 := DepthLevel(1000, 5.0, 1001, 3.0)], None, 1000, 0.0);
    var l := Rebuild(u, [1000]);
    RebuildLastTrade(u, [1000]);
    forall k | 0 <= k < Width
      ensures l[k].price == 1099 - k
      ensures l[k].bidQuantity == if k == HalfWidth - 1 then 5.0 else 0.0
      ensures l[k].askQuantity == if k == HalfWidth - 2 then 3.0 else 0.0
    {
      RebuildQuantity(u, [1000], k, Bid);
      RebuildQuantity(u, [1000], k, Ask);
    }
  }

  /** No levels and no trade yet: the ladder spans 99 down to -100, the row
      at 0 is flagged and every quantity is 0. */
  lemma ScenarioEmpty()
    ensures var u := DepthLevels(map[], None, 0, 0.0);
      && Enumerates([], u.Levels)
      && |Rebuild(u, [])| == Width
      && Rebuild(u, [])[0].price == 99
      && Rebuild(u, [])[Width - 1].price == -100
      && Rebuild(u, [])[HalfWidth - 1] == Row(0, 0.0, 0.0, true)
      && forall k :: 0 <= k < Width ==>
           Rebuild(u, [])[k].bidQuantity == 0.0 && Rebuild(u, [])[k].askQuantity == 0.0
  {
    var u := DepthLevels(map[], None, 0, 0.0);
    var l := Rebuild(u, []);
    RebuildShape(u, []);
    RebuildLastTrade(u, []);
    forall k | 0 <= k < Width
      ensures l[k].bidQuantity == 0.0 && l[k].askQuantity == 0.0
    {
      RebuildQuantity(u, [], k, Bid);
      RebuildQuantity(u, [], k, Ask);
    }
  }
}
