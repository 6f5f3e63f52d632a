# Depth ladder of the ttclient socket client

This project models the depth-ladder aggregator of the ttclient iOS/macOS
client, and proves properties of the model.

The client receives order-book updates for one instrument. Each update
(`DepthLevels`) holds a sparse map of levels keyed by price and the last
traded price `p`. Each level (`DepthLevel`) carries a best bid and a best
ask with their quantities. Storing an update in `SocketClient.levels` runs
its `didSet` observer, and the observer does the following:

1. It copies `p` into the published `lastTradedPrice`, but only when `p` differs from the current value.
2. It builds 200 fresh `PriceDetails` rows for the prices in `[p - 100, p + 100)`, in ascending order.
3. It walks the level map. A positive `BestAsk` or `BestBid` writes that side's quantity into the row that `forPrice` finds. On a miss, `forPrice` returns a throwaway row with price 0.
4. It flags the row at `p` as the last trade.
5. It publishes the rows reversed, so the highest price comes first.

Modules:

- `Depth` (depth.dfy) holds the input records. It also defines `Enumerates`, which says that `order` is one iteration order of the level dictionary, and `Entries`, which gives the levels in that order.
- `Ladder` (ladder.dfy) is the rebuild stated on values. `Rebuild(u, order)` is the published ladder. `LastHit` and `LastQuote` are reference definitions: the last level in iteration order that quotes a given price on a side. The lemmas state the ladder's length, its prices, its flag, its per-row quantities, clipping, and independence from dictionary order.
- `Client` (client.dfy) is the imperative model. `PriceDetails` is a class whose fields are changed in place through the references that `ForPrice` returns. `SocketClient.SetLevels` is the assignment to `levels` together with its observer. It creates the rows, changes them in place, and publishes them. Its postcondition ties the published rows to `Rebuild` and the published price to the update. A ghost log, `lastTradedPriceChanges`, records each change notification of `lastTradedPrice`.

Swift's dictionary iteration order is not specified. The model takes it as a parameter: `order`, a listing of the map's keys with each key once. When two levels quote the same price on one side, the last one in that order wins. `RebuildOrderIrrelevant` shows that the order does not matter when no two levels quote the same price on a side.

The model keeps the code's lookup, a linear `first(where:)` scan, rather than computing the row index from the price. `FirstIndexInWindow` proves that the two agree on every window. The window is half-open, `[p - 100, p + 100)`. It always contains `p`, so exactly one row is flagged.

## Model

| member | source | states |
|---|---|---|
| `Ladder.FirstIndex` | Shared/ContentView.swift:45-51 | the lookup of `forPrice`: Some(i) is the first position holding the price; None means no row holds it |
| `Ladder.LastHit` | Shared/ContentView.swift:73-81 | reference definition: the last level in iteration order that quotes the price on the side (positive and equal); None when no level does |
| `Ladder.ApplyLevels` | Shared/ContentView.swift:73-81 | writing the levels into the rows never moves a row, never changes a price and never touches the last-trade flag |
| `Ladder.FirstIndexInWindow` | Shared/ContentView.swift:45-51 | in a freshly built window, `forPrice(x)` finds the row at offset x - (p - 100) exactly when x lies in [p - 100, p + 100), and misses otherwise |
| `Ladder.ApplySideAt` | Shared/ContentView.swift:74-80 | one side of one level changes only that side's quantity in the row at its positive price, sets it to the level's quantity, and keeps the window |
| `Ladder.ApplyLevelOutside` | Shared/ContentView.swift:74-79 | a level whose ask and bid prices are both non-positive or outside the window leaves every row unchanged |
| `Ladder.ApplyLevelsAt` | Shared/ContentView.swift:73-81 | after all levels, each row's quantity on a side is that of the last level quoting its price there, or the row's initial quantity |
| `Ladder.LastQuoteWithout` | Shared/ContentView.swift:73-81 | deleting a level that does not quote a price does not change which quantity that price ends up with |
| `Ladder.RebuildShape` | Shared/ContentView.swift:69-84 | the published ladder has exactly 200 rows; row k has price p + 99 - k, so prices fall by one from p + 99 to p - 100 |
| `Ladder.RebuildLastTrade` | Shared/ContentView.swift:83-84 | exactly one row is flagged as the last trade: row 99, which is the row whose price equals p |
| `Ladder.RebuildQuantity` | Shared/ContentView.swift:73-81 | each row's ask and bid quantity is that of the last level in iteration order that quotes the row's price on that side; 0 if none does |
| `Ladder.RebuildQuantityFromLevels` | Shared/ContentView.swift:73-81 | a row's quantity on a side is 0 unless some level of the map quotes its price there; if one does, the quantity is that of one such level |
| `Ladder.RebuildUniqueQuote` | Shared/ContentView.swift:73-81 | when at most one level quotes each price on a side, the row's quantity is that level's, whatever the dictionary order |
| `Ladder.RebuildExists` | Shared/ContentView.swift:34-40 | with unique quotes, `bidExists`/`askExists` of a row hold exactly when some level quotes its price on that side with a positive quantity |
| `Ladder.RebuildOrderIrrelevant` | Shared/ContentView.swift:73-81 | with unique quotes on both sides, every iteration order of the level map gives the same ladder |
| `Ladder.RebuildIgnoresOutside` | Shared/ContentView.swift:74-79 | clipping: deleting a level whose prices both miss the window does not change the ladder, so such a level never shows and causes no error |
| `Ladder.SameQuantity` | Shared/ContentView.swift:73-81 | with unique quotes on a side, two iteration orders give each row the same quantity on that side |
| `Ladder.SameQuantityWithout` | Shared/ContentView.swift:74-79 | deleting a level that misses the window on a side keeps every row's quantity on that side |
| `Ladder.ScenarioSingleLevel` | Shared/ContentView.swift:61-86 | p = 1000 with one level (bid 5 at 1000, ask 3 at 1001): row 1000 is Row(1000, 5, 0, flagged), row 1001 is Row(1001, 0, 3, unflagged), and every other row has no quantities |
| `Ladder.ScenarioEmpty` | Shared/ContentView.swift:61-86 | no levels and p = 0: the ladder runs from 99 down to -100, the row at 0 is the only flagged row, and every quantity is 0 |
| `Client.PriceDetails.constructor` | Shared/ContentView.swift:15-24 | a new row holds the given price and quantities (0 by default) and is not flagged |
| `Client.ForPrice` | Shared/ContentView.swift:45-51 | returns the first row at the price. On a miss it returns a fresh row with price 0 that is not in the array, so writes to it are discarded |
| `Client.NewWindow` | Shared/ContentView.swift:67-71 | appends 200 fresh, distinct rows whose values are the empty window [p - 100, p + 100) |
| `Client.WriteSide` | Shared/ContentView.swift:74-80 | the in-place write of one side of one level changes the rows exactly as `ApplySide` says |
| `Client.ApplyLevelsInPlace` | Shared/ContentView.swift:73-81 | the loop over the level map changes the rows in place exactly as `ApplyLevels` says, in the given iteration order |
| `Client.MarkLastTradeInPlace` | Shared/ContentView.swift:83-83 | flags the row at p in place, exactly as `MarkLastTrade` says |
| `Client.SocketClient.constructor` | Shared/ContentView.swift:58-61 | the initial state: no rows, published price 0, the empty update, no change published |
| `Client.SocketClient.SetLevels` | Shared/ContentView.swift:61-86 | stores the update; afterwards the published price is p. A change notification is logged exactly when p differs from the old price. The published rows are fresh objects whose values are `Rebuild(u, order)`, so they depend on the update alone |
| `Client.ReassignSameUpdate` | Shared/ContentView.swift:61-86 | assigning the same update twice gives the same ladder as assigning it once, and the second assignment publishes no price change |

## Left out

- The WebSocket (Starscream) setup, its event handling, the "hi" keep-alive writes and `isConnected` are network I/O. They are not modelled. `SocketClient.constructor` models only the initial published state.
- JSON decoding of `DepthLevels` with `JSONDecoder` is a foreign library call. The model takes an update that is already decoded.
- The hand-off through `DispatchQueue.main.async` is threading. Updates are assumed to be applied one after another.
- The SwiftUI `ContentView` (scrolling to the flagged row, colours, animation) is UI.
- `bidQuantityString`/`askQuantityString` are left out: they convert a `Float` to `Int` and format text.
- Quantities are `Float` in the application and `real` here. They are only copied and compared with 0.
- Prices are unbounded integers. Swift's overflow trap at `price - 100` and `price + 100` is not modelled.
- Dictionary iteration order is a parameter (`order`), not Swift's hash order.
- `lastTradedPriceChanges` logs only the change notifications of `lastTradedPrice`. `prices` is reassigned, and so published, on every update. That notification is not logged.
- `PriceDetails.Id`, `BidExists` and `AskExists` are plain accessors with no contract. What they mean for the published ladder is stated by `Ladder.RebuildExists` on row values.
- `Command` and `LastTradedQuantity` are carried in the update but never read by the rebuild.
