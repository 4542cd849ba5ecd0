# Grid trading bot: a verified model of its order mirror

The bot trades one pair on a spot exchange with a grid of limit orders. It places
`GRID_COUNT` buys below the current price and as many sells above it, each
`GRID_SIZE` apart. It keeps a local mirror of its open orders, a dictionary from
the rounded price to the order record, and persists that mirror with running
statistics in a JSON snapshot. Each round of its main loop does the following:

- cancels orders that drifted out of the grid;
- reconciles the mirror with the exchange's open orders;
- sweeps order statuses;
- replaces every filled order with one of the same side a grid step away;
- replenishes each side up to `GRID_COUNT` levels;
- saves the snapshot.

A separate range worker (`grid-adjustment.py`) re-centres the grid. It cancels the
farthest buy and sell when they lie outside the grid and replaces them. It then
balances the number of buys and sells and trims new orders above `MAX_ORDERS`. A
migration script (`convert.py`) turns the snapshot's `orders` dictionary into a list.

The model works on integer ticks of 0.0001. Every price the bot handles is rounded
to four decimals, so `round(x, 4)` is the identity and no floating point remains:

| Constant | Value | Ticks |
|---|---|---|
| `GRID_SIZE` | 0.043 | 430 |
| `AMOUNT` | 50 | 500000 |
| filter tolerance | 0.01 | 100 |

Order records are maps from field names to values (`Records.Order`):

- `dict.get` reads a missing field as `None`.
- A subscript of a missing field raises, and the model carries that as an outcome.
- `dict.update` is map union.

The exchange is never called. Whatever it would answer (balances, order replies,
statuses, cancellation results, open-order lists) is an input to the operation
that asks for it. Each input is indexed by the position of the call in its loop.

Modules, file by file:

- `records.dfy`: order records, and the sequences that keep a dictionary's insertion order.
- `levels.dfy`: the grid level comprehensions.
- `decimal.dfy`: `str(price)` and `float(key)` on ticks.
- `snapshot.dfy`: the snapshot save/load and the `convert.py` migration.
- `exchange.dfy`: the balance check, `place_order`, and the exchange lookups used by reconciliation.
- `grid.dfy`: the bot state (`Book`) and the initial grid.
- `rangecheck.dfy`: `adjust_grid_with_file_check`.
- `recycling.dfy`: fill recycling.
- `replenishment.dfy`: replenishment.
- `gridbot.dfy`: reconciliation and the status sweep as functions, plus the class `Bot`.
  - `Bot`'s fields are the mirror, its key order, the statistics and the snapshot file.
  - Its methods update those fields in place.
  - Each method is proved equal to the function that specifies it.
- `worker.dfy`, `placement.dfy`, `adjustment.dfy`: the range worker.

## Model

| member | source | states |
|---|---|---|
| Levels.CalculateGridLevels | grid-adjustment.py:155-163 | `grid_count` buy levels and as many sell levels; the i-th buy and the i-th sell are symmetric around the price |
| Levels.LevelsAt | grid-adjustment.py:156-157 | the closed form of the two comprehensions, used by Levels.LadderShape and Levels.CalculateGridLevels, which carry the grid's shape |
| Levels.LadderShape | grid-bot.py:808-809 | with a positive spacing: buys strictly decrease and sells strictly increase; every buy is below the price and every sell above it; neighbours are one spacing apart; the lowest buy is `P - s*n` and the highest sell is `P + s*n` |
| Levels.OuterLevels | grid-bot.py:634-635 | `min(buy_prices)` is `P - s*n` and `max(sell_prices)` is `P + s*n` |
| Levels.HundredByOne | grid-adjustment.py:155-163 | documentation only: a worked instance of the level lists (price 100, spacing 1); the general statements are Levels.CalculateGridLevels and Levels.LadderShape |
| Decimal.PriceText | grid-bot.py:230 | definition of `str(price)` on ticks; its round trip and injectivity are proved in Decimal.PriceTextRoundTrip and Decimal.PriceTextInjective |
| Decimal.ParsePrice | grid-bot.py:283 | definition of `float(key)` on the numerals `str(price)` writes; properties in Decimal.PriceTextRoundTrip |
| Decimal.PriceTextRoundTrip | grid-bot.py:283 | `float` of the key that `str(price)` wrote is the same price |
| Decimal.PriceTextInjective | grid-bot.py:230 | two different prices never share a snapshot key |
| Exchange.CheckBalance | grid-bot.py:330-344 | the check raises exactly when the balance cannot be fetched; it answers true exactly when the free amount of the currency (0 when absent) is at least the required amount |
| Exchange.PlaceOrder | grid-bot.py:372-415 | the order is declined (returns `False`) exactly when the balance check fails or raises. It errors (returns `None`) exactly when the balance suffices but the create call fails. A placed order is a record with exactly `id`, `symbol`, `price`, `side` and `status`: the id comes from the response, the symbol from the response or `SYMBOL` when it has none, the price is the requested one and the status is `open` |
| Exchange.ById | grid-bot.py:579 | every exchange order's id is a key, and each entry is an exchange order carrying that id |
| Exchange.ByIdLast | grid-bot.py:579 | the entry under an id is the last exchange order with that id: no later order carries it |
| Exchange.ByIdDistinct | grid-bot.py:579 | when ids are distinct, each exchange order is found under its own id |
| Exchange.ByPrice | grid-bot.py:580 | every exchange order's rounded price is a key, and each entry is an exchange order at that price |
| Exchange.ByPriceLast | grid-bot.py:580 | the entry under a price is the last exchange order at that price: no later order has it |
| Exchange.ByPriceEnumerates | grid-bot.py:580 | the price dictionary's insertion order lists each of its keys exactly once |
| Grid.PositiveBuys | grid-bot.py:819-820 | definition of the eligible buy levels (the positive ones); that the ladder places exactly these is proved in Grid.InitialBuys |
| Grid.LaddersApart | grid-bot.py:808-809 | the planned buy levels are distinct and below the price; the sell levels are distinct and above it |
| Grid.PlaceLevels | grid-bot.py:819-837 | definition of the placement loop over one ladder; properties in Grid.PlaceLevelsStopped and Grid.PlaceLevelsEffect |
| Grid.PlaceLevelsStopped | grid-bot.py:824-827 | once a placement fails, the later levels change nothing (the run returns) |
| Grid.PlaceLevelsEffect | grid-bot.py:819-837 | placing a ladder keeps every existing entry and the statistics. Each new entry is a placed order of the side at one of the levels, and buys only at positive levels. When no placement failed, every eligible level was placed; after a failure nothing more changes |
| Grid.InitialBuys | grid-bot.py:819-827 | from an empty mirror, the buy ladder yields only placed buys at positive levels, and all of them when none failed |
| Grid.InitialGrid | grid-bot.py:805-841 | definition of the initial grid (buy ladder, then sell ladder); properties in Grid.InitialGridEffect |
| Grid.InitialGridEffect | grid-bot.py:805-841 | from an empty mirror, the initial grid holds only buys at positive buy levels and sells at sell levels. When every placement succeeded it holds exactly those levels. The statistics are untouched |
| SnapshotFile.Named | grid-bot.py:228-230 | definition of the saved orders block (one member per mirror key, named `str(price)`); that loading it gives the mirror back is proved in SnapshotFile.LoadNamed and SnapshotFile.SaveLoadRoundTrip |
| SnapshotFile.Project | grid-bot.py:230-240 | definition of the record as written; properties in SnapshotFile.ProjectKeys |
| SnapshotFile.ProjectKeys | grid-bot.py:230-240 | every saved record has exactly the nine listed fields |
| SnapshotFile.Snapshot | grid-bot.py:225-261 | definition of the snapshot document; properties in SnapshotFile.SaveLoadRoundTrip and SnapshotFile.ConvertAfterSave |
| SnapshotFile.SaveOpenOrders | grid-bot.py:225-261 | the save loop produces the snapshot document: the projected records under their price names, and the statistics or the zero default |
| SnapshotFile.Load | grid-bot.py:283-288 | the loaded key order lists each loaded price once. A snapshot without an `orders` block loads as an empty mirror with the given or default statistics. A block that is not a dictionary loads nothing |
| SnapshotFile.GatherEnumerates | grid-bot.py:283 | keys parsed from the snapshot are listed once each, in file order |
| SnapshotFile.SaveLoadRoundTrip | grid-bot.py:228-288 | loading a saved mirror gives back the same prices in the same order, each with the nine saved fields, and the saved statistics (the zero default when none were given) |
| SnapshotFile.LoadNamed | grid-bot.py:283-288 | loading members named `str(price)` after distinct prices gives back exactly those prices, in order, with their records |
| SnapshotFile.SavedNamesDistinct | grid-bot.py:230 | the saved entries have pairwise different names |
| SnapshotFile.Convert | convert.py:13-30 | an `orders` list is left as it is. A dictionary becomes a list with one item per entry, in order. Each item has the eight copied fields unchanged and `price` set to `float(key)`. The statistics and every other top-level key are untouched. A missing or malformed block, a key Decimal.ParsePrice does not read (see Left out), or a missing field raises |
| SnapshotFile.ConvertAfterSave | convert.py:17-30 | migrating a snapshot the bot saved gives, per saved price in order, the saved record with `price` replaced by that price |
| RangeCheck.Reach | grid-bot.py:648-656 | the check gets through exactly the entries before the first one whose `side` is missing, or whose `id` is missing while it is out of range |
| RangeCheck.Cancelled | grid-bot.py:648-661 | definition of the per-entry removal test (out of range and deleted by `cancel_order`); what it removes from the mirror is proved in RangeCheck.RemovedMembers |
| RangeCheck.RemovedMembers | grid-bot.py:648-661 | a price is removed exactly when the check reached it and its entry is cancelled |
| RangeCheck.AdjustGrid | grid-bot.py:622-666 | definition of the state and outcome the range check leaves; properties in RangeCheck.AdjustRemovesOnlyOutOfBand, RangeCheck.AdjustClearsOutOfBand and RangeCheck.AdjustCompletes |
| RangeCheck.AdjustRemovesOnlyOutOfBand | grid-bot.py:648-661 | the range check keeps every surviving entry unchanged and the statistics as they were, and removes only out-of-range entries |
| RangeCheck.AdjustClearsOutOfBand | grid-bot.py:648-661 | when every cancel call goes through and the check completes, no out-of-range entry is left |
| RangeCheck.AdjustCompletes | grid-bot.py:648-656 | the check completes exactly when no entry of the mirror makes it raise |
| Recycling.Recycle | grid-bot.py:952-1004 | definition of one corrected recycling step; properties in Recycling.RecycleOneEffect |
| Recycling.RecycleAll | grid-bot.py:950-1004 | definition of the corrected fill loop; properties in Recycling.RecycleEffect, Recycling.RecycleCountsFills, Recycling.RecycleKeepsProfit and Recycling.RecycleAllStopped |
| Recycling.RecycleAsWritten | grid-bot.py:951-953 | definition of one step of the fill loop as written; properties in Recycling.AsWrittenRecyclesNothing |
| Recycling.RecycleAllAsWritten | grid-bot.py:950-1004 | definition of the fill loop as written; properties in Recycling.AsWrittenRecyclesNothing and Recycling.RecycleFindingExample |
| Recycling.Counted | grid-bot.py:962-969 | counting a fill never changes the net profit |
| Recycling.AsWrittenRecyclesNothing | grid-bot.py:950-953 | as written, when the mirror holds none of the filled prices, recycling changes nothing |
| Recycling.RecycleFindingExample | grid-bot.py:950-976 | one filled buy: as written, nothing is counted or placed; the corrected loop counts one buy and places a buy one grid step up |
| Recycling.RecycleAllStopped | grid-bot.py:950-956 | after a fill raised, the later fills change nothing |
| Recycling.RecycleKeepsProfit | grid-bot.py:962-969 | recycling never changes the net profit |
| Recycling.RecycleCountsFills | grid-bot.py:962-969 | when nothing raised, the buy and sell counters grow by the number of filled buys and filled sells |
| Recycling.RecycleOneEffect | grid-bot.py:952-994 | one fill keeps every existing entry. It adds at most the replacement: one grid step from the fill, inside the grid, not held before, not among the exchange's rounded open prices (which could be read), a placed order of the fill's side |
| Recycling.RecycleEffect | grid-bot.py:950-1004 | recycling keeps every existing entry and the key order. Each new entry is the in-grid replacement of some fill, at no exchange open price read for that fill, placed with that fill's side |
| Replenishment.SideFlags | grid-bot.py:1013-1014 | definition of the side test of the listing comprehension; the listing it yields is characterised in Replenishment.SidePricesMembers |
| Replenishment.SidePricesMembers | grid-bot.py:1013-1014 | the side listing has no repeated price and holds exactly the mirror prices whose entry is of that side |
| Replenishment.SideLists | grid-bot.py:1013-1014 | the listing loop succeeds exactly when every entry has a `side`, and then yields the buy and sell listings |
| Replenishment.FillSide | grid-bot.py:1034-1070 | a side's loop only appends, and never appends past `GRID_COUNT` when it starts below it |
| Replenishment.FillSideAppends | grid-bot.py:1034-1061 | the loop appends the same prices to the side list and to the mirror's key order. A buy is only placed at a positive price. Each placement bumps that side's counter by one |
| Replenishment.FillSideSteps | grid-bot.py:1035-1054 | the appended prices run outward one `GRID_SIZE` at a time from the side's extreme (or from the grid's outer level when the side is empty) |
| Replenishment.FillSideRecords | grid-bot.py:1034-1070 | the loop keeps every existing entry and adds only placed orders of its side. When it ends below `GRID_COUNT` without a failed placement, the next price is taken, or is a non-positive buy |
| Replenishment.Replenish | grid-bot.py:1013-1070 | definition of the replenishment; properties in Replenishment.ReplenishCeiling and Replenishment.ReplenishEffect |
| Replenishment.ReplenishCeiling | grid-bot.py:1020-1070 | at `2*GRID_COUNT` orders or more, nothing changes. Below it, the orders grow by at most each side's shortfall from `GRID_COUNT` |
| Replenishment.ReplenishEffect | grid-bot.py:1020-1070 | replenishment keeps every existing entry and the net profit, and adds only placed buys and sells |
| GridBot.Reconciled | grid-bot.py:579-610 | definition of the reconciled mirror; properties in GridBot.ReconcileEffect and GridBot.ReconcileIdempotent |
| GridBot.RefreshAll | grid-bot.py:585-595 | refreshing entries keeps the mirror's key set |
| GridBot.ReconcileEffect | grid-bot.py:579-610 | reconciliation never deletes an entry. An entry whose id the exchange lacks keeps every field and gets status `unknown`. An entry whose id the exchange has takes every field of that exchange order and keeps the rest. Every exchange price becomes a key, and each added entry is the exchange order at that price |
| GridBot.RefreshedStable | grid-bot.py:585-595 | refreshing an entry twice is refreshing it once |
| GridBot.ReconcileIdempotent | grid-bot.py:572-614 | reconciling twice against the same exchange orders (with distinct ids) is reconciling once |
| GridBot.AddMissing | grid-bot.py:598-601 | inserting missing exchange orders adds exactly the exchange prices the mirror lacked, in exchange order |
| GridBot.StatusVerdict | grid-bot.py:494-534 | definition of the sweep's verdict per entry: no id keeps it; `closed` or `filled` fills it; `canceled`, `rejected` or `expired` drops it; anything else keeps it; properties in GridBot.SweepPartition |
| GridBot.Verdicts | grid-bot.py:494-534 | definition of the per-entry verdict test; the lists it yields are characterised in GridBot.SweptMembers and GridBot.SweepPartition |
| GridBot.Swept | grid-bot.py:494-539 | definition of the filled and dropped lists; properties in GridBot.SweptMembers and GridBot.SweepPartition |
| GridBot.SweptMembers | grid-bot.py:494-539 | a price is swept as filled (or dropped) exactly when its verdict says so |
| GridBot.SweepPartition | grid-bot.py:494-539 | no price is both filled and dropped; a price is kept exactly when its verdict is to keep it |
| GridBot.Bot.constructor | grid-bot.py:278-291 | the bot starts from the loaded snapshot |
| GridBot.Bot.Save | grid-bot.py:225-261 | the file becomes the snapshot of the current mirror and the given statistics; the mirror is unchanged |
| GridBot.Bot.Reconcile | grid-bot.py:572-618 | it raises (changing nothing) exactly when the exchange orders cannot be fetched, or an exchange order lacks `id` or `price`, or its price is neither a number nor a numeral Decimal.ParsePrice reads (see Left out). Otherwise the mirror becomes the reconciled one, and newly added prices go last in exchange order |
| GridBot.Bot.RefreshEntries | grid-bot.py:585-595 | the mirror's entries are refreshed in place, the key order is kept |
| GridBot.Bot.InsertMissing | grid-bot.py:598-601 | the missing exchange orders are added, their prices appended in exchange order |
| GridBot.Bot.CheckOrdersStatus | grid-bot.py:487-547 | returns the filled prices in mirror order, and deletes exactly the filled and the dropped ones |
| GridBot.Bot.DeleteAll | grid-bot.py:537-540 | each listed price the mirror holds is deleted and dropped from the key order; nothing else changes |
| GridBot.Bot.Delete | grid-bot.py:441-442 | `del open_orders[price]` when present: the price leaves the mirror and the key order; nothing else changes |
| GridBot.Bot.CancelOrder | grid-bot.py:432-462 | the price is deleted when the order is not open any more or the cancel call went through; when the call raises, the mirror is unchanged |
| GridBot.Bot.AdjustGridWithFileCheck | grid-bot.py:622-666 | the state and outcome are those of the range check. The snapshot is written only when the mirror was non-empty and the check completed |
| GridBot.Bot.CheckRange | grid-bot.py:648-661 | the loop over the mirror's entries leaves the state and outcome of the range check |
| GridBot.Bot.CheckEntry | grid-bot.py:648-661 | one entry: an entry that raises abandons the round with the state the range check describes; otherwise the removed prices grow by this entry exactly when it is cancelled |
| GridBot.Bot.PlaceInitialGrid | grid-bot.py:805-853 | a non-empty mirror is left alone. Otherwise the mirror becomes the initial grid, and the run stops at the first failed placement. The snapshot (without statistics) is written only when all placements succeeded |
| GridBot.Bot.PlaceLadder | grid-bot.py:819-837 | the placement loop over one side's levels leaves the state that the ladder function describes |
| GridBot.Bot.RecycleFills | grid-bot.py:950-1005 | the fill loop leaves the state of the corrected recycling, and abandons the round exactly when it raised |
| GridBot.Bot.RecycleOne | grid-bot.py:951-1004 | one fill leaves the state of one recycling step |
| GridBot.Bot.ReplenishGrid | grid-bot.py:1013-1070 | the replenishment leaves the state and outcome that the replenishment function describes |
| GridBot.Bot.FillLoop | grid-bot.py:1034-1070 | one side's `while` loop leaves the state of the side's fill |
| WorkerOrders.LowerBuy | grid-adjustment.py:199-201 | a side reads as `buy` after lower-casing exactly when it is three letters b, u, y, each in either case |
| WorkerOrders.LowerSell | grid-adjustment.py:199-204 | a side reads as `sell` after lower-casing exactly when it is four letters s, e, l, l, each in either case |
| WorkerOrders.OutsideGrid | grid-adjustment.py:197-208 | definition of the filter's test for one order; properties in WorkerOrders.FilterOutsideGrid |
| WorkerOrders.FilterOutsideGrid | grid-adjustment.py:191-208 | an order is selected exactly when it is a buy with no buy level within the tolerance, or a sell with no sell level within it. Other sides are never selected. The result is no longer than the input |
| WorkerOrders.FilterAppend | grid-adjustment.py:195-208 | filtering distributes over concatenation, so the selection keeps input order |
| WorkerOrders.CancelledIds | grid-adjustment.py:168-187 | definition of the reported ids; properties in WorkerOrders.CancelledIdsMembers |
| WorkerOrders.CancelledIdsMembers | grid-adjustment.py:168-187 | exactly the ids whose cancel call went through are reported; one id per success; a failure does not stop the rest |
| WorkerOrders.CancelOrdersOutsideRange | grid-adjustment.py:168-187 | the loop reports those ids in input order |
| WorkerOrders.PricesOf | grid-adjustment.py:315-316 | definition of one side's price list; properties in WorkerOrders.PricesOfMembers |
| WorkerOrders.PricesOfMembers | grid-adjustment.py:315-316 | a price is listed for a side exactly when an open order of that side has it |
| WorkerOrders.FirstAt | grid-adjustment.py:334 | the chosen order is the first open order at that price: it is one of them, and no earlier open order has that price |
| WorkerOrders.OrdersToCancel | grid-adjustment.py:330-336 | at most two orders, all of them open orders |
| WorkerOrders.OrdersToCancelBounds | grid-adjustment.py:322-336 | only orders outside the grid are chosen. A lowest buy below the grid (and not zero) gives an order at that price, and likewise a highest sell above it. When every buy and sell lies inside the grid, nothing is chosen |
| WorkerPlacement.PlaceSideFull | grid-adjustment.py:222-224 | once the bound is met, the later levels change nothing |
| WorkerPlacement.PlaceSideEffect | grid-adjustment.py:217-247 | the counter stays within the bound and counts every new order. Existing new orders are kept. Each new order is of the side, at one of its levels, not an existing price |
| WorkerPlacement.PlaceSideComplete | grid-adjustment.py:226-245 | without meeting the bound, every free level the exchange accepted is placed; a failed call does not stop the loop |
| WorkerPlacement.NewOrders | grid-adjustment.py:213-247 | definition of `place_new_orders`; properties in WorkerPlacement.NewOrdersBound and WorkerPlacement.NewOrdersBuysFirst |
| WorkerPlacement.NewOrdersBound | grid-adjustment.py:213-247 | existing plus new orders never exceed `max_orders`, and nothing is placed when the existing ones reach it. No new order is at an existing price. Each new order is a buy at a buy level or a sell at a sell level |
| WorkerPlacement.NewOrdersBuysFirst | grid-adjustment.py:220-224 | when the bound stops the buys, no sell is placed; otherwise every accepted free buy level is placed |
| WorkerPlacement.PlaceNewOrders | grid-adjustment.py:213-247 | the nested loops return the placement that the placement function describes |
| WorkerPlacement.PlaceLevelsLoop | grid-adjustment.py:221-245 | the inner loop over one side's levels |
| WorkerAdjust.FindById | grid-adjustment.py:361 | finds the first open order with the id (no earlier one has it), or reports that none has it |
| WorkerAdjust.Replace | grid-adjustment.py:357-419 | definition of the replacement of cancelled orders; properties in WorkerAdjust.ReplaceLevels and WorkerAdjust.ReplaceCount |
| WorkerAdjust.ReplaceLevels | grid-adjustment.py:357-419 | the k-th new buy is asked for at `P - GRID_SIZE*k` and the k-th new sell at `P + GRID_SIZE*k`. Each new order comes from an accepted reply for a cancelled id whose open order has that side. There is at most one new order per cancelled id |
| WorkerAdjust.ReplaceCanceled | grid-adjustment.py:352-420 | the replacement loop yields those new buys and sells |
| WorkerAdjust.ReplaceCount | grid-adjustment.py:357-419 | the replacement places at most one order per cancelled id |
| WorkerAdjust.Balance | grid-adjustment.py:440-474 | the balance loop only appends to the new orders |
| WorkerAdjust.BalanceEffect | grid-adjustment.py:440-456 | a balanced side is left alone; otherwise the side never passes the target, and reaches it unless a placement fails. The j-th appended order sits at the next level out, at no exchange price and at no price already placed |
| WorkerAdjust.BalanceCount | grid-adjustment.py:440-474 | a side already at its target is left alone; otherwise it does not pass the target |
| WorkerAdjust.Balanced | grid-adjustment.py:440-474 | when neither loop breaks, buys and sells end equal in number |
| WorkerAdjust.BalanceAsWritten | grid-adjustment.py:440-460 | definition of the balance loop as written; properties in WorkerAdjust.BalanceAsWrittenAgrees and WorkerAdjust.BalanceFindingExample |
| WorkerAdjust.BalanceAsWrittenAgrees | grid-adjustment.py:440-460 | as written, the loop raises whenever it is entered with exchange orders on that side. Without exchange orders it either behaves as the corrected loop or spins on a taken level |
| WorkerAdjust.BalanceFindingExample | grid-adjustment.py:440-456 | a concrete run: as written it raises; the corrected loop places the next buy level |
| WorkerAdjust.BalanceSide | grid-adjustment.py:440-474 | one side's balance loop yields the balance function's result |
| WorkerAdjust.BalanceBoth | grid-adjustment.py:352-474 | the replacement, then the buy and the sell balance loops with the corrected duplicate check (see Findings), yield the sides the balance functions describe |
| WorkerAdjust.Trim | grid-adjustment.py:477-500 | definition of the trim loop; properties in WorkerAdjust.TrimBuys, WorkerAdjust.TrimSells and WorkerAdjust.TrimRound |
| WorkerAdjust.TrimBuys | grid-adjustment.py:477-500 | when the buys are at least as many, the trim pops `min(excess, difference)` new buys from the end and cancels them last-first. Sells and exchange orders stay untouched |
| WorkerAdjust.TrimSells | grid-adjustment.py:477-500 | the same for sells |
| WorkerAdjust.TrimRound | grid-adjustment.py:485-500 | one round of the trim loses no order: the new buys, the new sells and the cancelled ids keep their total |
| WorkerAdjust.TrimExcess | grid-adjustment.py:477-500 | the trim loop yields the trim function's result |
| WorkerAdjust.AdjustRange | grid-adjustment.py:291-520 | definition of one run of the worker; properties in WorkerAdjust.AdjustRangeEffect |
| WorkerAdjust.AdjustRangeEffect | grid-adjustment.py:291-348 | the run does nothing exactly when there are no open orders, or when neither the lowest buy nor the highest sell is chosen (see WorkerOrders.OrdersToCancelBounds; a lowest buy of 0 is never chosen). Otherwise it chooses at most two open orders, all outside the grid, and reports only ids of chosen orders |
| WorkerAdjust.AdjustGridRange | grid-adjustment.py:291-520 | one run of the worker after the fetches, with the corrected balance loops (see Findings), yields the run that WorkerAdjust.AdjustRange describes |
| WorkerAdjust.Rebalance | grid-adjustment.py:352-510 | replacement, the corrected balance loops (see Findings) and the trim, composed |

## Left out

- Exchange calls, network errors, rate limits, sleeps, logging, push notifications and e-mail. Answers are inputs; failures are the model's error cases.
- Credential loading, exchange setup, `get_current_price` and `get_order_status`. The price and the statuses are inputs.
- The `while True` scheduler and its timing. Each step of one round is modelled and proved separately. Their composition into one round is not a member.
- Demo (mock) mode, including its local rebinding of `open_orders` in `cancel_order`.
- The cold-start path that fetches orders when the snapshot is missing or invalid. The pause flag file of the worker. The file reads and writes of `convert.py`. The temp-file-then-replace write is one atomic store.
- Floating point. Prices are exact ticks, so the unrounded grid bounds of the main loop need no special handling. At the filter's tolerance boundary (grid-adjustment.py:202) the model and the doubles can differ: `abs(1.01 - 1.0) <= 0.01` is false in IEEE doubles, while `WorkerOrders.Near(10100, [10000], 100)` holds.
- Decimal.ParsePrice: only numerals of the form `[-]digits[.digits]` with at most four decimals parse. `float` also accepts "5.", "1e2", "+1.5", surrounding blanks, more decimals and "inf". SnapshotFile.Load, SnapshotFile.Convert and GridBot.Bot.Reconcile treat those texts as unparsable (the load fails as a whole and gives the empty mirror; the migration and reconciliation raise), where the code would read a number.
- WorkerOrders.PricesOf: the worker's buy and sell price lists are not sorted; only their length, minimum and maximum are used.
- WorkerAdjust.AdjustGridRange: the fields `symbol`, `status` and `amount` of new worker orders are left implicit; only id and price are kept.
- Replenishment.Replenish: the `except Exception` around each replenishment placement is not modelled, because `place_order` never raises.
- GridBot.Bot.AdjustGridWithFileCheck: the replacement order placed for each cancelled one is not recorded. The code discards `place_order`'s result, so the mirror never holds it.
- WorkerAdjust.AdjustRangeEffect: it does not bound the final count by `MAX_ORDERS`. The trim pops nothing when both sides have equally many new orders, so the source does not promise that bound either.
- WorkerOrders.VenueOrder: the worker's exchange orders are assumed to carry an id, a side and a price `float` accepts, and ids are strings only. An order lacking one of these makes the source raise (grid-adjustment.py:175-177, 198-199, 315-316) and the run end at the handler at line 519; that raise and the aborted run are not modelled.
- grid-app-excel.py is not part of this model.

Where the code differs from its documented design, the model follows the code:

- Replenishment checks the `2*GRID_COUNT` ceiling once, before both loops. Each loop may then add up to `GRID_COUNT` of its side, so the total can exceed the ceiling.
- The buy-side balance check compares the quote-currency balance with `AMOUNT`, a base-currency quantity.
- The snapshot saved at start-up and after the initial grid is written without statistics, so the counters on file reset to zero.
- A price of zero is falsy, so the worker never chooses an order at price zero.
- The worker cancels the first open order at the chosen price, whatever its side.
- `place_new_orders` is never called by the worker's run; it is modelled on its own.
- The side listings of the main loop subscript `side` of every entry, so one record without it abandons the round.
- Records placed by `place_order` have no `amount` field, so recycling one that reconciliation has not refreshed raises.

## Findings

| source | as written | input that shows it | evidently intended | confidence | as-written member | corrected member |
|---|---|---|---|---|---|---|
| grid-bot.py:950-953 | the recycle loop only handles a filled price still in `open_orders`, but `check_orders_status` (grid-bot.py:537-539) has already deleted every filled price | one filled buy at 1.0000 with the price at 1.0000: the sweep removes it, and the guard at line 952 skips it, so no fill is counted and no replacement is placed | recycle each filled order from the record it had before the sweep | not executed | Recycling.AsWrittenRecyclesNothing, Recycling.RecycleFindingExample | Recycling.RecycleCountsFills, Recycling.RecycleEffect |
| grid-adjustment.py:442 | the duplicate check reads `o['price']` of each element of `buy_orders + new_buy_orders`, but `buy_orders` holds bare floats (grid-adjustment.py:315), so the check raises; the same holds for sells at line 460. When the level is taken, the loop repeats it forever | one exchange buy at 0.9957 and two exchange sells, price 1.0000: the buy loop is entered and raises before placing anything | compare with the prices of both lists, and stop at a taken level | not executed | WorkerAdjust.BalanceAsWrittenAgrees, WorkerAdjust.BalanceFindingExample | WorkerAdjust.BalanceEffect, WorkerAdjust.Balanced |
