# Verification of the arbitrage engine's core

A Dafny model of the engine's detection, capital and execution core, with proofs of the properties its
comments and design notes rely on. `dafny verify dfyconfig.toml` checks the whole project.

## What is modelled

| modules | repository part |
|---|---|
| `Walks`, `Relaxation`, `BellmanFord`, `NegativeCycles`, `ToleranceGaps`, `CycleSpec`, `CycleSearches`, `CurrencyGraphs`, `Pricing`, `Rotations` | the currency graph: Bellman-Ford with its tolerance, bounded backtracking search, cycle profit |
| `Universe`, `Triangular`, `TriangularScan`, `Rescan`, `UnsizedRoutes` | the asset universe, the triangular venue scan, re-pricing of a detected route, what becomes of its findings |
| `Books`, `BookDiffs`, `DepthWalk`, `BookStores` | order books: snapshots, diffs, the depth walk, the shared table with its index |
| `Inventory`, `Routing`, `RiskLedger`, `Risk`, `RiskHistory`, `Sizing`, `Reverify`, `ReverifyLaws`, `Execution`, `Engine`, `Fills`, `PairFills`, `Settlement` | balances, the router, the risk manager, the executor and the select/execute/settle tick |
| `Routes`, `CrossVenue`, `Amm`, `Scheduler` | route de-duplication, the venue-pair scans, pool arithmetic, poll due times |
| `Collections`, `Sorting`, `Symbols` | insertion-ordered dictionaries, Python's stable sort, `BASE/QUOTE` symbols and opportunities |

Objects that the source updates in place are classes here (`CurrencyGraph`, `CycleSearch`, `OrderBook`,
`BookStore`, `InventoryManager`, `Router`, `RiskManager`, `Executor`, `TradingEngine`), and each of their methods
is tied to a function of the state it starts from; the theorems are about those functions and about runs of the
methods. Loops that compute lists or totals are methods with the same loops.

Floats are reals; `math.inf` is the value `Infinite` of `Extended`. The logarithm is a parameter `negLog`, together
with an exponential `exp`. Searching a graph assumes nothing about them; statements about profit assume `Lawful`: products go to
sums, the order is reversed, and `exp` undoes `negLog`. A Python `dict` is a key sequence plus a map, and `sorted`
is a stable insertion sort. What the program learns from outside (books, calendar dates, venue fees and minimums,
the outcome of each leg's order, wake-up times) is a parameter.

## Where the code does less than its comments say

* Bellman-Ford relaxes only by more than `1e-12`, so it does not find "any" negative cycle. It answers exactly when as
  many passes as there are nodes still change a label in the last one (`Answers` in `Relaxation`). In terms of the
  reachable simple cycles: it answers if one of k edges weighs less than -k times the tolerance, and it never answers if
  none weighs less than minus the tolerance (`AnswerBracket`). Between the two bounds the weights of the cycles do not
  decide: `GapUndetermined` has two graphs with the same only cycle, of which one is answered and the other is not.
  `MissedCycle` is a self-loop that is always missed, and `ExactWithoutTolerance` shows that the tolerance is the only
  reason.
* `can_trade` compares each leg's venue with its cap separately, while `commit` adds the size once per leg. The gate
  protects every venue cap exactly for routes that visit no venue twice (`VenueCapSafeIffNoRepeat`).
* The day roll clears the deployed totals. Over a whole run they equal what is in flight at every moment exactly when
  every roll finds nothing in flight (`ExactIffQuietRolls`); otherwise a later completion frees another trade's capital
  (`RollUndercounts`). They never exceed what is in flight, and are exact again whenever nothing is. The tick loop
  awaits each trade, so at most one is in flight there (`HandledNeutral`).
* `reverify_profitability` prices only what each leg can fill. Its result falls with size at all sizes exactly when the
  sell book is no deeper than the buy book (`SizeMonotoneIffDepth`). With a deeper sell side it can exceed the detected
  profit (`AboveDetected`).
* The loop settles whenever the log grew, and main.py:752-754 calls that "the balance the fill actually moved". What is
  settled depends only on the opportunity: not on the mode, the size traded, or which orders filled (`SettledAlike`). It is
  what was moved exactly when, slot by slot, the route as listed nets what the executed legs net (`SettledRightIff`); at the
  listed sizes, when the failed legs would have received just what they needed in every slot (`SettledByFillsIff`). For a
  pair over two venues this means: in full exactly when no leg failed (`PairByFillsIff`); after a paper trade exactly when
  the size was not cut below the listed one (`PaperSettledIff`); after a live trade only if moreover the two prices are equal,
  because each order takes its own share of the dollars, so never for a pair that earns (`LiveSettledIff`).
  `SizedDownInput` is a 10 dollar paper trade for which 100 dollars are settled, `FailedLegInput` a live trade whose sell
  order fails and is settled and credited all the same.
* A triangular finding is never traded. Its legs carry size 0.0, so the router accepts it without reserving anything,
  and `reverify_profitability` turns down every route whose buy leg has no size: in no mode, on no books and under no
  limits does one reach the trade log (`ScannedNeverTrades`).
* `replace` neither merges equal prices nor drops empty levels. A side is a strictly ordered listing after it exactly when
  no price is repeated (`SnapshotListsIff`, and `SnapshotKeepsRepeats` for an input).
* "Every latency_arb hit is also a cross_exchange hit" holds on the markets a scan can receive exactly when the
  cross-exchange threshold is no higher, or the lag asked for is beyond the staleness bound so that there are no hits
  (`OverlapIffThreshold`). The default arguments of the two strategies satisfy this, the thresholds that `main.py` gives
  them do not: there the merge keeps, after the cross-exchange findings, exactly the latency findings below the bar of
  their symbol's group (`MergeOfGroups`).

## Model

| member | source | states |
|---|---|---|
| `CurrencyGraphs.CurrencyGraph.AddEdge` | core/graph.py:79-81 | the edge goes last in its source's list, new nodes go last in node order with the source before the destination, nothing else changes |
| `CurrencyGraphs.EdgeAddedWellFormed` | core/graph.py:79-81 | after adding an edge the graph has exactly the old edges and that one, and every edge starts where it is listed and ends at a node |
| `CurrencyGraphs.WithEdgeMeans` | core/graph.py:79-81 | its place spelled out: last in the list of its source, new nodes at the end of the node order with the source first, every other list as it was |
| `CurrencyGraphs.CurrencyGraph.FindCycles` | core/graph.py:89-151 | the result is, by non-decreasing weight, exactly what the first n edge traversals of the search report; n is the cost of the whole search, or the cap when that is less, never more than the cap, and truncation is reported exactly in the latter case |
| `CurrencyGraphs.CurrencyGraph.NegativeCycleWithin` | core/graph.py:153-208 | for any tolerance: a cycle is returned if and only if the last of n passes still changes a label; it is then a simple cycle reachable from the source whose weight is below minus the tolerance, with its own nodes and total; `None` bounds every reachable closed walk of k edges from below by -k times the tolerance |
| `CurrencyGraphs.CurrencyGraph.BellmanFordNegativeCycle` | core/graph.py:153-208 | the same for the tolerance 0.000000000001 that the code uses |
| `CurrencyGraphs.RelaxOnce` | core/graph.py:164-180 | one sweep leaves exactly the labels, predecessors and last update of the sweep function; it keeps every label accounted for by a walk or a predecessor edge, and reports no update only when no edge can improve any more |
| `CurrencyGraphs.RelaxNode` | core/graph.py:169-179 | the same for the edges of one node, each seeing the labels that the earlier ones left |
| `CurrencyGraphs.RelaxAll` | core/graph.py:159-184 | after at most one pass per node either no edge improves or some node was updated in the very last pass, the latter exactly when the pass function says so |
| `CurrencyGraphs.Land` | core/graph.py:186-192 | walking back as many predecessors as there are nodes never meets a missing predecessor and ends on a predecessor cycle |
| `CurrencyGraphs.Unwind` | core/graph.py:194-208 | the unwinding loop terminates, never meets a missing predecessor, and yields a simple cycle of negative weight |
| `BellmanFord.RelaxInv` | core/graph.py:171-176 | relaxing an edge in place keeps, for every node, the label at least what its predecessor edge offers, by more than the tolerance where the predecessor was updated later, and at most one pass ahead of it |
| `BellmanFord.PassDone` | core/graph.py:180-181 | a complete pass without an update leaves nothing to improve, one with an update leaves a node stamped with that pass |
| `BellmanFord.SettledWalk` | core/graph.py:163-181 | once nothing improves, no finite walk undercuts a label by more than the tolerance per edge |
| `BellmanFord.Landed` | core/graph.py:186-192 | a chain of predecessors longer than the number of nodes ends on a cycle, by pigeonhole |
| `BellmanFord.CycleDistinct` | core/graph.py:194-206 | the nodes of one round of a predecessor cycle are distinct |
| `BellmanFord.ExactWithoutTolerance` | core/graph.py:154 | with a zero tolerance a cycle is returned if and only if a reachable closed walk of negative weight exists |
| `BellmanFord.MissedCycle` | core/graph.py:172 | with a tolerance, a self-loop weighing between minus the tolerance and zero is a negative cycle that is never returned |
| `NegativeCycles.SimpleInside` | core/graph.py:153-154 | a closed walk that loses more than the tolerance per edge contains a simple cycle that does, reachable from the same source |
| `NegativeCycles.ClosedIffSimple` | core/graph.py:153-154 | a reachable closed walk loses weight if and only if a reachable simple cycle does |
| `NegativeCycles.AnswerBracket` | core/graph.py:172 | by the weights of the reachable simple cycles: one of k edges below -k times the tolerance is answered, without one below minus the tolerance nothing is; so where no cycle lies between the two the answer is decided, and it tells whether a negative cycle exists whenever one would lie below the first bound |
| `ToleranceGaps.GapUndetermined` | core/graph.py:163-184 | between the bounds the weights do not decide: of two graphs whose only simple cycle has two edges and loses one and a half tolerances, the search answers on one and not on the other |
| `CycleSpec.ReportsExactly` | core/graph.py:105-151 | the uncapped search reports exactly the simple cycles through the start of 3 to max_length legs with negative weight, each as often as its edges can be chosen from the adjacency lists |
| `CycleSpec.ExploreCounts` | core/graph.py:115-142 | the same count below any open path, for every completion of it |
| `CycleSpec.ChoicesUnique` | core/graph.py:119 | without repeated entries in an adjacency list that number is one |
| `CycleSpec.TraceIsExplore` | core/graph.py:115-144 | the traversals of the uncapped search, one by one, report its discoveries in order and number its cost |
| `CycleSearches.CycleSearch.Dfs` | core/graph.py:115-144 | whichever way it returns, path, assets and visited set are restored; what is added is exactly what the traversals made report, which are all of them or those up to the cap and not one more |
| `CycleSearches.CycleSearch.Traverse` | core/graph.py:122-143 | one edge counts one traversal and either closes the path, stops at a visited node, or adds what lies below it |
| `CycleSearches.CycleSearch.Descend` | core/graph.py:137-143 | pushing an edge, searching below it and popping it restores the path, and adds exactly what the traversals below the longer path report |
| `Pricing.WeightIsLogOfRate` | core/graph.py:47-52 | a finite path weight is the negative logarithm of the product of its effective rates |
| `Pricing.ProfitIsGain` | core/graph.py:64-66 | the profit percentage of a cycle is the gain of following it with one unit, and the weight is negative if and only if that unit grows |
| `Pricing.FiniteIff` | core/graph.py:47-52 | a path has a finite weight if and only if every conversion on it leaves something after its fee |
| `Rotations.RotateSimple` | strategies/triangular.py:111-112 | a simple cycle entered at another of its nodes is a simple cycle |
| `Rotations.RotateTotal` | strategies/triangular.py:111-112 | the weight of a closed path does not depend on where it is entered |
| `Rotations.SameEdgesRotate` | strategies/triangular.py:111-112 | two simple cycles with the same set of edges are rotations of each other |
| `Universe.BuildTradeableSymbols` | config/universe.py:87-108 | the listed pairs of a base and a different quote, base by base and quote by quote, each with its tier; exactly the admitted pairs that the venue lists |
| `Universe.TradeableOnce` | config/universe.py:87-108 | distinct bases and quotes give every pair once |
| `Universe.TierMeans` | config/universe.py:72-84 | the tier lists share no asset, so every asset of a list has that list's tier, and an asset of none has the lowest |
| `Universe.UniverseSplits` | config/universe.py:56-58 | every universe symbol splits at its only slash into a base and a quote of the universe |
| `Triangular.BuildVenueGraph` | strategies/triangular.py:40-61 | the graph built market by market, buying at the ask before selling at the bid: its edges are exactly the market edges of the listed symbols, which `MarketEdgeIff` reads off the books |
| `Triangular.MarketEdgeIff` | strategies/triangular.py:45-59 | an edge is a market edge if and only if its listed pair has a book on the venue that is fresh and has a positive price on both sides, and it either turns quote into base at one over the first ask or base into quote at the first bid, with the fee of the venue |
| `Triangular.EdgeIsTopTrade` | strategies/triangular.py:55-59 | at any quantity the first level holds, following the edge gives what walking its book gives after the fee |
| `Triangular.MarketGraphLists` | strategies/triangular.py:45-59 | each of those edges is listed as often as its symbol is, no other edge at all |
| `Triangular.MarketGraphOnce` | strategies/triangular.py:45-59 | distinct symbols list every edge once |
| `Triangular.CycleMeetsHub` | strategies/triangular.py:30-37 | every simple cycle of three or more legs over universe symbols visits a hub asset |
| `Triangular.SameKeyIffRotation` | strategies/triangular.py:111-120 | on one venue two simple cycles have the same de-duplication key if and only if they are rotations of each other |
| `Triangular.FoundFrom` | strategies/triangular.py:89-94 | after the profit threshold, the search from a start finds exactly the qualifying cycles that begin there |
| `Triangular.AboveThreshold` | strategies/triangular.py:90-94 | what is kept from one start is, lightest first, exactly what the capped search reports and clears the threshold; it is qualifying, and complete if and only if the search fits the cap |
| `TriangularScan.Collect` | strategies/triangular.py:88-94 | the same over every start asset that is a node of the graph, without the order |
| `TriangularScan.DropRotations` | strategies/triangular.py:113-124 | the first opportunity of each key is kept, in order, and every key is kept |
| `TriangularScan.HubsCover` | strategies/triangular.py:30-37 | the hub assets meet every qualifying cycle over universe symbols |
| `TriangularScan.AssetsCover` | strategies/triangular.py:30-37 | the set of all assets does so as well, on any graph |
| `TriangularScan.ScanIsOnePerRotation` | strategies/triangular.py:84-124 | what survives de-duplication is one cycle of every rotation class of qualifying cycles |
| `TriangularScan.SameClasses` | strategies/triangular.py:30-37 | two lists that hold one cycle per rotation class of a graph's qualifying cycles match class by class, one for one |
| `TriangularScan.SameNumber` | strategies/triangular.py:30-37 | and are equally long |
| `TriangularScan.HubsLoseNothing` | strategies/triangular.py:30-37 | when no search is cut off, the scan from the hubs and a scan from every asset report equally many opportunities, and each of one has an opportunity with the same markets, sides and profit in the other |
| `TriangularScan.ScanVenueFrom` | strategies/triangular.py:84-124 | the scan from any starts: sound always, complete exactly when every search fits the cap, then one opportunity per rotation class of the cycles the starts meet, each describing its cycle |
| `TriangularScan.ScanVenue` | strategies/triangular.py:84-124 | the scan as shipped, from the hubs with the cap of 2000, over universe symbols: there is a set of cycles, none a rotation of another, that the result describes one for one, and it has one of every qualifying class when each hub's search fits the cap |
| `UnsizedRoutes.ScannedNeverTrades` | strategies/triangular.py:96-109 | every opportunity that a scan returns quotes each leg at the best price of its book, reports one profit as gross and net and proposes the configured size; its legs have size zero, so it reserves nothing, always fits, and is never logged as a trade, whatever the mode, books, limits and dates |
| `UnsizedRoutes.UnsizedNeverTrades` | risk/manager.py:209-211 | no route whose legs have size zero is ever traded |
| `Rescan.RescanNetProfitPct` | main.py:500-554 | `None` exactly for no legs or a leg without a rate, else the gain of chaining the rates of the legs, which `LegRateIff` reads off the books |
| `Rescan.LegRateIff` | main.py:536-552 | a transfer keeps one minus its fee; a purchase times the first ask keeps one minus its fee, a sale converts at the first bid less its fee; there is no rate exactly without a book or without a positive first price on that side |
| `Rescan.UnchangedBookSameProfit` | main.py:533-554 | re-pricing a triangular opportunity on the books it was found on gives exactly its net profit, for cycles of any length |
| `Rescan.ScanSameProfit` | main.py:533-554 | the same for every opportunity that a scan of the venue returns, cut off or not |
| `Rescan.UnchangedBookAnyRotation` | main.py:533-554 | and the same wherever the cycle is entered |
| `Rescan.ThresholdImpliesGain` | strategies/triangular.py:93-94 | a positive threshold makes the search's own negative-weight filter redundant |
| `Books.BookState.VwapFillPrice` | core/book.py:53-76 | the average price and quantity of the depth walk; zeros when nothing fills |
| `Books.Merge` | core/book.py:123-138 | a side after a diff is strictly ordered, and price by price it is the diff applied: the last update of a price lists it at its size or, if that is not positive, removes it; a price without an update is listed as before |
| `Books.OrderBook.Replace` | core/book.py:97-107 | both sides become the given levels in price order, equal prices in the order they came, none dropped; no listed ask is below the best ask and no listed bid above the best bid, which are listed prices, or infinity and zero on an empty side |
| `Books.OrderBook.ApplyDiff` | core/book.py:109-145 | on both sides the last update of each price decides whether and at what size it is listed, prices without an update are listed as before, the side is strictly ordered, and the best quotes are those of its levels |
| `Books.UpdatesDecide` | core/book.py:124-133 | over any sequence of updates the last one of a price decides: a positive size is kept, any other removes the price |
| `Books.OrderedQuotes` | core/book.py:33-39 | on price-ordered sides the best ask is the least listed ask and the best bid the greatest listed bid |
| `Books.OrderedItems` | core/book.py:135-136 | sorting the items of a dictionary by price gives the strictly ordered listing of the map |
| `BookDiffs.ListingUnique` | core/book.py:109-145 | a price-to-size map has only one ordered listing |
| `BookDiffs.ReadBack` | core/book.py:121-122 | reading an ordered listing back gives the map it lists |
| `BookDiffs.RunListsFold` | core/book.py:109-145 | after any run of diffs from distinct positive levels the last update of a price over the whole run decides it, prices without one are listed as at the start, each price once and no empty level; the side lists the fold of all updates |
| `BookDiffs.DiffsCompose` | core/book.py:109-145 | two diffs in turn leave exactly the levels that their concatenation leaves |
| `BookDiffs.SnapshotListsIff` | core/book.py:97-107 | a snapshot side is a strictly ordered listing if and only if no price is repeated in it |
| `BookDiffs.SnapshotKeepsRepeats` | core/book.py:97-107 | two asks at one price both stay, and the next diff reads back only the later one |
| `BookStores.BookStore.GetOrCreate` | core/book.py:168-175 | an existing book is returned and nothing changes; a new one enters the table and the symbol index, which stays equal to a scan of the whole table |
| `BookStores.BookStore.AllForSymbol` | core/book.py:180-181 | every book of the symbol, exactly once, and no other |
| `BookStores.ScanExact` | core/book.py:148-162 | a full scan for a symbol lists each of its books once, by venue |
| `DepthWalk.FillsWhatItCan` | core/book.py:63-72 | the walk fills the smaller of the order and the displayed depth |
| `DepthWalk.WalkIsCheapest` | core/book.py:63-72 | no way of buying the same quantity from rising asks costs less than the walk |
| `DepthWalk.WalkEarnsMost` | core/book.py:63-72 | no way of selling the same quantity into falling bids earns more than the walk |
| `DepthWalk.TakesIsTheWalk` | core/book.py:66-72 | the walk itself is such a way, with exactly its quantity and cost |
| `DepthWalk.BuyingMoreCostsMore` | core/book.py:53-76 | the average price of a purchase never falls with its size, also beyond the displayed depth |
| `DepthWalk.SellingMoreEarnsLess` | core/book.py:53-76 | the average price of a sale never rises with its size |
| `DepthWalk.NoBetterThanTop` | core/book.py:53-76 | the average is never below the best ask, never above the best bid |
| `DepthWalk.BestQuoteIsFill` | core/book.py:33-39 | the best ask is the average price of any purchase that the first level fills, the best bid that of any such sale |
| `Inventory.InventoryManager.SetBalance` | execution/inventory.py:55-56 | the slot holds exactly the given balance, every other slot its old one |
| `Inventory.InventoryManager.Reserve` | execution/inventory.py:61-72 | succeeds if and only if the free balance suffices and then moves the amount to locked; otherwise nothing changes |
| `Inventory.InventoryManager.Release` | execution/inventory.py:74-80 | moves the amount, at most what is locked, back to free |
| `Inventory.InventoryManager.Settle` | execution/inventory.py:82-86 | takes the amount off locked, not below zero |
| `Inventory.InventoryManager.Credit` | execution/inventory.py:88-104 | adds a positive amount to free |
| `Inventory.InventoryManager.TotalAcrossVenues` | execution/inventory.py:106-107 | the sum of free and locked over all venues |
| `Inventory.NeverBelowZero` | execution/inventory.py:74-86 | a release moves and a settlement spends the amount, or all that is locked if that is less; a release keeps the total, a settlement the free balance, and no other slot changes |
| `Inventory.LockAllAt` | execution/inventory.py:61-72 | a list of reservations moves, in every slot, exactly its sum from free to locked |
| `Inventory.ReleaseAllAt` | execution/inventory.py:74-80 | releasing what is locked moves exactly the sum back; the minimum never bites |
| `Inventory.SettleAllAt` | execution/inventory.py:82-86 | settling what is locked spends exactly the sum; the clamp never bites |
| `Inventory.SettleAllTotal` | execution/inventory.py:82-107 | settling lowers each asset's cross-venue total by exactly the reserved sum |
| `Inventory.TotalPut` | execution/inventory.py:106-107 | writing one balance moves its asset's total by the difference and no other total |
| `Inventory.RollbackRestores` | execution/router.py:80-82 | reserving a list and releasing it gives back the very same table |
| `Routing.Router.ReserveLegs` | execution/router.py:57-70 | the legs are reserved in order, stopping at the first that cannot be funded, with exactly the earlier ones reserved; all are if and only if every slot can fund everything asked of it |
| `Routing.Router.TryAccept` | execution/router.py:57-92 | an opportunity is accepted, with its reservations stashed, if and only if it fits; a skipped one leaves the inventory exactly as it was |
| `Routing.Router.Select` | execution/router.py:44-94 | the accepted come by falling net percentage times size; each of them fits what those before it leave, and each rejected one does not fit what is left by accepted ones worth no less; the ledger is the old one with exactly the accepted locked, and the rest keep no reservation |
| `Routing.RejectedCrowdedOut` | execution/router.py:53-92 | a rejected candidate does not fit once some first accepted candidates, each of at least its percentage times size, are locked |
| `Routing.BestFitsAccepted` | execution/router.py:44-53 | the one candidate of highest percentage times size is accepted whenever it fits alone |
| `Routing.Router.ReleaseUnfilled` | execution/router.py:96-99 | every slot gets back exactly what the opportunity held; a second call changes nothing |
| `Routing.Router.SettleFill` | execution/router.py:101-132 | every asset's total changes by exactly credits minus spends; without an outstanding reservation nothing changes, so each reservation is resolved once |
| `Routing.Router.constructor` | execution/router.py:40-42 | a router over an inventory with nothing locked starts with nothing outstanding |
| `Routing.BackedLock` | execution/router.py:53-78 | accepting keeps every locked balance equal to the sum of outstanding reservations and every free balance non-negative |
| `Routing.BackedRelease` | execution/router.py:96-99 | so does releasing, in any order |
| `Routing.BackedSettle` | execution/router.py:115-121 | so does settling, in any order |
| `Routing.BackedCredits` | execution/router.py:123-132 | crediting the legs keeps this and raises each asset's total by exactly what the legs receive |
| `Routing.FitsPrefix` | execution/router.py:57-70 | reserving leg by leg succeeds exactly when the sums per slot fit, so the order of the legs does not matter |
| `Settlement.PairConserves` | execution/router.py:101-132 | a settled equal-size buy/sell pair keeps the base total, moves the quote total by size times the price difference, and touches no other asset |
| `Settlement.OtherLegs` | execution/router.py:24-34 | off a pair a leg spends its own symbol, a transfer of a pair its base, and neither receives anything |
| `RiskLedger.BeginExact` | risk/manager.py:245-253 | committing keeps deployed capital equal to the sum in flight, per strategy and per venue |
| `RiskLedger.EndExact` | risk/manager.py:265-272 | releasing any trade in flight does so too; the zero clamp never bites |
| `RiskLedger.RunKeepsCaps` | risk/manager.py:92-112 | over any interleaving of guarded begins, single ends and day rolls: nothing is recorded that is not in flight, no strategy's record exceeds its cap, and no venue's does when no route repeats a venue; the record is exact if every roll found nothing in flight, and whenever nothing is |
| `RiskLedger.AdmitsIffCapped` | risk/manager.py:92-112 | for a route that visits no venue twice the gate admits it if and only if committing it keeps its strategy and each of its venues within the configured cap, or the default one |
| `RiskLedger.QuietRunExact` | risk/manager.py:245-272 | over a run whose rolls, if any, find nothing in flight, deployed capital is exactly the sum in flight |
| `RiskLedger.ExactIffQuietRolls` | risk/manager.py:51-56 | over a whole run it is so at every moment if and only if every roll finds nothing of positive size in flight |
| `Risk.VenueCapSafeIffNoRepeat` | risk/manager.py:58-114 | the whole gate protects the venue caps in every state if and only if the route visits no venue twice |
| `RiskLedger.RollExactIffNothingInFlight` | risk/manager.py:51-56 | right after a roll deployed capital equals the sum in flight if and only if nothing of positive size is in flight |
| `RiskLedger.RollUndercounts` | risk/manager.py:51-56 | the run begin, roll, begin, end leaves one trade in flight with nothing recorded for it |
| `Risk.RiskManager.RollDayIfNeeded` | risk/manager.py:41-56 | a new date clears the day's profit, count and deployed totals, and nothing else |
| `Risk.RiskManager.CanTrade` | risk/manager.py:58-114 | allows exactly when no circuit breaker is open and, for an opportunity, its strategy and every leg's venue have room |
| `Risk.RiskManager.Commit` | risk/manager.py:245-253 | adds the size once to the strategy and once per leg to the venues |
| `Risk.RiskManager.Release` | risk/manager.py:255-272 | takes it off again, not below zero |
| `Risk.RiskManager.RecordResult` | risk/manager.py:274-301 | the state after a result, which the history laws below read as sums: its date, profit, count, failures and freed capital |
| `RiskHistory.FailuresSinceSuccess` | risk/manager.py:291-294 | over any history of checks and results the failure count is the number of results since the last success |
| `RiskHistory.DayTotals` | risk/manager.py:41-56 | the daily profit and trade count are the sum and the number of the results since the date last changed |
| `RiskHistory.OpenIff` | risk/manager.py:65-90 | from a fresh manager trading is allowed if and only if it is not stopped, the results of the date lose less than the limit in magnitude and number fewer than the trade limit, and fewer than the failure limit came since the last success |
| `RiskHistory.FailuresHalt` | risk/manager.py:85-90 | after as many failed results in a row as the limit allows nothing may trade on any date |
| `Risk.RiskManager.TriggerEmergencyStop` | risk/manager.py:303-306 | sets the stop and changes nothing else |
| `Risk.RiskManager.ClearEmergencyStop` | risk/manager.py:308-310 | clears the stop and changes nothing else |
| `Risk.RiskManager.SizeWithDepthCheck` | risk/manager.py:116-183 | the proposal cut to live depth, or zero when slippage, depth or a venue minimum declines |
| `Risk.SizeIsSafe` | risk/manager.py:116-183 | a positive size is within the proposal and the trade cap, clears every leg's venue minimum, and stays within depth and slippage |
| `Sizing.SizeIff` | risk/manager.py:116-183 | on a live book a route is sized at a positive amount if and only if that is the lesser of the proposal and what walking the book for the proposal costs, the walk stays within the slippage of the leg price, and every venue takes the amount, ten dollars where nothing is configured |
| `Sizing.SizeWithoutBook` | risk/manager.py:140-147 | without a book the size is the whole proposal if and only if every venue takes it |
| `Sizing.SizedWhole` | risk/manager.py:149-164 | a proposal that the first ask fills at the price of the leg is sized whole unless a venue declines it |
| `Reverify.ReverifyProfitability` | risk/manager.py:185-243 | profitable exactly when every leg can be priced at the scaled size and proceeds after fees exceed costs with fees; the percentage is relative to cost |
| `Reverify.LegFillIs` | risk/manager.py:220-230 | a leg without a book is priced in full at its own price, one with a book by walking the asks for a purchase and else the bids, and a walk that fills nothing cannot be priced |
| `Reverify.LegMoney` | risk/manager.py:232-237 | a bought leg costs its value and the fee on it, any other leg brings in its value less the fee |
| `ReverifyLaws.PairIsNetAt` | risk/manager.py:206-243 | for an equal-size buy/sell pair on live books the result is the net margin of the two depth walks |
| `ReverifyLaws.LargerNetsLess` | risk/manager.py:206-243 | while the buy book can fill the larger order, the larger order never nets more |
| `ReverifyLaws.SizeMonotoneIffDepth` | risk/manager.py:206-243 | net profit is non-increasing over all sizes if and only if the sell book is no deeper than the buy book |
| `ReverifyLaws.NeverAboveDetected` | risk/manager.py:206-243 | on an unchanged book a positive result never exceeds the detector's net percentage, at any size the buy side fills as far as the sell side |
| `ReverifyLaws.AboveDetected` | risk/manager.py:206-243 | an input with a deeper sell side: 1400 per cent re-verified against 50 per cent detected |
| `Settlement.FindingNotUnderstated` | strategies/cross_exchange.py:46-51 | a cross-venue finding re-verified on the books it was read from never shows more profit than it was reported with |
| `Settlement.FindingExactAtTop` | strategies/cross_exchange.py:46-51 | within both first levels, one plus the buy fee times the re-verified percentage is the reported net percentage less the sell fee times the gross one, and the gross one times the ask is a hundred times the price gap; so the report exceeds the re-verification by exactly the compounding of the fees, and equals it without fees |
| `Execution.Executor.Attempt` | execution/executor.py:127-203 | a trade is recorded exactly when the sized route still pays; one log entry and one recorded result go together |
| `Execution.Executor.Handle` | execution/executor.py:90-118 | gate, commit, attempt and hand back, for every mode and path |
| `Execution.CommitFreeNeutral` | execution/executor.py:107-118 | commit followed by release is neutral, also for routes that repeat a venue |
| `Execution.HandledNeutral` | execution/executor.py:90-118 | whichever path a trade takes, deployed capital afterwards is what it was before, or nothing if a day roll intervened |
| `Execution.HandledTradePays` | execution/executor.py:127-203 | a logged trade passed the gate, had the positive size of the depth check at 0.1 per cent slippage, and still paid; it succeeded on paper or when every order did, and then a hundred times its logged profit is the size times the re-verified percentage |
| `Execution.HandledHistory` | execution/executor.py:90-203 | handling leaves in the counters one check of the gate and, exactly when a trade is logged, one result: its logged profit as a success, or a failure at zero |
| `Execution.HandledTripped` | risk/manager.py:85-90 | with the failure breaker open nothing is logged and it stays open, across day rolls too |
| `Engine.TradingEngine.ExecuteOne` | main.py:744-767 | one opportunity is handled, then settled if it was logged and released if not |
| `Engine.SettledAlike` | main.py:752-755 | any two logged trades of one opportunity leave the same ledger, in whatever mode, at whatever size and whichever legs filled; a live one has a profit in the log exactly when all legs filled |
| `Fills.SettledRightIff` | execution/router.py:101-132 | the settled ledger is what the executed legs moved, whatever their quantities, if and only if in every slot the listed route nets what they net; a route that reserved nothing settles nothing |
| `Fills.SettledByFillsIff` | execution/router.py:101-132 | at the listed sizes it equals settling and crediting the filled legs and releasing the others if and only if in every slot the failed legs would have received just what they needed |
| `PairFills.PairSettledIff` | execution/router.py:101-132 | for a two-venue pair, if and only if both executed quantities are the listed one |
| `PairFills.PairByFillsIff` | execution/executor.py:184-203 | at the listed sizes, if and only if no leg failed |
| `PairFills.PaperSettledIff` | execution/executor.py:127-150 | after a logged paper trade of a pair, if and only if the traded size is the listed notional, that is, was not cut |
| `PairFills.LiveSettledIff` | execution/executor.py:176-215 | after a logged live trade of a pair, if and only if both orders filled, the size was not cut, and the two prices are equal |
| `PairFills.SizedDownInput` | execution/executor.py:127-150 | a logged 10 dollar paper trade whose settled ledger is not what was traded |
| `PairFills.FailedLegInput` | execution/executor.py:184-203 | a logged live trade with a failed sell order whose settled ledger is not what the fills moved |
| `Engine.TradingEngine.ExecuteAll` | main.py:744-767 | the same for all accepted opportunities in order; none stays outstanding |
| `Engine.TradingEngine.Tick` | main.py:738-767 | a tick that starts at rest ends at rest: no reservation outstanding, nothing locked, no capital deployed; without a trade every slot's holdings are unchanged |
| `Engine.MonitorOnlyChecks` | main.py:738-745 | a tick in monitor mode checks the gate once for every candidate and changes nothing but what the checks do |
| `Engine.TradingEngine.RunTicks` | main.py:738-767 | any run of ticks in any modes over any days leaves exactly the state of its ticks in turn, at rest; once consecutive failures reach the limit no later tick trades, and the failure count stays the number of failed trades at the end of the log |
| `Engine.RanDisciplined` | risk/manager.py:85-90 | over any run of ticks the failure count stays the number of failed trades at the end of the log, and no trade is logged when the limit of failures in a row has been reached |
| `Engine.NothingAfterFailures` | risk/manager.py:85-90 | as many failed trades in a row as the limit allows are the last ones in the log |
| `Engine.TradingEngine.AtRestMeans` | main.py:738-767 | at rest means no candidate holding a reservation, nothing locked and no negative free balance in any slot, and no strategy or venue with deployed capital |
| `Engine.SelectKeepsHoldings` | execution/router.py:44-94 | selection never changes free plus locked in any slot |
| `Routes.KeyIgnoresLegOrder` | main.py:463-478 | two opportunities share a route key if and only if they trade the same venue, symbol and side hops, in any order |
| `Routes.DedupeByRoute` | main.py:481-497 | one entry per route in order of first appearance, and kept plus dropped is everything offered |
| `Routes.BestOfDominates` | main.py:481-497 | no route is lost and nothing offered beats the kept entry of its route |
| `Routes.BestOfIsFirstBest` | main.py:492-496 | the kept entry is the first of the best on its route |
| `Routes.DedupeIdempotent` | main.py:481-497 | de-duplicating again changes nothing |
| `Routes.MergeKeeps` | main.py:481-497 | when every later opportunity on a route of the first list meets a no-worse one there, de-duplicating the merge keeps the first list and then the later opportunities on routes of their own |
| `CrossVenue.ScanSymbol` | strategies/cross_exchange.py:38-81 | row by row, exactly the pairs of different venues over the threshold with a positive size, one entry per route; with a minimum lag, the latency strategy |
| `CrossVenue.HitIff` | strategies/cross_exchange.py:46-63 | a pair is reported if and only if the venues differ, a hundred times the price gap is at least the ask times the threshold plus both fees in per cent, both levels and the trade cap are positive, and the lag is met if one is asked for |
| `CrossVenue.FoundSize` | strategies/cross_exchange.py:59-73 | a finding carries its strategy and symbol and the two prices; both legs trade one quantity, within both levels and worth at most the cap, and one of the three bounds is met exactly |
| `CrossVenue.Scan` | strategies/cross_exchange.py:31-36 | the same over all symbols, by falling net percentage |
| `CrossVenue.RouteNamesPair` | main.py:463-478 | a finding's route names its symbol, its buy venue and its sell venue, whichever strategy made it |
| `CrossVenue.LatencyAddsNothing` | strategies/latency_arb.py:58-99 | merged after the cross-exchange findings and de-duplicated, the latency findings all count as duplicates and the cross-exchange list is returned as it was |
| `CrossVenue.MergeOfGroups` | main.py:683-696 | with the symbols scanned in two groups at two bars and the latency scan over all of them, the merge keeps the cross-exchange findings and then exactly the latency findings below the bar of their symbol |
| `CrossVenue.OverlapIffThreshold` | main.py:466-471 | on the markets a scan can receive under a staleness bound, every latency hit is a cross-exchange hit if and only if the cross-exchange threshold is no higher or the lag asked for exceeds the bound |
| `Amm.TickIsConstantProduct` | strategies/dex_dex.py:69-99 | a single-tick swap in either direction is the constant-product swap on the reserves L/s and L*s |
| `Amm.ScaleIsPower` | strategies/dex_dex.py:90 | the scale of the fixed-point square-root price is two to the 96 |
| `Amm.InputOfOutput` | strategies/dex_dex.py:45-66 | the input needed for what a swap pays out is what was put in |
| `Amm.OutputOfInput` | strategies/dex_dex.py:45-66 | paying the input needed delivers exactly the amount asked for |
| `Amm.InfeasibleOutput` | strategies/dex_dex.py:63-64 | the input needed is infinite if and only if no input delivers the amount |
| `Amm.ReserveProduct` | strategies/dex_dex.py:45-50 | the reserve product never falls after a swap and stays the same exactly without a fee |
| `Amm.AveragePriceRises` | strategies/dex_dex.py:53-66 | the average purchase price strictly rises with size |
| `Scheduler.PollLoop` | core/rest_manager.py:344-368 | each wake-up polls exactly the symbols whose due time has come |
| `Scheduler.Spacing` | core/rest_manager.py:352-354 | two consecutive polls of a symbol are at least its interval apart and less than that plus the wake gap before the second |
| `Scheduler.NoStarvation` | core/rest_manager.py:344-368 | every symbol is polled at the first wake-up and again within its interval plus one gap for as long as the loop runs |

## Left out

- Floating-point rounding, and the numpy layout of books and matrices: levels are price and size pairs, matrices are index functions.
- ccxt clients, connections, market pruning, fee and transfer-status capture, order placement, credentials, dashboard, metrics, recorder storage and logging: input and output.
- Wall-clock reads: dates, timestamps, staleness and wake times are inputs.
- `strategies/statistical.py`, funding, basis, calendar, wrapped, depeg, cex_dex and `multi_leg`: thin formulas or outside libraries; the edge key of `multi_leg` leaves out the asset of a transfer edge, so the rotation theorem is not about it.
- `DexDexStrategy.scan` and the pool comparison around the swap formulas.
- The reconciler's unwind proposals, the note string on a partly filled trade, and the concurrency of live leg orders: each leg's outcome is an input, and all of them are known before the result is recorded.
- An exception out of sizing, re-pricing or recording inside `handle`: its `finally` branch is modelled only for attempts that return.
- `imbalance_report`, `estimate_transfer`, `select_pollable_symbols`, `build_stable_pairs`: reports and rankings beside the modelled state.
- The filters between detection and de-duplication (`is_fillable`, `is_rebalanceable`) and the cached venue matrices.
- Sharing of one `Balance` object between readers: a balance is a value that is written back.
- Dashboard edits in the middle of a tick: the mode and the limits stand still during one tick.
- Triangular.BuildVenueGraph: a usable symbol with two slashes makes the source raise while unpacking; that case is excluded, and cannot occur for universe symbols.
- TriangularScan.ScanVenue: one venue; the loop over venues and the final sort of `scan` are not modelled, and `detail` is not part of an opportunity.
- CycleSearches.CycleSearch.Dfs: recursion depth is not bounded by an interpreter limit.
- CrossVenue.ScanSymbol: asks are taken to be positive and venues distinct, as the market state builds them; fewer than two venues give no findings by the loop itself.
- Engine.TradingEngine.Tick: sizes of opportunities are non-negative and candidates are distinct and unreserved, as detection delivers them.
- Amm.TickIsConstantProduct: fees are below one; at a fee of one the source divides by zero in the input formula.
- Scheduler.PollLoop: the semaphore, the sleep and the polling itself; their effect is the sequence of wake times.
- NegativeCycles.AnswerBracket: between its bounds the cycle weights do not decide (`ToleranceGaps.GapUndetermined`); which graphs there are answered is stated only by the pass function.
- CrossVenue.OverlapIffThreshold: receivable markets have a positive bid below the ask on each venue and the lag strategy's threshold is above -100 per cent; the source checks neither.
- PairFills.LiveSettledIff: an order that fills is taken to move its whole amount at the leg's price; the source does not read the price or amount the exchange reports back.
