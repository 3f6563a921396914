# A verified model of the matching engine

This project models the matching engine under `server/` in Dafny and proves what its parts promise: the order book
with its price trees, queues, id maps and iceberg orders; the red-black tree; the reader/writer lock and the
reclamation of retired nodes; the FIX printer and parser and the reassembly of messages from a byte stream.

## How it is built

* **Orders, queues, trees.** `Orders.dfy` and `OrderQueues.dfy` hold the order objects and the doubly linked FIFO of a
  price. `PriceTrees.dfy` and `RedBlackModel.dfy` describe red-black trees as values, with the path from a subtree to the
  root as the state of each fixup loop; `RedBlackTrees.dfy` is the pointer structure, each method of which is proved to
  leave the pointers spelling out the tree the values say. `RepairedRemoval.dfy` is removal with a null child counted as
  black.
* **Matching.** `Matching.dfy` has one side of the book as a ladder of price levels, best first, and one round of the
  matching loop. The bodies of `matchBuyOrder` and `matchSellOrder` differ only in the direction of price, so both are one
  definition with the resting side as parameter; `Mirroring.dfy` writes the two bodies out one by one, proves that both
  are instances of it, and that buying and selling are mirror images. `MatchingLaws.dfy` proves what whole matches do,
  `PriorityQueues.dfy` compares them with an independent account of price-time priority, `Cancelling.dfy` treats
  cancellation, `DepthCounters.dfy`, `TruthfulDepth.dfy` and `TruthfulQueues.dfy` the published quantities (`PlainBooks.dfy`
  has the books in which nothing is hidden), `RepairedCounters.dfy` the engine with either counter repaired.
* **The book.** `Books.dfy` has the book as a value with its history, and what every run of submissions, cancellations and
  clears keeps. `Shelves.dfy`, `BookSides.dfy` and `OrderBooks.dfy` are the book in memory; `OrderBooks.OrderBook` is
  proved to do to trees, queues, links, counters and id maps exactly what `Books` says.
* **Concurrency.** `SpinLocks.dfy` and `HazardPointers.dfy` are step machines, one sequentially consistent atomic action a
  step, for any number of threads; `BookReaders.dfy` puts the book behind the lock. `HazardPointers.HazardPointerManager`
  is the manager without interference.
* **The wire.** `FixCodec.dfy` prints and parses messages, `Framing.dfy` cuts a stream into messages, `OrderEntry.dfy`
  turns messages into orders.

Methods on the heap hide all definitions and are proved from the contracts of what they call; the small lemmas around
them open one definition each.

## Where the code and its intent differ

* *Aggressive icebergs.* The loop guard counts hidden quantity, the traded quantity does not, and nothing replenishes the
  incoming order. `MatchingLaws.TerminationCondition` says exactly when the loop ends; operations on the book are stated
  for orders for which it does. If what crosses equals the peak, the order rests showing nothing: `Books.EveryoneShows`
  for one submission, `Books.RunShows` for runs. `MatchingLaws.SpinsForEver` and `Books.RestsUnseen` are instances.
* *Published depth.* On replenishment the delta takes off the whole old peak. `DepthCounters.MatchGap` and
  `TruthfulDepth.RunLedger` give the exact drift, `TruthfulDepth.AddStaysTruthful` says when there is any, and
  `RepairedCounters` that subtracting the traded quantity would do.
* *Queue quantity.* Fills do not reduce the counter from which best-bid and best-ask quantities are read
  (`DepthCounters.QueueDrifts` is an instance). `TruthfulQueues.QueueDrift` gives the drift over a match, and
  `TruthfulQueues.RunKeepsQueues` says when there is any; `RepairedCounters` has the counter reduced by fills.
* *Deletion.* The fixup is skipped when the spliced child is null, so taking out a black leaf breaks equal black heights
  and nothing else (`RedBlackModel.RemoveBalance`). The fixup also passes over a sibling whose far child is null. With
  null counted as black in both places, every removal keeps them (`RepairedRemoval.RemoveMendedKeeps`).
  `RedBlackModel.RemoveRestores` says when the code's own removal leaves them equal, in any tree a run can reach.
* *Reclamation.* Slots are read before the list is taken. Both orders are modelled: `AsWritten` and `ListFirst`, the
  repaired one. `HazardPointers.RetiredUnderSlot` says exactly when a node can be deleted under a slot that holds it.
* *Checksum.* Validation sums through `10=`. Both rules are modelled: `AsWritten` and `Protocol`, the CheckSum calculation
  of FIX 4.4 Volume 2 (session protocol).
* *Trailers.* The trailer pattern is not anchored on a preceding SOH (`Framing.PrintedMessagesRecovered`).
* The expectations at server/tests/test_iceberg.cpp:133-134 and server/tests/test_order_book.cpp:27 contradict what the code
  computes; the model follows the code.

## Assumptions

A submitted order has an id that no resting order has, and no fills; an iceberg's peak is positive. A side holds fewer
than 2^32 - 1 orders, and what the current peaks of a level have traded fits 64 bits. Counters of
levels and queues wrap at 64 and 32 bits as in the code. The order type is never consulted in matching, so the price is
always the limit. Bytes the parser reads past the end of a message are taken to be NUL, as after a C string.

## Model

| member | source | states |
|---|---|---|
| Orders.FilledTestsAgree | server/include/core/Order.h:98-110 | isFilled, isTotallyFilled and "nothing remains" are the same test on every order that can exist, and filled plus remaining is the quantity |
| Orders.FillConserves | server/include/core/Order.h:137-150 | a fill moves exactly its quantity from remaining to filled, keeps the order valid, and touches nothing else |
| Orders.ReplenishConserves | server/include/core/Order.h:124-135 | a spent peak with quantity hidden gives way to a full peak, or to all that is hidden if that is less, taken from the hidden quantity, with what was filled booked and the rest as it was; any other order stays as it is |
| Orders.Order.CreateIceberg | server/include/core/Order.h:73-82 | the created iceberg is unfilled, shows at most its peak, hides something only behind a full peak, and is valid exactly if its peak is positive |
| Orders.Order.FillVisible | server/include/core/Order.h:137-143 | the order in memory becomes the filled order value; nothing else changes |
| Orders.Order.ReplenishPeak | server/include/core/Order.h:124-135 | the order in memory does so, and the result says whether it did |
| OrderQueues.OrderQueue.PushBack | server/src/core/OrderQueue.cpp:32-50 | the links thread the old orders and then the new one, and counters and id map follow; links and map stay in step exactly if the id is new |
| OrderQueues.OrderQueue.PopFront | server/src/core/OrderQueue.cpp:52-74 | the first order leaves and the rest keep their order; on an empty queue nothing happens |
| OrderQueues.OrderQueue.Remove | server/src/core/OrderQueue.cpp:76-106 | exactly the order of the id leaves, from whatever position, and the others keep their order; an unknown id changes nothing |
| RedBlackTrees.RedBlackTree.RotateLeft | server/src/core/RedBlackTree.cpp:30-50 | the pointers spell the rotated tree, parent links included |
| RedBlackTrees.RedBlackTree.RotateRight | server/src/core/RedBlackTree.cpp:52-72 | the same, mirrored |
| RedBlackTrees.RedBlackTree.InsertFixup | server/src/core/RedBlackTree.cpp:74-120 | from a red node hung anywhere, the loop ends with the pointers spelling the recoloured and rotated tree of the pure fixup |
| RedBlackTrees.RedBlackTree.Insert | server/src/core/RedBlackTree.cpp:122-155 | a new price gets a fresh node and the pointers spell the pure insertion; a known price changes nothing |
| RedBlackTrees.RedBlackTree.Find | server/src/core/RedBlackTree.cpp:157-169 | the node of the price, or null exactly when no node has it |
| RedBlackTrees.RedBlackTree.DeleteFixup | server/src/core/RedBlackTree.cpp:232-297 | the loop ends with the pointers spelling the pure deletion fixup, from any subtree, null included; what that restores is in DelFixMends and DelFixBalance |
| RedBlackTrees.RedBlackTree.Transplant | server/src/core/RedBlackTree.cpp:171-182 | only the pointer from above and the parent of the new child change |
| RedBlackTrees.RedBlackTree.Remove | server/src/core/RedBlackTree.cpp:299-339 | the node of the price, and no other, leaves; the pointers spell the pure removal and the tree stays valid; an unknown price changes nothing |
| RedBlackTrees.RedBlackTree.GetMinimum | server/src/core/RedBlackTree.cpp:184-200 | the first node of the in-order walk, or null |
| RedBlackTrees.RedBlackTree.GetMaximum | server/src/core/RedBlackTree.cpp:191-204 | the last node of the in-order walk, or null |
| RedBlackTrees.RedBlackTree.GetSuccessor | server/src/core/RedBlackTree.cpp:206-217 | the next node of the in-order walk, or null at its end |
| RedBlackTrees.RedBlackTree.GetPredecessor | server/src/core/RedBlackTree.cpp:219-230 | the previous node of the in-order walk, or null at its start |
| RedBlackTrees.RedBlackTree.TraverseInOrder | server/src/core/RedBlackTree.cpp:341-355 | calls back on all nodes in price order, once each |
| RedBlackTrees.RedBlackTree.TraverseReverseInOrder | server/src/core/RedBlackTree.cpp:345-363 | calls back on all nodes in the reverse order, once each |
| RedBlackModel.InsertKeeps | server/src/core/RedBlackTree.cpp:74-155 | insertion puts the node in its sorted place, keeps search order, no-red-red and the black root, and keeps equal black heights where they were |
| RedBlackModel.RemoveKeeps | server/src/core/RedBlackTree.cpp:232-339 | removal takes out exactly the node of the price and keeps search order, no-red-red, the black root and the size |
| RedBlackModel.SuccessorTakesPlace | server/src/core/RedBlackTree.cpp:299-339 | a node with at most one child gives its place to that child, one with two gives place, colour and left subtree to the next node of the walk |
| RedBlackModel.DelFixMends | server/src/core/RedBlackTree.cpp:232-297 | from any subtree that is not null and one black node short in an otherwise red-black tree, the loop restores search order, no-red-red, the black root and equal black heights, and moves nothing in the walk |
| RedBlackModel.DelFixBalance | server/src/core/RedBlackTree.cpp:232-297 | it leaves equal black heights exactly when that one black node was all that was missing |
| RedBlackModel.RemoveBalance | server/src/core/RedBlackTree.cpp:232-339 | removal keeps equal black heights if and only if it does not take out a black leaf that is not the root, for every red-black tree |
| RedBlackModel.RemoveRestores | server/src/core/RedBlackTree.cpp:232-339 | for every tree a run can reach, balanced or not: removal leaves a red-black tree if and only if black heights are equal apart from the node taken out, and, where the loop runs, its subtree lacks just that node |
| RedBlackModel.NullSiblingClimbs | server/src/core/RedBlackTree.cpp:232-297 | a tree in which the loop raises a red sibling, finds a null in its place and climbs past it, and what becomes of it |
| RedBlackModel.NullFarChild | server/src/core/RedBlackTree.cpp:245-262 | a tree in which the black sibling has a null far child: it is lifted without being straightened |
| RedBlackModel.UnbalancedRun | server/src/core/RedBlackTree.cpp:232-339 | inserting 1, 2, 3, 4 and removing 4 and 1 leaves unequal black heights |
| RedBlackModel.RunKeeps | server/src/core/RedBlackTree.cpp:74-339 | over every run of insertions and removals the tree is a search tree with no red-red and holds exactly the prices a set would; insert-only runs stay red-black with 2^(height/2) <= size + 1 |
| RedBlackModel.RedBlackHeight | server/src/core/RedBlackTree.cpp:74-155 | 2^(height/2) <= size + 1 in every red-black tree |
| RepairedRemoval.RemoveMendedKeeps | server/src/core/RedBlackTree.cpp:232-339 | with a null child counted as black, removal keeps the red-black invariant in full for every tree and price, and it is what the code does exactly where the code keeps equal black heights |
| RepairedRemoval.RunMendedKeeps | server/src/core/RedBlackTree.cpp:74-339 | with that repair, every run of insertions and removals stays red-black, with 2^(height/2) <= size + 1 |
| Matching.StepKeeps | server/src/core/OrderBook.cpp:139-197 | one round keeps the ladder well-formed and moves the traded quantity out of the crossing liquidity and into the taker |
| Matching.StepLive | server/src/core/OrderBook.cpp:139-197 | a live loop stays live, and each round trades something or revives a resting order that shows nothing |
| MatchingLaws.TerminationCondition | server/src/core/OrderBook.cpp:138-260 | the matching loop ends if and only if the taker hides nothing or what crosses it does not exceed what it shows |
| MatchingLaws.NotLiveRuns | server/src/core/OrderBook.cpp:139-197 | otherwise it is still enabled after any number of rounds |
| MatchingLaws.SpinsForEver | server/src/core/OrderBook.cpp:139-197 | an iceberg for 20 showing 10 against a plain order for 15: a match that never ends |
| MatchingLaws.FillCompleteness | server/src/core/OrderBook.cpp:138-260 | the taker is filled by the smaller of what it shows and all crossing liquidity, hidden quantity included, however many peaks that takes; for a plain order, what it shows is its quantity |
| MatchingLaws.NothingCrossesAfter | server/src/core/OrderBook.cpp:138-260 | a taker with quantity left meets no crossing price |
| MatchingLaws.MatchConserves | server/src/core/OrderBook.cpp:138-273 | over a whole match every id gains the fills its trades name, both sides gain the same total, and no order is lost or duplicated |
| MatchingLaws.MatchTrades | server/src/core/OrderBook.cpp:138-273 | trades carry consecutive ids and the taker, stay within its limit, and their prices never improve |
| MatchingLaws.MatchTradesSomething | server/src/core/OrderBook.cpp:150-156 | where every resting order shows something, every trade of a match is for a positive quantity |
| MatchingLaws.MatchUsesBestFirst | server/src/core/OrderBook.cpp:138-260 | what is left of the ladder is a suffix of it, with at most its first level changed: no worse level is touched before a better one is gone |
| MatchingLaws.MatchRetires | server/src/core/OrderBook.cpp:158-196 | every resting order retired by a match is valid and has nothing left |
| PriorityQueues.MatchRefinesQueue | server/src/core/OrderBook.cpp:138-260 | round for round, the ladder with its levels and counters does what one queue sorted by price and time does, where a new peak goes behind all orders of its price: same orders waiting, same trades, same retirements; both stop together |
| Books.AddServes | server/src/core/OrderBook.cpp:81-128 | the trades and the book after a submission are those of that independent matcher, served to the end; the sequence number goes up by one |
| PriorityQueues.AddInserts | server/src/core/OrderBook.cpp:275-285 | resting an order inserts it in that queue behind every order its price does not beat |
| PriorityQueues.AddKeeps | server/src/core/OrderBook.cpp:275-285 | the ladder stays well-formed, and its best price is the better of the two |
| Cancelling.RemoveDrops | server/src/core/OrderBook.cpp:287-326 | cancelling takes exactly the order of the id out of the queue and keeps the ladder well-formed |
| Cancelling.CancelUndoesAdd | server/src/core/OrderBook.cpp:275-326 | cancelling a rested order with a new id restores levels, queue order and all counters |
| DepthCounters.SettleGap | server/src/core/OrderBook.cpp:158-196 | one round lets the published depth of the level drift by minus what the replenished peak had traded before its last trade, on 64 bits, and not at all without a replenishment |
| DepthCounters.TruthfulRound | server/src/core/OrderBook.cpp:169-179 | a truthful level stays truthful if and only if no peak that had been traded before is replenished |
| DepthCounters.MatchGap | server/src/core/OrderBook.cpp:138-260 | the drift over a whole match, told from the book before it: what the peaks the taker finishes at the price had traded before |
| DepthCounters.MatchOutlasts | server/src/core/OrderBook.cpp:138-260 | a level is left after a match if and only if it does not cross or the taker shows less than is open up to and including it |
| DepthCounters.ForgoneIff | server/src/core/OrderBook.cpp:169-179 | the drift is not zero if and only if some order has hidden quantity and a peak that had traded, and what is shown up to and including it does not exceed what the taker has left to show |
| DepthCounters.AtLevel | server/src/core/OrderBook.cpp:138-260 | what a taker forgoes on level i, and whether the level is left, in terms of all that is open on the levels before it |
| DepthCounters.DepthDrifts | server/src/core/OrderBook.cpp:169-179 | a concrete level whose depth falls behind |
| DepthCounters.SettleQueueGap | server/src/core/OrderQueue.cpp:32-74 | one round lets the counter of the queue drift by every fill, less every new peak |
| DepthCounters.SettleQueueExact | server/src/core/OrderQueue.cpp:32-74 | a round keeps that drift if and only if the traded quantity equals the new peak, on 64 bits |
| DepthCounters.MatchQueueGap | server/src/core/OrderBook.cpp:138-260 | no match moves the counter of a queue, so over a whole match it drifts by exactly what its orders show less, and is kept if and only if they show as much as before, on 64 bits |
| DepthCounters.QueueDrifts | server/src/core/OrderQueue.cpp:32-74 | a concrete queue whose counter stays at what was there before a fill |
| DepthCounters.JoinGap | server/src/core/OrderBook.cpp:275-285 | resting an order changes neither drift |
| DepthCounters.LeaveGap | server/src/core/OrderBook.cpp:299-306 | cancelling an order changes neither drift |
| TruthfulDepth.PlainRunTruthful | server/src/core/OrderBook.cpp:47-65 | over every run in which no submitted order hides quantity, plain orders among them, the published depth of each level is the sum of what its orders show, on 64 bits |
| TruthfulDepth.AddStaysTruthful | server/src/core/OrderBook.cpp:81-128 | a truthful book stays truthful when an order is added if and only if the order finishes no peak that had traded, with more hidden, on a level it does not use up: a condition on the book before the call |
| TruthfulDepth.RunStaysTruthful | server/src/core/OrderBook.cpp:47-65 | over every run, icebergs included, the depth is truthful all along if and only if no submission does so |
| TruthfulDepth.RunLedger | server/src/core/OrderBook.cpp:47-65 | over every run, icebergs included, each level is off on 64 bits by exactly the ledger of its price, which adds what each submission forgoes there and is cleared when the level goes |
| RepairedCounters.SettleTradedKeeps | server/src/core/OrderBook.cpp:158-196 | the repaired update of either counter keeps how far it is off for every level through a round, and changes nothing else |
| RepairedCounters.RunAlike | server/src/core/OrderBook.cpp:81-326 | with either repair every run does what the code does, with that counter of each level counted anew |
| RepairedCounters.TradedQuantityWouldDo | server/src/core/OrderBook.cpp:47-65 | so over every run, icebergs included, the repaired depth, or the repaired queue quantity, is truthful, and trades, queues and retirements are those of the code |
| TruthfulQueues.MatchTakes | server/src/core/OrderBook.cpp:138-260 | told from the book before it: of each level that is left a match takes exactly what the taker has left to show after the better levels, and shows anew what its queue shows anew in serving that much; a level it takes nothing from stays as it is |
| TruthfulQueues.QueueDrift | server/src/core/OrderBook.cpp:138-260 | the queue counter of a level that is left drifts by what was taken there less what was shown anew, and is kept if and only if the two are equal, on 64 bits |
| TruthfulQueues.QueueTruth | server/src/core/OrderBook.cpp:138-260 | where the level hides nothing, it drifts by exactly what was taken, and is kept if and only if that is nothing, on 64 bits |
| TruthfulQueues.AddKeepsQueues | server/src/core/OrderBook.cpp:81-128 | truthful queue counters, and with them the best bid and ask quantities, stay truthful when an order is added if and only if it takes from no level that it does not use up a quantity that the queue does not show anew: a condition on the book before the call |
| TruthfulQueues.RunKeepsQueues | server/src/core/OrderBook.cpp:349-365 | over every run, icebergs included, the queue counters are truthful all along if and only if no submission does so |
| TruthfulQueues.PlainRunKeepsQueues | server/src/core/OrderBook.cpp:349-365 | where no submitted order hides quantity, if and only if no submission trades on a level that it does not use up |
| Mirroring.MatchMirrors | server/src/core/OrderBook.cpp:138-260 | with sides swapped and prices negated, the sell loop yields the mirrored trades and the mirrored book of the buy loop, round for round |
| Mirroring.MirrorsStop | server/src/core/OrderBook.cpp:138-260 | and the two loops end together |
| Mirroring.BuyRoundIs | server/src/core/OrderBook.cpp:139-197 | the loop body of matchBuyOrder, written out branch by branch, is the round used throughout for a buy |
| Mirroring.SellRoundIs | server/src/core/OrderBook.cpp:201-259 | the loop body of matchSellOrder, written out on its own, is the round used throughout for a sell |
| Mirroring.SellMirrorsBuy | server/src/core/OrderBook.cpp:138-260 | the sell loop on the mirrored book is, round for round, the mirror image of the buy loop, and ends with it |
| Books.AddKeepsBook | server/src/core/OrderBook.cpp:81-128 | adding an order leaves well-formed ladders and the best bid strictly below the best ask |
| Books.CancelKeepsBook | server/src/core/OrderBook.cpp:287-326 | so does cancelling one, which takes just that order out of its queue, leaves the other side and the trades alone, and raises the sequence number by one |
| Books.AddThenCancel | server/src/core/OrderBook.cpp:81-128 | adding an order that crosses nothing and cancelling it restores levels, queues and counters of the whole book, as a value, but for the sequence number |
| OrderBooks.AddThenCancel | server/src/core/OrderBook.cpp:81-326 | the same in memory: both id maps and the orders that rest are the very ones there were |
| Books.SubmitKeepsSound | server/src/core/OrderBook.cpp:81-128 | a submission keeps a history sound: ids of resting orders apart, each submission resting or retired once, fills of every id and of both sides equal to the trades |
| Books.CancelKeepsSound | server/src/core/OrderBook.cpp:287-326 | so does a cancellation |
| Books.ClearKeepsSound | server/src/core/OrderBook.cpp:13-28 | so does clearing the book |
| Books.RunKeepsSound | server/src/core/OrderBook.cpp:81-326 | so does every run of the three, so in no reachable book do prices cross |
| Books.OrderAccounted | server/src/core/OrderBook.cpp:262-273 | in every sound history an order whose id was used once was filled by exactly the trades that name it, and filled plus remaining is its quantity, resting or retired |
| Books.EveryoneShows | server/src/core/OrderBook.cpp:110-120 | where every resting order showed something, this is still so after an order was added, except if and only if an iceberg met liquidity equal to its peak |
| Books.RestsUnseen | server/src/core/OrderBook.cpp:110-120 | an iceberg for 20 showing 10 against a plain order for 10: it rests and shows nothing |
| Books.RunShows | server/src/core/OrderBook.cpp:81-326 | over every run, every resting order shows something all along if and only if no submission comes to rest with its peak spent |
| Books.RunTradesSomething | server/src/core/OrderBook.cpp:81-326 | over every run in which no submission does so, every trade is for a positive quantity |
| BookSides.UpdatePriceLevel | server/src/core/OrderBook.cpp:47-65 | the counters of the level change by the deltas on 64 and 32 bits, an emptied level leaves the tree, and all other levels stay; where the price has no level, nothing happens |
| BookSides.GetOrCreateQueue | server/src/core/OrderBook.cpp:30-37 | the queue of the price; a price without one gets a node in its sorted place and an empty queue |
| BookSides.SettleFront | server/src/core/OrderBook.cpp:158-196 | the branches after a trade turn the best level in memory into the one the pure round computes; a resting order that leaves is retired, one that stays is partially filled |
| BookSides.RestOrder | server/src/core/OrderBook.cpp:275-285 | one side in memory becomes the ladder with the order added, its tree, queues and links intact |
| BookSides.Withdraw | server/src/core/OrderBook.cpp:299-306 | one side in memory becomes the ladder without the order, its tree, queues and links intact |
| OrderBooks.OrderBook.IndexAgreement | server/src/core/OrderBook.cpp:275-326 | in every valid book an id is in both maps exactly if it is that of an order in a queue, and then of one order in one queue, on the side and at the price the maps say |
| OrderBooks.OrderBook.LevelsAgree | server/src/core/OrderBook.cpp:30-65 | every level has its queue, at least one order, orders of its side and price only, and counters equal to the length of the queue |
| OrderBooks.OrderBook.ExecuteTrade | server/src/core/OrderBook.cpp:262-273 | both orders are filled, the counter advances, and the callback sees the trade |
| OrderBooks.OrderBook.MatchRound | server/src/core/OrderBook.cpp:150-196 | the loop body in memory is one pure round: levels, taker, trade, retirements and id maps; of the orders that were there, those that left are retired, those that stayed keep their mark and are as they were or partially filled |
| OrderBooks.OrderBook.MatchAgainst | server/src/core/OrderBook.cpp:138-260 | the loop in memory ends in the state of the pure loop, whichever side rests, with the orders marked likewise |
| OrderBooks.OrderBook.MatchBuyOrder | server/src/core/OrderBook.cpp:138-198 | a buy order in memory is matched as the pure loop matches it; the bids stay as they were |
| OrderBooks.OrderBook.MatchSellOrder | server/src/core/OrderBook.cpp:200-260 | a sell order likewise; the asks stay as they were |
| OrderBooks.OrderBook.AddOrderToBook | server/src/core/OrderBook.cpp:275-285 | the order joins its side of the book, and it alone both id maps |
| OrderBooks.OrderBook.AddOrder | server/src/core/OrderBook.cpp:81-128 | trees, queues, links, counters and id maps together become what the operation on values gives, with its trades and retirements; the order is what matching leaves of it: active, or retired as filled or rejected; of the orders that rested, those that left are retired, those that stayed keep their mark and are as they were or partially filled |
| OrderBooks.OrderBook.CancelOrder | server/src/core/OrderBook.cpp:287-326 | the same for a cancellation, which takes just that order out of the book and that id out of both maps, marks it cancelled and retired, and leaves every other order as it was; false, and nothing changed, exactly when no resting order has the id |
| OrderBooks.OrderBook.Clear | server/src/core/OrderBook.cpp:13-28 | the book is empty, its counters start again, and every order that rested is retired |
| OrderBooks.OrderBook.GetSnapshot | server/src/core/OrderBook.cpp:382-415 | the best levels of both sides, best first, at most the given number, as the counters have them |
| OrderBooks.OrderBook.GetBestBid | server/src/core/OrderBook.cpp:337-341 | the price of the best bid level, or 0 |
| OrderBooks.OrderBook.GetBestAsk | server/src/core/OrderBook.cpp:343-347 | the price of the best ask level, or 0 |
| OrderBooks.OrderBook.GetBestBidQuantity | server/src/core/OrderBook.cpp:349-356 | the counter of the best bid queue, which fills do not reduce |
| OrderBooks.OrderBook.GetBestAskQuantity | server/src/core/OrderBook.cpp:358-365 | the counter of the best ask queue |
| OrderBooks.OrderBook.FindOrder | server/src/core/OrderBook.cpp:328-335 | the order the id map holds, which is the resting order of the id, or null exactly when there is none |
| SpinLocks.StepKeepsInv | server/include/concurrent/SpinLock.h:60-88 | every atomic action of every thread keeps the invariant of the reader/writer lock |
| SpinLocks.MutualExclusion | server/include/concurrent/SpinLock.h:60-88 | for any number of threads and any schedule: never two writers, never a reader beside a writer, and readers_ counts the threads between increment and decrement |
| SpinLocks.ReaderEnters | server/include/concurrent/SpinLock.h:60-71 | while no writer holds the flag, each move of a reader takes it one of four stages on, whatever other threads do in between, and the last one lets it in, after all that was admitted |
| SpinLocks.ReadsAlone | server/include/concurrent/SpinLock.h:60-75 | alone with the flag clear, a reader is in after three moves, sees the data as it is, and leaves the lock as it was |
| SpinLocks.WritesAlone | server/include/concurrent/SpinLock.h:77-88 | alone with the flag clear and no reader counted, a writer gets in, performs its operation whole, and leaves the lock as it was |
| SpinLocks.ReaderSeesWritten | server/include/concurrent/SpinLock.h:60-88 | a run in which one thread writes and another then sees what it wrote |
| SpinLocks.FlagKeepsOut | server/include/concurrent/SpinLock.h:60-84 | under a writer's flag readers and writers spin, a reader that has counted itself takes itself off the count and spins, and the writer waits while readers are counted |
| SpinLocks.WriterBackoffBounded | server/include/concurrent/SpinLock.h:60-88 | once a writer has set its flag, all other threads together make at most three more moves each on readers_ before its next load lets it in |
| SpinLocks.ReadersSeePrefixes | server/include/concurrent/SpinLock.h:60-88 | all a read-locked section sees is the data after a prefix of the whole write-locked operations, in the order the lock admitted them |
| SpinLocks.ReadersSeeInvariants | server/include/concurrent/SpinLock.h:60-88 | so a reader sees what every whole operation keeps |
| SpinLocks.SpinExclusion | server/include/concurrent/SpinLock.h:14-28 | no two threads ever hold the plain spin lock |
| SpinLocks.SpinTakes | server/include/concurrent/SpinLock.h:14-28 | with the flag clear a thread that asks or spins has the plain lock in two moves, giving it back clears the flag, and while the flag is set a thread spins |
| BookReaders.ReadersSeeSoundBooks | server/src/core/OrderBook.cpp:328-415 | every query under the read lock sees the book after a prefix of the submissions, cancellations and clears, hence a sound and uncrossed one |
| HazardPointers.StepKeepsInv | server/include/concurrent/HazardPointer.h:53-116 | every atomic action of retirers, publishers and concurrent scanners keeps the invariant, in the code as written and with the list taken first |
| HazardPointers.DeletedAtMostOnce | server/include/concurrent/HazardPointer.h:66-116 | in every run each retirement is in exactly one place: the shared list, one scanner, or deleted; so a node retired once is deleted at most once |
| HazardPointers.DeletionSpares | server/include/concurrent/HazardPointer.h:75-116 | no scan deletes a node that a slot held throughout it, nor one that was published before it was retired if it was retired before the scan began; with the list taken first, none published before its retirement |
| HazardPointers.ProtectionExact | server/include/concurrent/HazardPointer.h:66-116 | a retired node on the shared list, under a slot that holds it, can be deleted with the slot still holding it if and only if the code is as written and some scanner has passed the slot without finding the node and has yet to take the list |
| HazardPointers.RetiredUnderSlot | server/include/concurrent/HazardPointer.h:66-116 | so for every node retired in any reachable pool while a slot holds it; with the list taken first, never |
| HazardPointers.PublishedFirstYetDeleted | server/include/concurrent/HazardPointer.h:75-108 | as written, a node published and then retired while a scan is between the slots and the list is deleted under the slot that holds it |
| HazardPointers.SoloScan | server/include/concurrent/HazardPointer.h:75-116 | a scan nobody disturbs keeps what some slot holds, in its order, and deletes the rest, in both variants |
| HazardPointers.OwnerStays | server/include/concurrent/HazardPointer.h:17-64 | an acquired slot keeps its owner until it is released or a thread that does not own it publishes in it |
| HazardPointers.SlotLife | server/include/concurrent/HazardPointer.h:21-64 | a free slot is acquired and one that is owned is not; publishing makes it hold the node; unregistering makes it free and empty; nothing else changes |
| HazardPointers.HazardPointerManager.AcquireHazardPointer | server/include/concurrent/HazardPointer.h:53-64 | the first free slot, or none exactly when all are owned |
| HazardPointers.HazardPointerManager.UnregisterThread | server/include/concurrent/HazardPointer.h:43-51 | exactly the slots of the thread are cleared and freed |
| HazardPointers.HazardPointerManager.RetireNode | server/include/concurrent/HazardPointer.h:66-73 | the node goes to the back of the retired list |
| HazardPointers.HazardPointerManager.IsHazardous | server/include/concurrent/HazardPointer.h:130-137 | true exactly if some slot holds the node |
| HazardPointers.HazardPointerManager.ScanAndReclaim | server/include/concurrent/HazardPointer.h:75-116 | called alone, it splits the retired list into kept and deleted by whether a slot holds the node |
| FixCodec.AtoiDecimal | server/src/core/FIXParser.cpp:195-215 | every number, negative ones too, survives to_string and atoi |
| FixCodec.AtoiReads | server/src/core/FIXParser.cpp:183-184 | atoi skips blanks, takes a sign or none and the longest row of digits after it, and gives the number the row spells in decimal places; what follows is ignored, and an empty row is nothing |
| FixCodec.ReadsSomehow | server/src/core/FIXParser.cpp:183-184 | every text is of that form |
| FixCodec.NextOfField | server/src/core/FIXParser.cpp:195-215 | a printed field is read back with its tag, its value and what follows it |
| FixCodec.NextReads | server/src/core/FIXParser.cpp:195-215 | of any text: what stands before the first equals sign is read as the tag, what follows up to the next SOH is the value, and there is no field exactly if no SOH follows an equals sign |
| FixCodec.FindNextField | server/src/core/FIXParser.cpp:195-215 | the two scanning loops find the field the pure reader finds, or none when it finds none |
| FixCodec.CalculateChecksum | server/src/core/FIXParser.cpp:187-193 | the 8-bit sum is the sum of the bytes modulo 256 |
| FixCodec.AppendField | server/src/core/FIXParser.cpp:103-112 | the field is appended whole, or nothing where it does not fit |
| FixCodec.Serialize | server/src/core/FIXParser.cpp:97-136 | the buffer holds the pure printing for its size |
| FixCodec.MessageParts | server/src/core/FIXParser.cpp:97-136 | a message is the begin string, the length of its body, the body and the checksum, in this order |
| FixCodec.SerializedWhole | server/src/core/FIXParser.cpp:97-136 | the whole message comes out if and only if the buffer has 32 bytes and room for it; up to seven bytes short, it comes out without its trailer; with any less, nothing does |
| FixCodec.ValidateChecksum | server/src/core/FIXParser.cpp:162-185 | accepts exactly what the pure rule accepts, as written or as the protocol has it |
| FixCodec.AcceptedTrailer | server/src/core/FIXParser.cpp:162-185 | for every three digits: the protocol rule accepts them if and only if their number is, modulo 256, the sum of what precedes the trailer; the code as written, if and only if it is that sum plus 158 |
| FixCodec.AcceptsExactly | server/src/core/FIXParser.cpp:9-18 | of any bytes: accepted if and only if there are ten, the first "10=" from the seventh last byte on is followed by a number, and its C++ remainder by 256 is that of the bytes summed |
| FixCodec.NoTrailerRejected | server/src/core/FIXParser.cpp:162-174 | without "10=" from the seventh last byte on, either rule rejects |
| FixCodec.AsWrittenRejects | server/src/core/FIXParser.cpp:9-35 | as written, parsing rejects every message the printer prints |
| FixCodec.ParseMessage | server/src/core/FIXParser.cpp:9-35 | the parse loop returns the fields the pure parser returns, or a rejection when it does |
| FixCodec.RoundTrip | server/src/core/FIXParser.cpp:9-136 | with the protocol rule, printing and parsing give back the fields, for every enumeration of them and every value without SOH, with tags 8, 9 and 10 added |
| Framing.FrameSplits | server/src/net/TCPServer.cpp:126-156 | framing what has arrived and then the rest together with the leftover is framing all of it |
| Framing.SearchIs | server/src/net/TCPServer.cpp:132-137 | the trailer found is the first 10=ddd and SOH from the given byte on, or there is none |
| Framing.FrameIs | server/src/net/TCPServer.cpp:126-156 | the framing of a stream is the one way to write it as messages, each with its first trailer at its end, and a rest without one; no byte is lost |
| Framing.ChunkingIrrelevant | server/src/net/TCPServer.cpp:113-157 | however a stream is cut into reads, messages and leftover are those of the whole stream |
| Framing.Recovered | server/src/net/TCPServer.cpp:126-156 | concatenated messages come out as they went in if and only if each has its first trailer pattern at its end |
| Framing.IntactMessage | server/src/net/TCPServer.cpp:132-137 | a printed message has it there if and only if none of its fields ends like a trailer |
| Framing.LookalikeFields | server/src/net/TCPServer.cpp:132-137 | a field does so if and only if it is three digits under a tag that ends in 10, or its value ends in 10=ddd |
| Framing.MaxShowSplits | server/src/net/TCPServer.cpp:132-137 | a message whose tag 210 holds 100 does not come out whole |
| Framing.PrintedMessagesRecovered | server/src/net/TCPServer.cpp:113-157 | printed messages sent one after the other and read in any pieces come out as they went in if and only if none of their fields ends like a trailer |
| Framing.ClientStream.Receive | server/src/net/TCPServer.cpp:119-156 | one pass of the read loop emits the framed messages of old leftover and new bytes and keeps the new leftover |
| OrderEntry.NewOrderValid | server/src/core/FIXParser.cpp:37-83 | for every field map: an order is asked for exactly if tags 11, 54, 44, 38 and 55 are there; it is valid and unfilled, with their values; it sells exactly if its side is 2 or S, and is an iceberg exactly if the number of tag 210 lies strictly between 0 and that of tag 38, showing that much |
| OrderEntry.StrtoullReads | server/src/core/FIXParser.cpp:54-70 | strtoull reads like atoi, but a number of 64 bits or more becomes the largest one, and the negative of any other wraps around |
| OrderEntry.OrderRoundTrip | server/src/core/FIXParser.cpp:37-83 | an order, plain or iceberg, survives being printed and parsed with the protocol rule |
| OrderEntry.OrderStaysWhole | server/src/net/TCPServer.cpp:132-137 | the message of an order stays whole in a stream if and only if the order is no iceberg showing 100 to 999 and neither symbol nor price text ends like a trailer |

## Left out

- OrderBooks.OrderBook.AddOrder: stated for submissions whose matching ends, which is every plain order and every iceberg that hides nothing or meets no more than it shows; for the others the loop of the code runs forever, as `MatchingLaws.NotLiveRuns` proves of the pure loop.
- BookReaders.ReadersSeeSoundBooks: takes each write-locked section to perform its operation as a whole sequence of writes; the writes of one operation are not those of the class in `OrderBooks`.
- OrderEntry.OrderRoundTrip: how price text is read is a parameter, taken to give back the price of the order; the conversion itself goes through floating point.
- OrderBooks.OrderBook.MatchAgainst: in memory the two loops are one method with the resting side as parameter; that the two bodies of the program are instances of one round is proved on values, in `Mirroring`.
- HazardPointers.HazardPointerManager.ScanAndReclaim: the deleter is not called but recorded, and no other thread runs in between; interleavings are in the step machine of the same module.
- Weak memory orderings: locks and slots take sequentially consistent steps.
- Lifetime of orders after the book lock is released, and the raw pointer `findOrder` returns: an order is resting or retired, and the memory behind it is not modelled.
- Locks inside queues, which the book lock already serialises; the guard objects; `tryLock`; `tryScanAndReclaimIfFull`.
- Order and snapshot callbacks, timestamps and symbols in the book: trade callbacks are a log of trades, the others are left out.
- Trade ids and sequence numbers wrap at 64 bits in the code; here they are unbounded.
- The order in which `clear` retires orders, which is that of a hash map; the log has them in book order.
- `safeRemove`, `safeNext`, `find` and `clear` of the queue: the book does not use the first three, and the last runs only on queues already empty or being destroyed.
- Price text to number and number to price text, which go through floating point: prices are integers, and how price text is read is a parameter.
- `buildExecutionReport`, `parseCancelOrder`, `getMsgType`: they would add only easy members.
- Overflow of `atoi`, which is undefined in C++.
- Sockets, threads, accept and broadcast loops, JSON and WebSocket framing, and everything under `frontend/`.
