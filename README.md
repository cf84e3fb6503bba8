# Stock order book

A Dafny model of `StockOrderBook` from `RealTimeStockTradingEngine.java`, in its single-threaded behaviour. The model covers:

- `Order`, its constructor, and the book's constructor.
- `getTickerIndex`, `addOrder`, `insertOrder` and `matchOrder`.

The book has 1024 slots, chosen by the ticker's hash. Each slot holds two singly-linked lists of orders, each behind an atomic head reference:

- a buy list, highest price first;
- a sell list, lowest price first.

`addOrder` splices a new order into its side's list and then runs the matching loop on that slot. Each round of the loop:

- trades the smaller head quantity at the ask price;
- takes that amount off both heads;
- unlinks every head that is left at zero.

The project has three modules, one per file:

- `JavaInt` (`java_int.dfy`) covers the 32-bit `int` and the library arithmetic the book uses:
  - subtraction wraps around;
  - `Math.min` and `Math.abs` (which leaves `Integer.MIN_VALUE` negative);
  - `%`, which truncates toward zero.
- `BookSpec` (`book_spec.dfy`) models one slot as a value: two sequences of `(quantity, price)` from head to tail. On that value it defines:
  - `Insert`, where a new order is spliced in;
  - `Round`, one round of matching;
  - `Drain`, the matching loop run until it stops;
  - `Submit`, one `addOrder` on a slot;
  - `SubmitAll`, a sequence of `addOrder` calls on a slot.

  The properties of the book are proved about these functions: sortedness, ties, conservation, termination, no-cross, "only heads are touched" and idempotence.
- `Engine` (`engine.dfy`) is the heap model:
  - `Order` is a class whose `quantity` and `nextOrder` fields are updated in place.
  - `OrderChain` is the `AtomicReference<Order>` holding a list head. `compareAndSet` on it is a read, a compare and an assignment. Each chain carries a ghost sequence of its nodes.
  - `StockOrderBook` holds the two per-slot tables of chains, plus three ghost fields: the objects it owns, the log of "Matched" events (quantity and price), and the `BookSpec` view of every slot.

  Each method is proved to change the lists exactly as the corresponding `BookSpec` function says.

Three behaviours of the code shape the model:

- The code validates nothing in `addOrder`. It has no `InvalidOrder` error for non-positive quantities or prices. Positivity appears only as a hypothesis of the conservation and no-cross properties.
- Run sequentially, the code always puts a new order ahead of every resting order at the same price (`>=`/`<=` at the head, strict comparisons in the walk). The model states and proves this order.
- Quantities are Java `int`s, and `quantity -= matchedQuantity` wraps around. The model writes the wrap-around out.

## Model

| member | source | states |
|---|---|---|
| JavaInt.Wrap | RealTimeStockTradingEngine.java:87-88 | The result lies in 32 bits and is congruent to its argument modulo 2^32. It equals the argument when that is in range. |
| JavaInt.Sub | RealTimeStockTradingEngine.java:87-88 | Java `a - b` is the true difference modulo 2^32, and equals it when no overflow occurs. It is zero exactly when `a == b`. |
| JavaInt.Min | RealTimeStockTradingEngine.java:84 | `Math.min` is at most both arguments and is one of them. |
| JavaInt.Abs | RealTimeStockTradingEngine.java:42 | `Math.abs` returns `Integer.MIN_VALUE` unchanged. Any other argument gives a non-negative result of the same magnitude. |
| JavaInt.Rem | RealTimeStockTradingEngine.java:42 | Java `%` by a positive divisor satisfies Java's identity `(a / b) * b + a % b == a`, with `/` rounding toward zero. The result lies in `[0, b)` for a non-negative dividend and in `(-b, 0]` for a negative one. |
| Engine.TickerIndex | RealTimeStockTradingEngine.java:41-43 | `getTickerIndex` is a valid slot in `[0, 1024)` for every 32-bit hash, including `Integer.MIN_VALUE`. It equals the mathematical `abs(hash) mod 1024`. |
| Engine.Order.constructor | RealTimeStockTradingEngine.java:13-19 | The new order has the given side, ticker, quantity and price. It links to nothing. |
| Engine.OrderChain.constructor | RealTimeStockTradingEngine.java:36-37 | A fresh head reference holds null: an empty, valid list. |
| Engine.OrderChain.CompareAndSet | RealTimeStockTradingEngine.java:63 | `compareAndSet` succeeds exactly when the head is the expected node. It then installs the update; otherwise the head is unchanged. |
| Engine.OrderChain.Contents | RealTimeStockTradingEngine.java:58-77 | The quantities and prices of a valid list, read from head to tail, are sorted for its side. |
| Engine.OrderChain.ChainKept | RealTimeStockTradingEngine.java:79-95 | A list none of whose objects changed keeps its nodes, its validity and its contents. |
| Engine.OrderChain.WasApart | RealTimeStockTradingEngine.java:30-32 | Two different valid lists share no object. |
| Engine.OrderChain.Spliced | RealTimeStockTradingEngine.java:62-63 | A node spliced in at its insertion point, linked to its successor and from its predecessor, leaves the list valid. The footprint gains exactly that node, and the contents become `BookSpec.Insert` of the old contents. |
| Engine.OrderChain.SplicedFootprint | RealTimeStockTradingEngine.java:70-72 | A splice adds exactly the new node to the list's objects. |
| Engine.OrderChain.SplicedLinks | RealTimeStockTradingEngine.java:70-72 | After the two link writes, every node links to the next one, and the last node links to null. |
| Engine.OrderChain.SplicedOwners | RealTimeStockTradingEngine.java:70-72 | After a splice, every node belongs to the list and has the list's side. |
| Engine.OrderChain.SplicedContents | RealTimeStockTradingEngine.java:70-72 | After a splice, the contents are the old contents with the new order inserted, and the prices are sorted. |
| Engine.OrderChain.Consumed | RealTimeStockTradingEngine.java:87-93 | After one round, a list is valid again and its contents are `BookSpec.Consume` of the old contents. The head loses `m` with wrap-around, and is unlinked exactly when it reaches zero. |
| Engine.LinkedApart | RealTimeStockTradingEngine.java:66-68 | A well-linked list visits no node twice. |
| Engine.LinkedDistinct | RealTimeStockTradingEngine.java:72 | No other node of a well-linked list is the node at a given position. So `prev.nextOrder = newOrder` changes one link only. |
| Engine.SnapshotSorted | RealTimeStockTradingEngine.java:61-66 | Sorted contents mean sorted node prices. |
| Engine.SubmitInSlot | RealTimeStockTradingEngine.java:45-56 | Placing a request in slot `i` and then draining slot `i` updates slot `i` by `BookSpec.Submit`. |
| Engine.StockOrderBook.constructor | RealTimeStockTradingEngine.java:34-39 | The loop creates 1024 empty buy lists and 1024 empty sell lists, all distinct and fresh. Every slot is then the empty book, and the match log is empty. |
| Engine.StockOrderBook.BooksSorted | RealTimeStockTradingEngine.java:58-77 | In a valid book, both lists of every slot are sorted for their sides. |
| Engine.StockOrderBook.HeldFootprint | RealTimeStockTradingEngine.java:30-32 | The objects of every list the book holds belong to the book. |
| Engine.StockOrderBook.SlotHeld | RealTimeStockTradingEngine.java:46-55 | The objects of one slot belong to the book and do not include the book itself. |
| Engine.StockOrderBook.EmptyHeld | RealTimeStockTradingEngine.java:36-37 | An empty list of the right side and slot is held, and its contents are empty. |
| Engine.StockOrderBook.HeldWithin | RealTimeStockTradingEngine.java:30-32 | A valid list whose objects belong to the book is held by it. |
| Engine.StockOrderBook.SlotsKept | RealTimeStockTradingEngine.java:45-56 | Suppose only slot `index`'s objects changed, no object left the book, and only that slot's view was updated, to what its lists now hold. Then the book is valid again. |
| Engine.StockOrderBook.Inserted | RealTimeStockTradingEngine.java:49-53 | Suppose one list of a slot had an order inserted, no other object of the book changed, and the slot's view was updated by `BookSpec.Place` with that order. Then the book is valid again: the other list of the slot still holds what the view says. |
| Engine.StockOrderBook.InsertOrder | RealTimeStockTradingEngine.java:58-77 | `insertOrder` leaves the list valid and sorted. The contents become `BookSpec.Insert` of the old contents. The list gains exactly the new node, which belongs to it afterwards. Sequentially, one pass of the retry loop suffices. |
| Engine.StockOrderBook.PushFront | RealTimeStockTradingEngine.java:61-63 | When the new order goes first, it links to the old head and the head swap succeeds. The node sequence gains the order at position 0. |
| Engine.StockOrderBook.FindPosition | RealTimeStockTradingEngine.java:65-69 | The walk stops with `prev` at position i-1 and `temp` at position i, or null at the end, where i is the insertion point. So `prev` is never null. |
| Engine.StockOrderBook.LinkAfter | RealTimeStockTradingEngine.java:70-74 | The two link writes splice the new order in at position i. Every old node stays, in order. |
| Engine.StockOrderBook.Trade | RealTimeStockTradingEngine.java:84-93 | One round on crossing heads takes `Math.min` off both heads and logs it at the ask price. It unlinks each head that reaches zero. The slot becomes `BookSpec.Round` of the old slot. |
| Engine.StockOrderBook.MatchLists | RealTimeStockTradingEngine.java:80-94 | The matching loop terminates: total list length falls each round. The slot ends as `BookSpec.Drain` of the old slot, and its events are appended to the log in order. |
| Engine.StockOrderBook.MatchOrder | RealTimeStockTradingEngine.java:79-95 | `matchOrder(index)` leaves the book valid. Slot `index` becomes `Drain` of its old value with the events appended, and every other slot is unchanged. |
| Engine.StockOrderBook.PlaceOrder | RealTimeStockTradingEngine.java:47-53 | The new order goes into the list its side selects at slot `index`. The slot becomes `BookSpec.Place` of its old value, every other slot is unchanged, and the book stays valid. |
| Engine.StockOrderBook.AddOrder | RealTimeStockTradingEngine.java:45-56 | The book gains only fresh objects. `addOrder` changes only the ticker's slot, which becomes `BookSpec.Submit` of its old value, and all its events are appended to the log. With a positive quantity on a positive slot, that slot ends positive and not crossed, and each side's total plus the traded quantity equals the old total plus what was submitted on that side. |
| BookSpec.InsertionPoint | RealTimeStockTradingEngine.java:61-69 | The insertion point lies in `[0, n]`. The new price dominates none of the prices before it and dominates the price at it. |
| BookSpec.InsertionPointIsFirst | RealTimeStockTradingEngine.java:61-69 | Any position satisfying those two conditions is the insertion point. So both exits of the walk agree with it. |
| BookSpec.InsertKeepsOrder | RealTimeStockTradingEngine.java:70-72 | Insertion adds exactly one order at the insertion point. Taking it out again gives the old list in its old order, and the multiset gains only the new order. |
| BookSpec.InsertAheadOfTies | RealTimeStockTradingEngine.java:61-66 | A new order goes ahead of every resting order with the same price. |
| BookSpec.InsertSorted | RealTimeStockTradingEngine.java:61-72 | Insertion keeps a list sorted for its side. |
| BookSpec.TotalInsert | RealTimeStockTradingEngine.java:70-72 | Insertion adds the new order's quantity to the list's total. |
| BookSpec.AllPositiveInsert | RealTimeStockTradingEngine.java:70-72 | Inserting a positive order into a list of positive orders gives a list of positive orders. |
| BookSpec.Insert | RealTimeStockTradingEngine.java:58-77 | The new order is in the list afterwards. Its position and the order of the rest are stated by `InsertKeepsOrder`. |
| BookSpec.CanMatch | RealTimeStockTradingEngine.java:82-85 | The loop goes on only while both heads exist and the best bid is at or above the best ask, that is, while the slot is crossed. |
| BookSpec.Consume | RealTimeStockTradingEngine.java:87-93 | Taking quantity off the head removes at most that one node. |
| BookSpec.Round | RealTimeStockTradingEngine.java:81-93 | Each round shortens the two lists together by at least one node, so the loop terminates. |
| BookSpec.RoundTrades | RealTimeStockTradingEngine.java:84-93 | With positive quantities, a round trades `min` of the head quantities, which is positive, at the ask price. Both totals fall by that amount. A head is removed exactly when it is used up; otherwise only its quantity changes. Everything behind the heads is untouched. |
| BookSpec.ConsumeTrades | RealTimeStockTradingEngine.java:87-93 | Taking m off a positive head lowers the total by m. The head is removed exactly when it held m. |
| BookSpec.Drain | RealTimeStockTradingEngine.java:79-95 | Every logged event uses up at least one node: the remaining nodes plus the events number at most the starting nodes. |
| BookSpec.DrainSettles | RealTimeStockTradingEngine.java:80-85 | When matching stops, no further round is possible. |
| BookSpec.DrainStep | RealTimeStockTradingEngine.java:80-94 | The loop invariant holds across one further round, with that round's event logged: draining the start equals draining the current book after the log so far. |
| BookSpec.DrainStop | RealTimeStockTradingEngine.java:82-85 | When the loop exits, the current book and the log are exactly the outcome of draining the start. |
| BookSpec.DrainIdempotent | RealTimeStockTradingEngine.java:79-95 | Matching a slot that was already matched changes nothing and reports nothing. |
| BookSpec.HeadTrimmedTrans | RealTimeStockTradingEngine.java:92-93 | Trimming heads twice is trimming heads. |
| BookSpec.ConsumeTrimmed | RealTimeStockTradingEngine.java:87-93 | One round only removes a head or changes its quantity; with positive quantities the change lowers it (see `RoundTrades`). |
| BookSpec.TrimmedSorted | RealTimeStockTradingEngine.java:92-93 | Trimming heads keeps a list sorted. |
| BookSpec.DrainTouchesOnlyHeads | RealTimeStockTradingEngine.java:87-93 | Matching only removes heads and changes the quantity of the remaining head; with positive quantities it lowers it (see `DrainConserves`). No order behind the heads and no price changes. |
| BookSpec.DrainSorted | RealTimeStockTradingEngine.java:79-95 | Matching keeps both lists sorted. |
| BookSpec.DrainConserves | RealTimeStockTradingEngine.java:84-93 | With positive quantities, each side's total falls by exactly the sum of the logged quantities, and every remaining quantity stays positive. |
| BookSpec.DrainFillsNonZero | RealTimeStockTradingEngine.java:84-85 | No logged event has quantity zero. With positive quantities every one is positive. |
| BookSpec.DrainNoCross | RealTimeStockTradingEngine.java:82-85 | With positive quantities, the slot is not crossed when matching stops. |
| BookSpec.Place | RealTimeStockTradingEngine.java:49-53 | The new order is in the list its side selects, and the other list is unchanged. |
| BookSpec.Submit | RealTimeStockTradingEngine.java:45-56 | One `addOrder` adds at most one node or event: the remaining nodes plus the events grow by at most one. |
| BookSpec.SubmitAll | RealTimeStockTradingEngine.java:45-56 | Over a sequence of `addOrder` calls, the remaining nodes plus the events grow by at most the number of calls. |
| BookSpec.SubmitSettles | RealTimeStockTradingEngine.java:45-56 | One `addOrder` with a positive quantity on a sorted, positive slot leaves it sorted, positive and not crossed. Each side's total plus the traded quantity equals the old total plus the quantity submitted on that side. |
| BookSpec.SubmitAllConserves | RealTimeStockTradingEngine.java:45-56 | Over any sequence of positive `addOrder` calls on one slot, the same holds. Remaining quantity plus traded quantity equals the starting quantity plus everything submitted, per side. The slot stays sorted and positive, and is not crossed once anything has been submitted. |
| BookSpec.ScenarioFullFill | RealTimeStockTradingEngine.java:45-95 | Buy 100 @ 50, then sell 100 @ 50: one event (100 @ 50), and both lists end empty. |
| BookSpec.ScenarioPartialFill | RealTimeStockTradingEngine.java:45-95 | Buy 50 @ 60, buy 30 @ 55, sell 40 @ 58: one event (40 @ 58). The buy list ends 10 @ 60 then 30 @ 55; no ask is left. |
| BookSpec.ScenarioRestingAsk | RealTimeStockTradingEngine.java:45-95 | A lone sell of 20 @ 100 rests on the ask side, and no event is reported. |

## Left out

- Concurrency: `AtomicReference` visibility, interleavings, contention on `compareAndSet`, and the lost-update race on the plain `prev.nextOrder` write. The model is sequential: each head reference is a plain field, and `compareAndSet` is a read, a compare and an assignment.
- Engine.StockOrderBook.InsertOrder: the outer `while (true)` retry loop is not modelled as a loop. Sequentially, its first pass always returns: the head swap succeeds, and `prev` is not null in the walk branch. The model asserts both facts. The method runs the one pass as `PushFront`, or as `FindPosition` followed by `LinkAfter`.
- Engine.StockOrderBook.InsertOrder: states its result through the list's contents and footprint. The position of the new node in the node sequence is stated by `PushFront` and `LinkAfter`.
- `String.hashCode`: a library call. `AddOrder` takes the ticker's hash as a 32-bit parameter `tickerHash`, and `TickerIndex` works on that value.
- The two tables of head references (`buyOrders`, `sellOrders`): they are filled once by the constructor loop and never written afterwards. They are modelled as constant sequences of chains, not arrays. The model does not capture writes to the tables after construction; the code makes none.
- Tickers whose hashes share a slot: such tickers share one pair of lists. The model keeps each order's ticker, but the book view and the match log work per slot and do not record the ticker.
- `System.out.println` and `Order.toString`: formatting only. Each "Matched" event is appended to a ghost log as quantity and price.
- `OrderSimulator` and `main`: driver code (random orders, threads, sleeping, interrupts).
- Input validation: the code has none, and the model adds none.
- Null arguments: in Java a null `orderType` fails the `BUY` test at `RealTimeStockTradingEngine.java` line 49 and goes to the sell list, and a null ticker throws a `NullPointerException` in `hashCode` at line 42. The model's types have no null, so neither case arises.
