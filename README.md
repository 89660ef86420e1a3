# A verified model of the linked-list limit order book

This project models `orderbook_ll.py`, a single-asset limit-order matching
engine, and proves what it does.

- **Price ladder.** The book is a ladder of `max_price` price levels, indexed by tick.
- **Levels.** Each level (`OrderLevel`) is an intrusive doubly linked list of orders between two sentinels:
  - buys go in right after the left sentinel and sells right before the right one;
  - an incoming buy is filled from the left and an incoming sell from the right, so at each level the oldest resting order is filled first.
- **Book state.** The book (`OrderBookLL`) keeps a best-bid cursor `bid_max`, a best-ask cursor `ask_min` and an id counter.
- **`limit_order`.** It walks the opposite cursor while the limit crosses it. It then rests what is left at its own price and moves its own side's cursor to cover it.

The model is imperative where the source is:

- `Levels.OrderLevel` is a class. Its nodes live in an arena of sequence fields, `cells`, `next` and `prev`. Node 0 is the left sentinel and node 1 the right one. A ghost list `Contents` names the nodes between the sentinels.
- Every method that changes the links is proved against a pure function of the orders the level holds.
- `OrderBooks.OrderBookLL` is a class with the ladder, the cursors and the id counter. Its `LimitOrder` with its crossing loops is proved to compute `BookSpec.Submit`, a pure function on the abstract book.

The properties are proved about those pure functions (modules `Matching` and `BookSpec`):

- time priority and price priority;
- conservation of quantity;
- where the remainder rests;
- the cursors;
- the invariant that the book is never left crossed.

Where the code is evidently wrong, the model follows what it evidently means, and a comment at that point cites the line. Module `Findings` models each such place as written and exhibits an input on which it goes wrong.

Files:

- `orders.dfy`: orders, trades, results.
- `matching.dfy`: the fill arithmetic of one level.
- `order_level.dfy`: the linked level.
- `book_spec.dfy`: the abstract book and `limit_order` as a function.
- `order_book.dfy`: the book object.
- `findings.dfy`: the as-written models.
- `scenario.dfy`: the session of `_unittest2`, order by order.

## Model

| member | source | states |
|---|---|---|
| Matching.FillBuy | orderbook_ll.py:86-101 | what an incoming buy leaves: the same order with a size that never grows and never goes below 0 against positive resting orders, and a queue no longer than before |
| Matching.FillSell | orderbook_ll.py:103-115 | the same for an incoming sell, which walks the level from the right |
| Matching.FillBuyRound | orderbook_ll.py:90-100 | one round of the buy loop (shrink the front sell and stop, or use it up and unlink it) is the first step of FillBuy, so the rest of the fill still ends where the whole fill does |
| Matching.FillSellRound | orderbook_ll.py:105-114 | one round of the sell loop against the back buy is the first step of FillSell |
| Matching.FillBuyConserves | orderbook_ll.py:90-100 | what the incoming buy loses equals the volume of its trades, which equals what the resting queue loses |
| Matching.FillSellConserves | orderbook_ll.py:105-114 | the same for a sell |
| Matching.FillBuyTimePriority | orderbook_ll.py:88-100 | the k trades of a buy are against the k front orders in queue order, at their prices, each for a positive size no larger than the resting order, and every one but the last uses its resting order up |
| Matching.FillSellTimePriority | orderbook_ll.py:104-114 | the k trades of a sell are against the k back orders, from the right, with the resting buy as buyer and with the same size bounds |
| Matching.FillSellTimePriorityStep | orderbook_ll.py:108-114 | a sell that uses up the back buy trades with it first and then exactly as the rest of the sell does with the others |
| Matching.FillBuyLeaves | orderbook_ll.py:90-100 | a buy leaves the orders after the last one it traded with, headed by that order's remainder only when it was partly filled, and then the buy is done |
| Matching.FillBuyLeavesStep | orderbook_ll.py:95-100 | a buy that uses up the front sell leaves what the rest of it leaves of the orders behind it |
| Matching.FillSellLeaves | orderbook_ll.py:105-114 | a sell leaves the orders before the last one it traded with, ended by that order's remainder only when it was partly filled |
| Matching.FillSellLeavesStep | orderbook_ll.py:110-114 | a sell that uses up the back buy leaves what the rest of it leaves of the orders before it |
| Matching.FillBuyExhausts | orderbook_ll.py:88 | on a level of sells a buy stops only when it is filled or the level is used up |
| Matching.FillSellExhausts | orderbook_ll.py:105 | on a level of buys a sell stops only when it is filled or the level is used up |
| Matching.Enqueue | orderbook_ll.py:52-70 | addOrder with the routing on the side: the level grows by one, and the new order is the first of the level when it is a buy and the last when it is a sell |
| Matching.EnqueueAddsOne | orderbook_ll.py:52-70 | adding an order adds exactly that order and moves nothing else: the others keep their order behind a new buy or ahead of a new sell, and the multiset grows by that one order |
| Matching.SellsQueueInArrivalOrder | orderbook_ll.py:65-70 | a stream of sells queues up left to right in arrival order |
| Matching.BuysQueueInReverseArrivalOrder | orderbook_ll.py:58-63 | a stream of buys queues up in reverse arrival order, oldest at the right |
| Matching.FillBuyByArrival | orderbook_ll.py:65-70 | on a level built from a stream of sells, an incoming buy trades with the sellers in the order they arrived |
| Matching.FillSellByArrival | orderbook_ll.py:58-63 | on a level built from a stream of buys, an incoming sell trades with the buyers in the order they arrived, although they sit in the level in reverse |
| Levels.LinkFront | orderbook_ll.py:59-63 | the four link updates of addBuyOrder on a fresh node give the linked list with that node first |
| Levels.LinkBack | orderbook_ll.py:66-70 | the four link updates of addSellOrder give the list with that node last |
| Levels.UnlinkOk | orderbook_ll.py:34-38 | unlinking the node at position k joins its predecessor and successor and gives the well-formed list without that node, with every other order in its place |
| Levels.ShrinkOk | orderbook_ll.py:92 | lowering the size of one resting order keeps the list and changes that order only |
| Levels.OrderLevel.constructor | orderbook_ll.py:42-50 | a new level is empty: the left sentinel links to the right one and back |
| Levels.OrderLevel.HasOrders | orderbook_ll.py:117-118 | true exactly when some order lies between the sentinels |
| Levels.OrderLevel.AddOrder | orderbook_ll.py:52-56 | the level's orders become Enqueue of the old ones: a buy at the front and a sell at the back |
| Levels.OrderLevel.AddBuyOrder | orderbook_ll.py:58-63 | the order becomes a fresh node right after the left sentinel; the orders become the new one followed by the old ones |
| Levels.OrderLevel.AddSellOrder | orderbook_ll.py:65-70 | the order becomes a fresh node right before the right sentinel; the orders become the old ones followed by the new one |
| Levels.OrderLevel.Unlink | orderbook_ll.py:34-38 | Order.remove: predecessor and successor point at each other, the node's own links are cleared, and the orders are the old ones without that one |
| Levels.OrderLevel.RemoveOrder | orderbook_ll.py:72-73 | removeOrder goes through Order.remove: the neighbours point at each other, the node's own links are cleared, and the other orders keep their order |
| Levels.OrderLevel.SetSize | orderbook_ll.py:92 | the in-place size update of a resting order changes that one order's size and no link |
| Levels.OrderLevel.PopFront | orderbook_ll.py:96-100 | unlinking the front order leaves the rest and yields the node after it |
| Levels.OrderLevel.PopBack | orderbook_ll.py:111-114 | unlinking the back order leaves the rest and yields the node before it |
| Levels.OrderLevel.TakeFront | orderbook_ll.py:90-100 | one round of executeBuyOrder changes the orders exactly as BuyRound says and moves the cursor to the new first node |
| Levels.OrderLevel.TakeBack | orderbook_ll.py:105-114 | one round of executeSellOrder changes the orders exactly as SellRound says and moves the cursor to the new last node |
| Levels.OrderLevel.ExecuteBuyOrder | orderbook_ll.py:86-101 | the loop leaves the order, the trades and the resting orders that FillBuy gives |
| Levels.OrderLevel.ExecuteSellOrder | orderbook_ll.py:103-115 | the loop leaves what FillSell gives |
| Levels.OrderLevel.ExecuteOrder | orderbook_ll.py:76-84 | an empty level returns the order untouched and changes nothing; otherwise the result is FillBuy for a buy and FillSell for a sell |
| BookSpec.Empty | orderbook_ll.py:140-147 | the new book keeps the invariant, has max_price empty levels and starts its ids at start_order_id |
| BookSpec.FillBuyKeeps | orderbook_ll.py:86-101 | a buy leaves an ask level holding live asks of that price, still in arrival order |
| BookSpec.FillSellKeeps | orderbook_ll.py:103-115 | a sell leaves a bid level holding live bids of that price, still in arrival order |
| BookSpec.WalkAsks | orderbook_ll.py:183-188 | the buy loop keeps the number of levels, never moves the ask cursor down, and keeps the order's identity |
| BookSpec.WalkBids | orderbook_ll.py:200-205 | the sell loop keeps the number of levels, never moves the bid cursor up, and keeps the order's identity |
| BookSpec.WalkAsksEnds | orderbook_ll.py:183-188 | the loop ends only when the order is filled or its limit is below the ask cursor; the cursor stops at most one past the limit; the levels it passed are empty and all others are untouched |
| BookSpec.WalkBidsEnds | orderbook_ll.py:200-205 | the mirror image for a sell and the bid cursor |
| BookSpec.WalkAsksFrame | orderbook_ll.py:183-188 | the buy loop changes only the levels from the ask cursor up to where the cursor stops, and every level it moves past is used up |
| BookSpec.WalkBidsFrame | orderbook_ll.py:200-205 | the sell loop changes only the levels from where the bid cursor stops up to the cursor, and every level it moves past is used up |
| BookSpec.WalkAsksStep | orderbook_ll.py:184-188 | one turn of the buy loop followed by the rest of the loop is the whole loop |
| BookSpec.WalkBidsStep | orderbook_ll.py:201-205 | one turn of the sell loop followed by the rest of the loop is the whole loop |
| BookSpec.AsksResumeStep | orderbook_ll.py:184-188 | after a turn that matches AsksRound the loop still ends as the whole loop, and a level left non-empty has ended the order |
| BookSpec.BidsResumeStep | orderbook_ll.py:201-205 | the same for the sell loop and BidsRound |
| BookSpec.AsksResumeEnd | orderbook_ll.py:183 | once the buy loop's condition fails, what it has done is the whole loop |
| BookSpec.BidsResumeEnd | orderbook_ll.py:200 | once the sell loop's condition fails, what it has done is the whole loop |
| BookSpec.WalkAsksConserves | orderbook_ll.py:183-188 | nothing is lost or made up in the buy loop: the incoming order shrinks by exactly the volume reported in its fills, and so does the total resting quantity of the book |
| BookSpec.WalkBidsConserves | orderbook_ll.py:200-205 | the same two-sided conservation for the sell loop |
| BookSpec.FillBuyPrices | orderbook_ll.py:86-101 | at one ask level every fill is at that price, the buyer is the incoming trader, and prices do not fall |
| BookSpec.FillSellPrices | orderbook_ll.py:103-115 | at one bid level every fill is at that price and the seller is the incoming trader |
| BookSpec.WalkAsksPrices | orderbook_ll.py:183-188 | price priority for a buy: every fill is between the ask cursor and the limit and no higher than where the cursor ends, cheapest first, bought by the incoming trader |
| BookSpec.WalkBidsPrices | orderbook_ll.py:200-205 | price priority for a sell: every fill is between the limit and the bid cursor and no lower than where the cursor ends, dearest first, sold by the incoming trader |
| BookSpec.BuyPriceFirst | orderbook_ll.py:181-188 | price priority of an accepted buy: no fill is above the new ask_min, and every ask level from the old ask_min up to below a fill's price has been used up |
| BookSpec.SellPriceFirst | orderbook_ll.py:197-205 | price priority of an accepted sell: no fill is below the new bid_max, and every bid level above a fill's price up to the old bid_max has been used up |
| BookSpec.Submit | orderbook_ll.py:161-212 | refused exactly when the price is off the ladder or the size is not positive, and then nothing changes and nothing is reported; otherwise the order gets the next id, which is returned and becomes the book's counter |
| BookSpec.InvAsks | orderbook_ll.py:183-185 | in a book that keeps its invariant, the levels from the ask cursor up hold asks only |
| BookSpec.InvBids | orderbook_ll.py:200-202 | in such a book, the levels from the bid cursor down hold bids only |
| BookSpec.PushBuy | orderbook_ll.py:192-194 | a new buy, younger than every queued one, keeps its level a live bid level in arrival order |
| BookSpec.PushSell | orderbook_ll.py:208-210 | a new sell keeps its level a live ask level in arrival order |
| BookSpec.BuyKeepsInv | orderbook_ll.py:181-194 | an accepted buy leaves a book that keeps the invariant |
| BookSpec.SellKeepsInv | orderbook_ll.py:196-212 | an accepted sell leaves a book that keeps the invariant |
| BookSpec.SubmitKeepsInv | orderbook_ll.py:161-212 | every submission leaves a book that keeps the invariant: the bid cursor below the ask cursor, every order at its own price on the side of its cursor, every level in arrival order |
| BookSpec.SubmitBuy | orderbook_ll.py:181-194 | a buy trades only with asks from the ask cursor up to its limit, cheapest first, as the buyer, for at most its size; no fill is above the new ask_min, and every ask level below a fill's price is used up; a remainder rests first at its price with the id handed out, with bid_max at or above the price and ask_min above it; a filled buy leaves bid_max alone; other levels below the old ask cursor are untouched |
| BookSpec.SubmitSell | orderbook_ll.py:196-212 | the mirror image: fills are no lower than the new bid_max and every bid level above a fill's price is used up; a remainder rests last at its price, with ask_min at or below the price and bid_max below it |
| BookSpec.NonCrossingBuyRests | orderbook_ll.py:181-194 | a buy below the ask cursor reports no fill and rests whole at the front of its level, and bid_max becomes the larger of itself and the price |
| BookSpec.NonCrossingSellRests | orderbook_ll.py:196-212 | a sell above the bid cursor reports no fill and rests whole at the back of its level, and ask_min becomes the smaller of itself and the price |
| OrderBooks.OrderBookLL.constructor | orderbook_ll.py:122-148 | max_price empty levels, one per price, bid_max 0, ask_min max_price + 1, and the counter at start_order_id: the book Empty |
| OrderBooks.OrderBookLL.ExecuteAt | orderbook_ll.py:184-185 | executeOrder on the level at one price changes that level only, as FillBuy or FillSell says, and reports whether it still holds orders |
| OrderBooks.OrderBookLL.MatchAsks | orderbook_ll.py:183-188 | the buy loop leaves the levels, the ask cursor, the order and the trades that WalkAsks gives, and leaves bid_max and the counter alone |
| OrderBooks.OrderBookLL.MatchBids | orderbook_ll.py:200-205 | the sell loop leaves what WalkBids gives, and leaves ask_min and the counter alone |
| OrderBooks.OrderBookLL.AddAt | orderbook_ll.py:194 | addOrder on the level at one price changes that level only, to Enqueue of its orders |
| OrderBooks.OrderBookLL.PlaceBuy | orderbook_ll.py:179-194 | an accepted buy leaves the result, the trades and the book that Submit gives, and keeps the invariant |
| OrderBooks.OrderBookLL.PlaceSell | orderbook_ll.py:196-212 | an accepted sell leaves the result, the trades and the book that Submit gives |
| OrderBooks.OrderBookLL.LimitOrder | orderbook_ll.py:161-212 | returns the result and the trades that Submit gives for the book the object stood for, and the object then stands for Submit's book, which keeps the invariant |
| Scenarios.SessionOpening | orderbook_ll.py:273-277 | the first five orders of _unittest2 on an empty book: Bea, Sam and Ben rest and set the cursors; Sol's sell of 1 takes from Bea, the oldest bid; Stu rests above the bids |
| Scenarios.SessionMiddle | orderbook_ll.py:278-280 | Bif takes all of Sam's ask, which moves the ask cursor up to 202; Bif's second buy takes 2 of Stu's 5; Bob rests as the new best bid |
| Scenarios.SessionSweep | orderbook_ll.py:281 | Sue's sell of 6 takes Bob's 2 at 201 and then Bea's 2 and Ben's 2 at 200, oldest first, and the bid cursor falls to 199 |
| Scenarios.SessionEnd | orderbook_ll.py:282 | Bud's buy rests at 198, and the session ends with Bud's 7 at 198 and Stu's 3 at 202 |
| Findings.EnqueueAsWritten | orderbook_ll.py:52-56 | addOrder as written queues an order as intended exactly when it is a buy or has size 1, and otherwise leaves the level as it was |
| Findings.SellOfSizeTwoIsDropped | orderbook_ll.py:55 | a sell of size 2 is lost as written and appended as intended |
| Findings.FillBuyReportsAsWritten | orderbook_ll.py:101 | as written, a buy makes one report per fill, always with the incoming trader as buyer |
| Findings.BuyReportAsWrittenMisreports | orderbook_ll.py:101 | a buy of 5 against a sell of 5 is reported as a fill of 0 against the sentinel |
| Findings.FillSellReportsAsWritten | orderbook_ll.py:115 | as written, a sell makes one report per fill, with the incoming seller passed as the buyer |
| Findings.SellReportAsWrittenMisreports | orderbook_ll.py:115 | a sell of 3 against a buy of 5 is reported as the seller buying 0 |
| Findings.WalkAsksAsWritten | orderbook_ll.py:183-188 | the buy loop as written never moves the ask cursor down |
| Findings.AskCursorAsWrittenSkipsAsk | orderbook_ll.py:188 | as written, a partial fill moves ask_min past a level that still holds an ask, breaking the invariant that the intended loop keeps |
| Findings.WalkBidsAsWritten | orderbook_ll.py:200-205 | the sell loop as written never moves the bid cursor up |
| Findings.SellLoopAsWrittenNeverTrades | orderbook_ll.py:200-205 | as written, over bid levels the sell loop trades nothing and changes no level, and bid_max runs down below the sell's limit |
| Findings.ReturnedIdAsWritten | orderbook_ll.py:175-212 | as written, the order is stamped with the counter after one step (:175, :180), and the returned id differs from that stamp exactly when the order rests |
| Findings.ReturnedIdAsWrittenMissesRestingOrder | orderbook_ll.py:193 | as written, a resting order's returned id is one past the id it was stamped with |
| Findings.AsWrittenIdsAgainstSubmit | orderbook_ll.py:175-212 | as written, the order is stamped with the id the model hands back, and a resting order is answered with one more than the id its remainder rests with |
| Findings.RestingIdIsReturned | orderbook_ll.py:180-212 | with one id per order, an accepted order is answered with the id its remainder rests with |

## Left out

- The trade callback `execute` (orderbook_ll.py:151-159) and the `cb` argument: each fill is returned as a `Trade` in a list, in the order the callback would be called. The printing is not modelled.
- `render`, `_render_level`, `_unittest1`, `_perftest` and the `__main__` block: display, benchmark and demo code. They use printing, input, the clock and randomness.
- `_unittest2` runs on a book of 10000 price points and only prints the result. `Scenarios` states what each of its orders does on any ladder of at least 203 price points, under the intended reading of :55, :188 and :202. As written, :55 drops Sam's, Stu's and Sue's sells, and :202 makes Sol's sell trade nothing.
- The `type(price) != int` check (:176-177): Dafny's types make the price an integer.
- `self.orders` (:148) is never written by the code, and `name` is only stored. The model carries `name` as a constant and leaves the dictionary out.
- BookSpec.Submit, OrderBooks.OrderBookLL.LimitOrder: a price off the ladder or a size <= 0 is refused before any id is handed out. The code checks only that the price is an `int` (:176), after :175 has already counted the id up. It accepts a size <= 0 as an order that takes an id, trades nothing and rests nothing.
- BookSpec.Submit, OrderBooks.OrderBookLL.LimitOrder: a negative price is refused with `InvalidPrice`. Python would index the ladder from the end.
- BookSpec.Submit, OrderBooks.OrderBookLL.LimitOrder: a price at or past `max_price` is refused with `InvalidPrice`. What the code does with one depends on the side:
  - a buy that the asks below `max_price` fill completely stops the loop at :183, skips :192 and returns normally with its trades;
  - a buy that enters the loop and is not filled by then raises IndexError at :184 once `ask_min` reaches `max_price`, after its trades;
  - a buy at exactly `max_price` while `ask_min` is still `max_price + 1` does not enter the loop. It raises at :194, after :175 and :193 have both counted `order_id` up;
  - a sell above the ladder never crosses (`bid_max` stays below `max_price`). It raises at :210, after :175 and :209 have both counted the id up.
- OrderBooks.OrderBookLL.MatchAsks, BookSpec.WalkAsks: `ask_min` is stepped one tick at a time, as in the code, and stops on a level that still holds orders. It is therefore only a lower bound on the best ask: no ask lies below it, but the level it names may be empty. A buy moves it to no more than one above its limit (`WalkAsksEnds`). `bid_max` is likewise only an upper bound on the best bid.
- OrderBooks.OrderBookLL.constructor: the defaults `max_price=10000` and `start_order_id=0` (:122) are not modelled. The constructor takes both as arguments, and `BookSpec.Empty` is stated for any ladder size and any first id.
- Cancellation and other order types: they are only TODO comments in the source.
- `Order.getPrev` and `Order.getNext` are plain accessors. The links are the `next` and `prev` fields of the level's arena.
- Aliasing: an `Order` is not an object shared between the caller and the level. A resting order is a value in the level's arena, and its size is updated there in place.
- OrderBooks.OrderBookLL.LimitOrder: a refused order leaves `order_id` as it was. The source counts the id up first (:175) and then raises only for a non-integer price. So "the id grows on every call" holds here only for accepted orders.
- OrderBooks.OrderBookLL.LimitOrder: the id stored on a resting order is the id returned. In the source the returned id is one higher (:193, :209).
- Levels.OrderLevel.TakeFront, Levels.OrderLevel.TakeBack: the trade reported is the filled quantity against the resting order. The source reports the remaining quantity and the node after the cursor has moved (:101, :115); `Findings` models that.
- OrderBooks.OrderBookLL.MatchBids: it matches through executeOrder's sell path. The source calls executeBuyOrder (:202), which `Findings.SellLoopAsWrittenNeverTrades` shows never trades.

## Findings

| source | as written | input that shows it | evidently intended | confidence | as-written member | corrected member |
|---|---|---|---|---|---|---|
| orderbook_ll.py:55 | `elif order.size == SELL:` routes sells on their size | any sell whose size is not 1, e.g. size 2, is not queued | `elif order.side == SELL:` | high, not executed | Findings.EnqueueAsWritten, Findings.SellOfSizeTwoIsDropped | Levels.OrderLevel.AddOrder, Matching.Enqueue |
| orderbook_ll.py:101 | the callback gets the incoming order's remaining size and the node after the fill | a buy of 5 against a sell of 5 at 7 reports ("B", "exchange", 7, 0) | report the filled size against the resting order | high, not executed | Findings.FillBuyReportsAsWritten, Findings.BuyReportAsWrittenMisreports | Levels.OrderLevel.TakeFront, Matching.FillBuyTimePriority |
| orderbook_ll.py:115 | as at :101, and the incoming sell is passed as the buyer | a sell of 3 against a buy of 5 at 7 reports ("S", "B", 7, 0) | report (resting buyer, incoming seller, price, filled size) | high, not executed | Findings.FillSellReportsAsWritten, Findings.SellReportAsWrittenMisreports | Levels.OrderLevel.TakeBack, Matching.FillSellTimePriority |
| orderbook_ll.py:188 | `self.ask_min += 1` after every level, also when the order only partly took it | ask of 5 at 1, buy of 2 at 1: ask_min becomes 2 with 3 still offered at 1 | move past a level only once it is used up | high, not executed | Findings.WalkAsksAsWritten, Findings.AskCursorAsWrittenSkipsAsk | OrderBooks.OrderBookLL.MatchAsks, BookSpec.SubmitKeepsInv |
| orderbook_ll.py:202 | the sell loop calls `executeBuyOrder`, and :205 steps bid_max down after every level | bid of 5 at 1, sell of 5 at 1: no trade, and bid_max falls to 0 | `executeOrder`, moving past used-up levels only | high, not executed | Findings.WalkBidsAsWritten, Findings.SellLoopAsWrittenNeverTrades | OrderBooks.OrderBookLL.MatchBids, BookSpec.SubmitSell |
| orderbook_ll.py:193 | a second `self.order_id += 1` when the order rests (also :209) | any resting order: it is stored with id n+1 and n+2 is returned | one id per order, the one stored | high, not executed | Findings.ReturnedIdAsWritten, Findings.AsWrittenIdsAgainstSubmit | BookSpec.Submit, Findings.RestingIdIsReturned |
