/** Parts of orderbook_ll.py modelled as they are written, where that differs
    from what the code evidently means, each with an input that shows the
    difference. The rest of the model uses the intended behaviour: these
    members exist only to exhibit the differences. */
module Findings {
  import opened Orders
  import opened Matching
  import opened BookSpec

  // ---------------------------------------------------------------------
  // addOrder routes on the size (orderbook_ll.py:52-56)

  /** addOrder as written: a buy goes to the front, and a sell is queued only
      when its size equals the constant SELL (1); any other sell is dropped. */
  function EnqueueAsWritten(q: seq<Order>, o: Order): (r: seq<Order>)
    ensures r == Enqueue(q, o) <==> o.side == Buy || o.size == 1
    ensures r != Enqueue(q, o) ==> r == q
  {
    if o.side == Buy then [o] + q else if o.size == 1 then q + [o] else q
  }

  /** A sell of size 2 is lost: the level is left as it was. */
  lemma SellOfSizeTwoIsDropped(q: seq<Order>, trader: Trader, price: int, id: int)
    ensures var o := Order(Sell, 2, price, trader, id);
      EnqueueAsWritten(q, o) == q && Enqueue(q, o) == q + [o]
  {
  }

  // ---------------------------------------------------------------------
  // What the fill loops report (orderbook_ll.py:86-115)

  /** The callbacks of executeBuyOrder as written: each round reports the
      size the incoming order has left after it, and the order the cursor
      has moved on to, which is the next order of the level or the right
      sentinel (trader "exchange", price of the level) once it is used up. */
  function FillBuyReportsAsWritten(order: Order, queue: seq<Order>, price: int): (t: seq<Trade>)
    ensures |t| == |FillBuy(order, queue).trades|
    ensures forall i :: 0 <= i < |t| ==> t[i].buyer == order.trader
    decreases |queue|
  {
    if order.size <= 0 || queue == [] || queue[0].side != Sell then []
    else if order.size < queue[0].size then
      [Trade(order.trader, queue[0].trader, queue[0].price, 0)]
    else
      var left := order.size - queue[0].size;
      var seller := if |queue| > 1 then queue[1].trader else "exchange";
      var at := if |queue| > 1 then queue[1].price else price;
      [Trade(order.trader, seller, at, left)] + FillBuyReportsAsWritten(order.(size := left), queue[1..], price)
  }

  /** A buy of 5 that takes a resting sell of 5 is reported as a fill of 0
      against the sentinel rather than a fill of 5 against the seller. */
  lemma BuyReportAsWrittenMisreports()
    ensures var s := Order(Sell, 5, 7, "S", 1); var b := Order(Buy, 5, 7, "B", 2);
      FillBuyReportsAsWritten(b, [s], 7) == [Trade("B", "exchange", 7, 0)] &&
      FillBuy(b, [s]).trades == [Trade("B", "S", 7, 5)]
  {
  }

  /** The callbacks of executeSellOrder as written: as for a buy, and besides
      the incoming sell is passed as the buyer and the resting buy as the
      seller. */
  function FillSellReportsAsWritten(order: Order, queue: seq<Order>, price: int): (t: seq<Trade>)
    ensures |t| == |FillSell(order, queue).trades|
    ensures forall i :: 0 <= i < |t| ==> t[i].buyer == order.trader
    decreases |queue|
  {
    if order.size <= 0 || queue == [] || Last(queue).side != Buy then []
    else if order.size < Last(queue).size then
      [Trade(order.trader, Last(queue).trader, Last(queue).price, 0)]
    else
      var left := order.size - Last(queue).size;
      var n := |queue|;
      var reported := if n > 1 then queue[n - 2].trader else "exchange";
      var at := if n > 1 then queue[n - 2].price else price;
      [Trade(order.trader, reported, at, left)] + FillSellReportsAsWritten(order.(size := left), queue[..n - 1], price)
  }

  /** A sell of 3 against a resting buy of 5 is reported with the seller as
      the buyer and a size of 0. */
  lemma SellReportAsWrittenMisreports()
    ensures var bb := Order(Buy, 5, 7, "B", 1); var s := Order(Sell, 3, 7, "S", 2);
      FillSellReportsAsWritten(s, [bb], 7) == [Trade("S", "B", 7, 0)] &&
      FillSell(s, [bb]).trades == [Trade("B", "S", 7, 3)]
  {
  }

  // ---------------------------------------------------------------------
  // The crossing loops (orderbook_ll.py:183-188, :200-205)

  /** The loop of a buy as written: ask_min moves up after every level,
      whether or not the order used that level up. */
  function WalkAsksAsWritten(levels: seq<seq<Order>>, cursor: int, order: Order): (w: Walk)
    requires 0 <= cursor && order.price < |levels|
    ensures |w.levels| == |levels| && cursor <= w.cursor
    decreases order.price + 1 - cursor
  {
    if order.price < cursor || order.size <= 0 then Walk(levels, cursor, order, [])
    else
      var f := FillBuy(order, levels[cursor]);
      var w := WalkAsksAsWritten(levels[cursor := f.queue], cursor + 1, f.order);
      Walk(w.levels, w.cursor, w.order, f.trades + w.trades)
  }

  /** A buy of 2 that takes part of a sell of 5 at price 1 moves ask_min
      to 2 past the remaining 3, so the book no longer keeps its invariant;
      the intended loop stays at 1. */
  lemma AskCursorAsWrittenSkipsAsk()
    ensures var s := Order(Sell, 5, 1, "S", 1); var b := Order(Buy, 2, 1, "B", 2);
      var w := WalkAsksAsWritten([[], [s]], 1, b);
      var v := WalkAsks([[], [s]], 1, b);
      w.cursor == 2 && w.levels[1] == [s.(size := 3)] && !Inv(Book(w.levels, 0, w.cursor, 2)) &&
      v.cursor == 1 && v.levels == w.levels && Inv(Book(v.levels, 0, v.cursor, 2))
  {
    var s := Order(Sell, 5, 1, "S", 1);
    var levels := [[], [s.(size := 3)]];
    assert !Standing(levels[1], 1, 0, 2, 2);
  }

  /** The loop of a sell as written: it executes through executeBuyOrder
      (:202), and bid_max moves down after every level. */
  function WalkBidsAsWritten(levels: seq<seq<Order>>, cursor: int, order: Order): (w: Walk)
    requires cursor < |levels| && 0 <= order.price
    ensures |w.levels| == |levels| && w.cursor <= cursor
    decreases cursor + 1 - order.price
  {
    if cursor < order.price || order.size <= 0 then Walk(levels, cursor, order, [])
    else
      var f := FillBuy(order, levels[cursor]);
      var w := WalkBidsAsWritten(levels[cursor := f.queue], cursor - 1, f.order);
      Walk(w.levels, w.cursor, w.order, f.trades + w.trades)
  }

  /** Over levels that hold bids only, the sell loop as written trades
      nothing and changes no level: it only runs bid_max down below the
      limit of the sell, past every bid the sell should have taken. */
  lemma {:induction false} SellLoopAsWrittenNeverTrades(levels: seq<seq<Order>>, cursor: int, order: Order, id: int)
    requires cursor < |levels| && 0 <= order.price && BidsTo(levels, cursor, id)
    ensures var w := WalkBidsAsWritten(levels, cursor, order);
      w.trades == [] && w.levels == levels && w.order == order &&
      (order.size > 0 ==> w.cursor == Min(cursor, order.price - 1))
    decreases cursor + 1 - order.price
  {
    if cursor < order.price || order.size <= 0 {
    } else {
      BidLevelUntouched(levels, cursor, order, id);
      SellLoopAsWrittenNeverTrades(levels, cursor - 1, order, id);
      var w := WalkBidsAsWritten(levels, cursor - 1, order);
      assert WalkBidsAsWritten(levels, cursor, order) == Walk(w.levels, w.cursor, w.order, [] + w.trades);
    }
  }

  /** executeBuyOrder finds no sell at the front of a level of bids, and
      the bids below the cursor are still bids. */
  lemma BidLevelUntouched(levels: seq<seq<Order>>, cursor: int, order: Order, id: int)
    requires 0 <= cursor < |levels| && BidsTo(levels, cursor, id)
    ensures FillBuy(order, levels[cursor]) == Fill(order, levels[cursor], [])
    ensures levels[cursor := levels[cursor]] == levels && BidsTo(levels, cursor - 1, id)
  {
    var q := levels[cursor];
    assert Queued(q, cursor, Buy, id);
    assert q == [] || q[0].side == Buy;
  }

  // ---------------------------------------------------------------------
  // Order ids (orderbook_ll.py:175, :180, :193, :209-212)

  /** The id limit_order as written returns. It stamps the order with the
      counter after one step, orderId + 1 (:175, :180), and steps the
      counter once more before returning when the order rests (:193, :209). */
  function ReturnedIdAsWritten(orderId: int, rests: bool): (r: int)
    ensures rests <==> r != orderId + 1
  {
    if rests then orderId + 2 else orderId + 1
  }

  /** The id handed back for an order that rests is one past the id it was
      stamped with, orderId + 1, so it cannot name it in a later cancel. */
  lemma ReturnedIdAsWrittenMissesRestingOrder(orderId: int)
    ensures ReturnedIdAsWritten(orderId, true) == (orderId + 1) + 1
  {
  }

  /** Against the book model: limit_order as written stamps the order with
      b.orderId + 1, the id Submit hands back, and when the order rests it
      returns one more than the id the remainder rests with. */
  lemma AsWrittenIdsAgainstSubmit(b: Book, side: Side, size: int, price: int, trader: Trader)
    requires Inv(b) && 0 <= price < |b.levels| && size > 0
    ensures var out := Submit(b, side, size, price, trader); var lv := out.book.levels[price];
      var rests := Volume(out.trades) < size;
      out.result.Ok? && b.orderId + 1 == out.result.value &&
      (rests ==>
        lv != [] && ReturnedIdAsWritten(b.orderId, rests) == (if side == Buy then lv[0] else Last(lv)).orderId + 1) &&
      (!rests ==> ReturnedIdAsWritten(b.orderId, rests) == out.result.value)
  {
    RestingIdIsReturned(b, side, size, price, trader);
  }

  /** With one step per order, the id handed back is the id of what rests. */
  lemma RestingIdIsReturned(b: Book, side: Side, size: int, price: int, trader: Trader)
    requires Inv(b) && 0 <= price < |b.levels| && size > 0
    ensures var out := Submit(b, side, size, price, trader); var lv := out.book.levels[price];
      out.result.Ok? &&
      (Volume(out.trades) < size ==>
        lv != [] && (if side == Buy then lv[0] else Last(lv)).orderId == out.result.value)
  {
    if side == Buy {
      SubmitBuy(b, size, price, trader);
    } else {
      SubmitSell(b, size, price, trader);
    }
  }
}
