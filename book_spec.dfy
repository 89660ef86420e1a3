/** The order book as a value: one queue of resting orders per price point, the
    two cursors and the id counter of orderbook_ll.py's OrderBookLL, and
    limit_order (orderbook_ll.py:161-212) as a pure function on that value. */
module BookSpec {
  import opened Orders
  import opened Matching

  /** levels[p] is the queue at price point p, read from the left sentinel to
      the right one; bidMax and askMin are the cursors bid_max and ask_min;
      orderId is the last id handed out. */
  datatype Book = Book(levels: seq<seq<Order>>, bidMax: int, askMin: int, orderId: int)

  /** What one submission produces: the returned id or the reason it was
      refused, the new book, and the fills reported to the trade callback in
      the order they were reported. */
  datatype Outcome = Outcome(result: Result<int>, book: Book, trades: seq<Trade>)

  function Max(a: int, b: int): int { if a < b then b else a }
  function Min(a: int, b: int): int { if a < b then a else b }

  /** Every order of q is a live order on side s at price p, handed out no
      later than id. */
  predicate Queued(q: seq<Order>, p: int, s: Side, id: int) {
    forall i :: 0 <= i < |q| ==>
      q[i].side == s && q[i].price == p && q[i].size > 0 && q[i].orderId <= id
  }

  /** The end a level is matched from holds its oldest order: sells are matched
      from the front, so their ids rise along the queue; buys are inserted at
      the front and matched from the back, so their ids fall along it. */
  predicate ArrivalOrdered(q: seq<Order>, s: Side) {
    forall i, j :: 0 <= i < j < |q| ==>
      if s == Sell then q[i].orderId < q[j].orderId else q[i].orderId > q[j].orderId
  }

  /** The level at price p holds nothing, or only bids at or below the bid
      cursor, or only asks at or above the ask cursor. */
  predicate Standing(q: seq<Order>, p: int, bidMax: int, askMin: int, id: int) {
    q == [] ||
    (p <= bidMax && Queued(q, p, Buy, id) && ArrivalOrdered(q, Buy)) ||
    (askMin <= p && Queued(q, p, Sell, id) && ArrivalOrdered(q, Sell))
  }

  /** The cursors of a book with n price points: the bid cursor is below the
      ask cursor (the book is never left crossed), the ask cursor is at most
      one past the top price point (its initial value), and the bid cursor
      indexes a price point whenever the loop of a sell can read it. */
  predicate Cursors(n: int, bidMax: int, askMin: int) {
    0 <= askMin <= n + 1 && -1 <= bidMax < askMin && (bidMax <= 0 || bidMax < n)
  }

  /** The invariant of a book between two submissions. */
  predicate Inv(b: Book) {
    Cursors(|b.levels|, b.bidMax, b.askMin) &&
    forall p :: 0 <= p < |b.levels| ==> Standing(b.levels[p], p, b.bidMax, b.askMin, b.orderId)
  }

  /** The book OrderBookLL's constructor builds (orderbook_ll.py:140-147). */
  function Empty(maxPrice: nat, startId: int): (b: Book)
    ensures Inv(b) && |b.levels| == maxPrice && b.orderId == startId
    ensures forall p :: 0 <= p < maxPrice ==> b.levels[p] == []
  {
    Book(seq(maxPrice, _ => []), 0, maxPrice + 1, startId)
  }

  // ---------------------------------------------------------------------
  // What a fill leaves at a level

  lemma {:induction false} FillBuyKeeps(order: Order, q: seq<Order>, p: int, id: int)
    requires Queued(q, p, Sell, id) && ArrivalOrdered(q, Sell)
    ensures var f := FillBuy(order, q); Queued(f.queue, p, Sell, id) && ArrivalOrdered(f.queue, Sell)
    decreases |q|
  {
    if order.size <= 0 || q == [] || q[0].side != Sell {
    } else if order.size < q[0].size {
      var r := [q[0].(size := q[0].size - order.size)] + q[1..];
      assert FillBuy(order, q).queue == r;
      forall i | 0 <= i < |r| ensures r[i].orderId == q[i].orderId && r[i].price == q[i].price && r[i].side == q[i].side && r[i].size > 0 {
      }
    } else {
      FillBuyKeeps(order.(size := order.size - q[0].size), q[1..], p, id);
    }
  }

  lemma {:induction false} FillSellKeeps(order: Order, q: seq<Order>, p: int, id: int)
    requires Queued(q, p, Buy, id) && ArrivalOrdered(q, Buy)
    ensures var f := FillSell(order, q); Queued(f.queue, p, Buy, id) && ArrivalOrdered(f.queue, Buy)
    decreases |q|
  {
    var n := |q|;
    if order.size <= 0 || q == [] || Last(q).side != Buy {
    } else if order.size < Last(q).size {
      var r := q[..n - 1] + [Last(q).(size := Last(q).size - order.size)];
      assert FillSell(order, q).queue == r;
      forall i | 0 <= i < |r| ensures r[i].orderId == q[i].orderId && r[i].price == q[i].price && r[i].side == q[i].side && r[i].size > 0 {
      }
    } else {
      FillSellKeeps(order.(size := order.size - Last(q).size), q[..n - 1], p, id);
    }
  }

  // ---------------------------------------------------------------------
  // The crossing loops

  /** Where a crossing loop leaves the levels, its cursor and the incoming
      order, and the fills it reported on the way. */
  datatype Walk = Walk(levels: seq<seq<Order>>, cursor: int, order: Order, trades: seq<Trade>)

  /** The loop of a buy (orderbook_ll.py:183-188): while the limit reaches
      the ask cursor and quantity is left, fill against the level at the
      cursor and move the cursor up past it once that level is used up.
      The source moves the cursor up after every level (:188), also past a
      level the order only partly took; here it stays on such a level, which
      the order must then have ended on. */
  function WalkAsks(levels: seq<seq<Order>>, cursor: int, order: Order): (w: Walk)
    requires 0 <= cursor && order.price < |levels|
    ensures |w.levels| == |levels| && cursor <= w.cursor && SameOrder(w.order, order)
    decreases order.price + 1 - cursor
  {
    if order.price < cursor || order.size <= 0 then Walk(levels, cursor, order, [])
    else
      var f := FillBuy(order, levels[cursor]);
      var next := levels[cursor := f.queue];
      if f.queue == [] then
        var w := WalkAsks(next, cursor + 1, f.order);
        Walk(w.levels, w.cursor, w.order, f.trades + w.trades)
      else
        Walk(next, cursor, f.order, f.trades)
  }

  /** The loop of a sell (orderbook_ll.py:200-205), the mirror image: the bid
      cursor moves down past every level the order uses up. The source fills
      through executeBuyOrder here (:202), which never trades a sell against
      the queued buys; the fill used is the sell one that executeOrder
      dispatches to. */
  function WalkBids(levels: seq<seq<Order>>, cursor: int, order: Order): (w: Walk)
    requires cursor < |levels| && 0 <= order.price
    ensures |w.levels| == |levels| && w.cursor <= cursor && SameOrder(w.order, order)
    decreases cursor + 1 - order.price
  {
    if cursor < order.price || order.size <= 0 then Walk(levels, cursor, order, [])
    else
      var f := FillSell(order, levels[cursor]);
      var next := levels[cursor := f.queue];
      if f.queue == [] then
        var w := WalkBids(next, cursor - 1, f.order);
        Walk(w.levels, w.cursor, w.order, f.trades + w.trades)
      else
        Walk(next, cursor, f.order, f.trades)
  }

  /** Asks of the book from the cursor up. */
  predicate AsksFrom(levels: seq<seq<Order>>, cursor: int, id: int) {
    forall p :: 0 <= cursor <= p < |levels| ==> Queued(levels[p], p, Sell, id) && ArrivalOrdered(levels[p], Sell)
  }

  /** Bids of the book from the cursor down. */
  predicate BidsTo(levels: seq<seq<Order>>, cursor: int, id: int) {
    forall p :: 0 <= p <= cursor && p < |levels| ==> Queued(levels[p], p, Buy, id) && ArrivalOrdered(levels[p], Buy)
  }

  /** A buy's loop changes only the levels from the cursor up to where the
      cursor ends, and empties every level it passes. */
  lemma {:induction false} WalkAsksFrame(levels: seq<seq<Order>>, cursor: int, order: Order)
    requires 0 <= cursor && order.price < |levels|
    ensures var w := WalkAsks(levels, cursor, order);
      (forall p :: 0 <= p < |levels| && (p < cursor || w.cursor < p) ==> w.levels[p] == levels[p]) &&
      (forall p :: cursor <= p < w.cursor && p < |levels| ==> w.levels[p] == [])
    decreases order.price + 1 - cursor
  {
    if order.price < cursor || order.size <= 0 {
    } else {
      var f := FillBuy(order, levels[cursor]);
      var next := levels[cursor := f.queue];
      if f.queue == [] {
        var w := WalkAsks(next, cursor + 1, f.order);
        WalkAsksFrame(next, cursor + 1, f.order);
        assert WalkAsks(levels, cursor, order) == Walk(w.levels, w.cursor, w.order, f.trades + w.trades);
      } else {
        assert WalkAsks(levels, cursor, order) == Walk(next, cursor, f.order, f.trades);
      }
    }
  }

  /** A sell's loop changes only the levels from where the cursor ends up to
      the cursor, and empties every level it passes. */
  lemma {:induction false} WalkBidsFrame(levels: seq<seq<Order>>, cursor: int, order: Order)
    requires cursor < |levels| && 0 <= order.price
    ensures var w := WalkBids(levels, cursor, order);
      (forall p :: 0 <= p < |levels| && (cursor < p || p < w.cursor) ==> w.levels[p] == levels[p]) &&
      (forall p :: w.cursor < p <= cursor && 0 <= p ==> w.levels[p] == [])
    decreases cursor + 1 - order.price
  {
    if cursor < order.price || order.size <= 0 {
    } else {
      var f := FillSell(order, levels[cursor]);
      var next := levels[cursor := f.queue];
      if f.queue == [] {
        var w := WalkBids(next, cursor - 1, f.order);
        WalkBidsFrame(next, cursor - 1, f.order);
        assert WalkBids(levels, cursor, order) == Walk(w.levels, w.cursor, w.order, f.trades + w.trades);
      } else {
        assert WalkBids(levels, cursor, order) == Walk(next, cursor, f.order, f.trades);
      }
    }
  }

  /** A buy's loop ends only once the order is filled or its limit is below
      the ask cursor; the cursor stops at most one past the limit; the levels
      it passed are empty, the others below and above are untouched, and the
      asks above the cursor stay asks. */
  lemma {:induction false} WalkAsksEnds(levels: seq<seq<Order>>, cursor: int, order: Order, id: int)
    requires 0 <= cursor && order.price < |levels| && AsksFrom(levels, cursor, id)
    ensures var w := WalkAsks(levels, cursor, order);
      (w.order.size <= 0 || order.price < w.cursor) &&
      (0 <= order.size ==> 0 <= w.order.size) && w.order.size <= order.size &&
      w.cursor <= Max(cursor, order.price + 1) &&
      AsksFrom(w.levels, w.cursor, id) &&
      (forall p :: 0 <= p < |levels| && (p < cursor || w.cursor < p) ==> w.levels[p] == levels[p]) &&
      (forall p :: cursor <= p < w.cursor && p < |levels| ==> w.levels[p] == [])
    decreases order.price + 1 - cursor
  {
    WalkAsksFrame(levels, cursor, order);
    if order.price < cursor || order.size <= 0 {
    } else {
      var f := FillBuy(order, levels[cursor]);
      var next := levels[cursor := f.queue];
      FillBuyKeeps(order, levels[cursor], cursor, id);
      assert Positive(levels[cursor]);
      FillBuyExhausts(order, levels[cursor]);
      if f.queue == [] {
        WalkAsksEnds(next, cursor + 1, f.order, id);
      }
    }
  }

  lemma {:induction false} WalkBidsEnds(levels: seq<seq<Order>>, cursor: int, order: Order, id: int)
    requires cursor < |levels| && 0 <= order.price && BidsTo(levels, cursor, id)
    ensures var w := WalkBids(levels, cursor, order);
      (w.order.size <= 0 || w.cursor < order.price) &&
      (0 <= order.size ==> 0 <= w.order.size) && w.order.size <= order.size &&
      Min(cursor, order.price - 1) <= w.cursor &&
      BidsTo(w.levels, w.cursor, id) &&
      (forall p :: 0 <= p < |levels| && (cursor < p || p < w.cursor) ==> w.levels[p] == levels[p]) &&
      (forall p :: w.cursor < p <= cursor && 0 <= p ==> w.levels[p] == [])
    decreases cursor + 1 - order.price
  {
    WalkBidsFrame(levels, cursor, order);
    if cursor < order.price || order.size <= 0 {
    } else {
      var f := FillSell(order, levels[cursor]);
      var next := levels[cursor := f.queue];
      FillSellKeeps(order, levels[cursor], cursor, id);
      assert Positive(levels[cursor]);
      FillSellExhausts(order, levels[cursor]);
      if f.queue == [] {
        WalkBidsEnds(next, cursor - 1, f.order, id);
      }
    }
  }

  /** One turn of a buy's loop: fill against the level at the cursor, move
      past it if it is used up, and the rest of the loop does the rest. */
  lemma WalkAsksStep(levels: seq<seq<Order>>, cursor: int, order: Order, id: int)
    requires 0 <= cursor <= order.price < |levels| && order.size > 0 && AsksFrom(levels, cursor, id)
    ensures var f := FillBuy(order, levels[cursor]);
      var next := levels[cursor := f.queue];
      var c := if f.queue == [] then cursor + 1 else cursor;
      var w, w' := WalkAsks(levels, cursor, order), WalkAsks(next, c, f.order);
      AsksFrom(next, c, id) && SameOrder(f.order, order) &&
      w'.levels == w.levels && w'.cursor == w.cursor && w'.order == w.order && f.trades + w'.trades == w.trades
  {
    var f := FillBuy(order, levels[cursor]);
    FillBuyKeeps(order, levels[cursor], cursor, id);
    FillBuyExhausts(order, levels[cursor]);
    if f.queue != [] {
      assert f.trades + [] == f.trades;
    }
  }

  /** One turn of a sell's loop. */
  lemma WalkBidsStep(levels: seq<seq<Order>>, cursor: int, order: Order, id: int)
    requires 0 <= order.price <= cursor < |levels| && order.size > 0 && BidsTo(levels, cursor, id)
    ensures var f := FillSell(order, levels[cursor]);
      var next := levels[cursor := f.queue];
      var c := if f.queue == [] then cursor - 1 else cursor;
      var w, w' := WalkBids(levels, cursor, order), WalkBids(next, c, f.order);
      BidsTo(next, c, id) && SameOrder(f.order, order) &&
      w'.levels == w.levels && w'.cursor == w.cursor && w'.order == w.order && f.trades + w'.trades == w.trades
  {
    var f := FillSell(order, levels[cursor]);
    FillSellKeeps(order, levels[cursor], cursor, id);
    FillSellExhausts(order, levels[cursor]);
    if f.queue != [] {
      assert f.trades + [] == f.trades;
    }
  }

  /** A buy's loop resumed at cursor, with order what is left of the incoming
      order and done the fills reported so far, ends as the whole loop w0. */
  predicate AsksResume(levels: seq<seq<Order>>, cursor: int, order: Order, done: seq<Trade>, w0: Walk)
    requires 0 <= cursor && order.price < |levels|
  {
    var w := WalkAsks(levels, cursor, order);
    w.levels == w0.levels && w.cursor == w0.cursor && w.order == w0.order && done + w.trades == w0.trades
  }

  /** A sell's loop resumed at cursor ends as the whole loop w0. */
  predicate BidsResume(levels: seq<seq<Order>>, cursor: int, order: Order, done: seq<Trade>, w0: Walk)
    requires cursor < |levels| && 0 <= order.price
  {
    var w := WalkBids(levels, cursor, order);
    w.levels == w0.levels && w.cursor == w0.cursor && w.order == w0.order && done + w.trades == w0.trades
  }

  /** One turn of a buy's loop: the order fills against the level at the
      cursor, and the cursor moves up past that level if it is used up. */
  predicate AsksRound(levels: seq<seq<Order>>, cursor: int, order: Order,
                      levels2: seq<seq<Order>>, cursor2: int, order2: Order, t: seq<Trade>)
    requires 0 <= cursor < |levels|
  {
    var f := FillBuy(order, levels[cursor]);
    levels2 == levels[cursor := f.queue] && order2 == f.order && t == f.trades &&
    cursor2 == if f.queue == [] then cursor + 1 else cursor
  }

  /** One turn of a sell's loop, moving the cursor down. */
  predicate BidsRound(levels: seq<seq<Order>>, cursor: int, order: Order,
                      levels2: seq<seq<Order>>, cursor2: int, order2: Order, t: seq<Trade>)
    requires 0 <= cursor < |levels|
  {
    var f := FillSell(order, levels[cursor]);
    levels2 == levels[cursor := f.queue] && order2 == f.order && t == f.trades &&
    cursor2 == if f.queue == [] then cursor - 1 else cursor
  }

  /** One turn of a buy's loop keeps it on course: the rest of the loop
      still ends as w0, the asks from the cursor up are still asks, and a
      level that is not used up has ended the order. */
  lemma AsksResumeStep(levels: seq<seq<Order>>, cursor: int, order: Order, done: seq<Trade>, w0: Walk, id: int,
                       levels2: seq<seq<Order>>, cursor2: int, order2: Order, t: seq<Trade>)
    requires 0 <= cursor <= order.price < |levels| && order.size > 0 && AsksFrom(levels, cursor, id)
    requires AsksResume(levels, cursor, order, done, w0)
    requires AsksRound(levels, cursor, order, levels2, cursor2, order2, t)
    ensures |levels2| == |levels| && cursor <= cursor2 && SameOrder(order2, order)
    ensures AsksFrom(levels2, cursor2, id) && (cursor2 == cursor ==> order2.size <= 0)
    ensures AsksResume(levels2, cursor2, order2, done + t, w0)
  {
    WalkAsksStep(levels, cursor, order, id);
    FillBuyExhausts(order, levels[cursor]);
    AppendAssoc(done, t, WalkAsks(levels2, cursor2, order2).trades);
  }

  /** One turn of a sell's loop keeps it on course. */
  lemma BidsResumeStep(levels: seq<seq<Order>>, cursor: int, order: Order, done: seq<Trade>, w0: Walk, id: int,
                       levels2: seq<seq<Order>>, cursor2: int, order2: Order, t: seq<Trade>)
    requires 0 <= order.price <= cursor < |levels| && order.size > 0 && BidsTo(levels, cursor, id)
    requires BidsResume(levels, cursor, order, done, w0)
    requires BidsRound(levels, cursor, order, levels2, cursor2, order2, t)
    ensures |levels2| == |levels| && cursor2 <= cursor && SameOrder(order2, order)
    ensures BidsTo(levels2, cursor2, id) && (cursor2 == cursor ==> order2.size <= 0)
    ensures BidsResume(levels2, cursor2, order2, done + t, w0)
  {
    WalkBidsStep(levels, cursor, order, id);
    FillSellExhausts(order, levels[cursor]);
    AppendAssoc(done, t, WalkBids(levels2, cursor2, order2).trades);
  }

  /** Once a buy's loop stops, it has ended as w0. */
  lemma AsksResumeEnd(levels: seq<seq<Order>>, cursor: int, order: Order, done: seq<Trade>, w0: Walk)
    requires 0 <= cursor && order.price < |levels| && (order.price < cursor || order.size <= 0)
    requires AsksResume(levels, cursor, order, done, w0)
    ensures levels == w0.levels && cursor == w0.cursor && order == w0.order && done == w0.trades
  {
    assert done + [] == done;
  }

  /** Once a sell's loop stops, it has ended as w0. */
  lemma BidsResumeEnd(levels: seq<seq<Order>>, cursor: int, order: Order, done: seq<Trade>, w0: Walk)
    requires cursor < |levels| && 0 <= order.price && (cursor < order.price || order.size <= 0)
    requires BidsResume(levels, cursor, order, done, w0)
    ensures levels == w0.levels && cursor == w0.cursor && order == w0.order && done == w0.trades
  {
    assert done + [] == done;
  }

  /** Total resting quantity over all price points. */
  function TotalSize(levels: seq<seq<Order>>): int
    decreases |levels|
  {
    if levels == [] then 0 else SizeOf(levels[0]) + TotalSize(levels[1..])
  }

  /** Replacing one level changes the total by the change at that level. */
  lemma {:induction false} TotalSizeUpdate(levels: seq<seq<Order>>, c: int, q: seq<Order>)
    requires 0 <= c < |levels|
    ensures TotalSize(levels[c := q]) == TotalSize(levels) - SizeOf(levels[c]) + SizeOf(q)
    decreases |levels|
  {
    if c == 0 {
      assert levels[c := q][1..] == levels[1..];
    } else {
      TotalSizeUpdate(levels[1..], c - 1, q);
      assert levels[c := q][1..] == levels[1..][c - 1 := q];
    }
  }

  /** Nothing is lost or made up in a crossing loop: the incoming order shrank
      by exactly the quantity reported in the fills, and so did the resting
      orders of the book taken together. */
  lemma {:induction false} WalkAsksConserves(levels: seq<seq<Order>>, cursor: int, order: Order)
    requires 0 <= cursor && order.price < |levels|
    ensures var w := WalkAsks(levels, cursor, order);
      order.size - w.order.size == Volume(w.trades) &&
      TotalSize(levels) - TotalSize(w.levels) == Volume(w.trades)
    decreases order.price + 1 - cursor
  {
    if order.price < cursor || order.size <= 0 {
    } else {
      var f := FillBuy(order, levels[cursor]);
      FillBuyConserves(order, levels[cursor]);
      TotalSizeUpdate(levels, cursor, f.queue);
      if f.queue == [] {
        var w := WalkAsks(levels[cursor := f.queue], cursor + 1, f.order);
        WalkAsksConserves(levels[cursor := f.queue], cursor + 1, f.order);
        VolumeAppend(f.trades, w.trades);
      }
    }
  }

  lemma {:induction false} WalkBidsConserves(levels: seq<seq<Order>>, cursor: int, order: Order)
    requires cursor < |levels| && 0 <= order.price
    ensures var w := WalkBids(levels, cursor, order);
      order.size - w.order.size == Volume(w.trades) &&
      TotalSize(levels) - TotalSize(w.levels) == Volume(w.trades)
    decreases cursor + 1 - order.price
  {
    if cursor < order.price || order.size <= 0 {
    } else {
      var f := FillSell(order, levels[cursor]);
      FillSellConserves(order, levels[cursor]);
      TotalSizeUpdate(levels, cursor, f.queue);
      if f.queue == [] {
        var w := WalkBids(levels[cursor := f.queue], cursor - 1, f.order);
        WalkBidsConserves(levels[cursor := f.queue], cursor - 1, f.order);
        VolumeAppend(f.trades, w.trades);
      }
    }
  }

  /** Every fill of t is for a positive quantity at a price in [lo, hi]. */
  predicate PricedWithin(t: seq<Trade>, lo: int, hi: int) {
    forall i :: 0 <= i < |t| ==> lo <= t[i].price <= hi && t[i].size > 0
  }

  /** The fills of t come cheapest first. */
  predicate Rising(t: seq<Trade>) {
    forall i, j :: 0 <= i < j < |t| ==> t[i].price <= t[j].price
  }

  /** The fills of t come dearest first. */
  predicate Falling(t: seq<Trade>) {
    forall i, j :: 0 <= i < j < |t| ==> t[i].price >= t[j].price
  }

  /** Every ask level from lo up to below the price of some fill of t is
      empty: a buy took a dearer ask only once the cheaper ones were gone. */
  predicate CheaperUsedUp(levels: seq<seq<Order>>, lo: int, t: seq<Trade>) {
    forall i, p :: 0 <= i < |t| && lo <= p < t[i].price && 0 <= p < |levels| ==> levels[p] == []
  }

  /** Every bid level above the price of some fill of t up to hi is empty. */
  predicate DearerUsedUp(levels: seq<seq<Order>>, hi: int, t: seq<Trade>) {
    forall i, p :: 0 <= i < |t| && t[i].price < p <= hi && 0 <= p < |levels| ==> levels[p] == []
  }

  /** In every fill of t the trader is the buyer (the taker of a buy). */
  predicate BoughtBy(t: seq<Trade>, trader: Trader) {
    forall i :: 0 <= i < |t| ==> t[i].buyer == trader
  }

  /** In every fill of t the trader is the seller (the taker of a sell). */
  predicate SoldBy(t: seq<Trade>, trader: Trader) {
    forall i :: 0 <= i < |t| ==> t[i].seller == trader
  }

  lemma RisingAppend(a: seq<Trade>, b: seq<Trade>, lo: int, mid: int, hi: int)
    requires lo <= mid <= hi && PricedWithin(a, lo, mid) && PricedWithin(b, mid, hi) && Rising(a) && Rising(b)
    ensures PricedWithin(a + b, lo, hi) && Rising(a + b)
  {
    forall i | 0 <= i < |a + b|
      ensures (a + b)[i] == if i < |a| then a[i] else b[i - |a|]
    {
    }
  }

  lemma FallingAppend(a: seq<Trade>, b: seq<Trade>, lo: int, mid: int, hi: int)
    requires lo <= mid <= hi && PricedWithin(a, mid, hi) && PricedWithin(b, lo, mid) && Falling(a) && Falling(b)
    ensures PricedWithin(a + b, lo, hi) && Falling(a + b)
  {
    forall i | 0 <= i < |a + b|
      ensures (a + b)[i] == if i < |a| then a[i] else b[i - |a|]
    {
    }
  }

  lemma TakerAppend(a: seq<Trade>, b: seq<Trade>, trader: Trader)
    ensures BoughtBy(a, trader) && BoughtBy(b, trader) ==> BoughtBy(a + b, trader)
    ensures SoldBy(a, trader) && SoldBy(b, trader) ==> SoldBy(a + b, trader)
  {
    forall i | 0 <= i < |a + b|
      ensures (a + b)[i] == if i < |a| then a[i] else b[i - |a|]
    {
    }
  }

  /** At one level of asks every fill of a buy is at that level's price and
      has the incoming trader as the buyer. */
  lemma FillBuyPrices(order: Order, q: seq<Order>, p: int, id: int)
    requires Queued(q, p, Sell, id)
    ensures var f := FillBuy(order, q);
      PricedWithin(f.trades, p, p) && Rising(f.trades) && BoughtBy(f.trades, order.trader)
  {
    FillBuyTimePriority(order, q);
  }

  /** At one level of bids every fill of a sell is at that level's price and
      has the incoming trader as the seller. */
  lemma FillSellPrices(order: Order, q: seq<Order>, p: int, id: int)
    requires Queued(q, p, Buy, id)
    ensures var f := FillSell(order, q);
      PricedWithin(f.trades, p, p) && Falling(f.trades) && SoldBy(f.trades, order.trader)
  {
    FillSellTimePriority(order, q);
  }

  /** Price priority for a buy: every fill is against an ask between the
      cursor and the limit, the incoming trader is the buyer, and the fills
      come cheapest first; no fill is above where the cursor ends, and the
      levels the cursor passed are used up (WalkAsksEnds). */
  lemma {:induction false} WalkAsksPrices(levels: seq<seq<Order>>, cursor: int, order: Order, id: int)
    requires 0 <= cursor && order.price < |levels| && AsksFrom(levels, cursor, id)
    ensures var w := WalkAsks(levels, cursor, order);
      PricedWithin(w.trades, cursor, order.price) && Rising(w.trades) && BoughtBy(w.trades, order.trader) &&
      PricedWithin(w.trades, cursor, w.cursor)
    decreases order.price + 1 - cursor
  {
    if order.price < cursor || order.size <= 0 {
    } else {
      var q := levels[cursor];
      var f := FillBuy(order, q);
      FillBuyPrices(order, q, cursor, id);
      if f.queue == [] {
        var next := levels[cursor := f.queue];
        var w := WalkAsks(next, cursor + 1, f.order);
        WalkAsksPrices(next, cursor + 1, f.order, id);
        assert PricedWithin(w.trades, cursor + 1, order.price) && Rising(w.trades) && BoughtBy(w.trades, order.trader);
        assert PricedWithin(w.trades, cursor, w.cursor) && cursor < w.cursor;
        assert WalkAsks(levels, cursor, order) == Walk(w.levels, w.cursor, w.order, f.trades + w.trades);
        RisingAppend(f.trades, w.trades, cursor, cursor, order.price);
        RisingAppend(f.trades, w.trades, cursor, cursor, w.cursor);
        TakerAppend(f.trades, w.trades, order.trader);
      } else {
        assert WalkAsks(levels, cursor, order) == Walk(levels[cursor := f.queue], cursor, f.order, f.trades);
      }
    }
  }

  /** Price priority for a sell: every fill is against a bid between the limit
      and the cursor, the incoming trader is the seller, and the fills come
      dearest first; no fill is below where the cursor ends, and the levels
      the cursor passed are used up (WalkBidsEnds). */
  lemma {:induction false} WalkBidsPrices(levels: seq<seq<Order>>, cursor: int, order: Order, id: int)
    requires cursor < |levels| && 0 <= order.price && BidsTo(levels, cursor, id)
    ensures var w := WalkBids(levels, cursor, order);
      PricedWithin(w.trades, order.price, cursor) && Falling(w.trades) && SoldBy(w.trades, order.trader) &&
      PricedWithin(w.trades, w.cursor, cursor)
    decreases cursor + 1 - order.price
  {
    if cursor < order.price || order.size <= 0 {
    } else {
      var q := levels[cursor];
      var f := FillSell(order, q);
      FillSellPrices(order, q, cursor, id);
      if f.queue == [] {
        var next := levels[cursor := f.queue];
        var w := WalkBids(next, cursor - 1, f.order);
        WalkBidsPrices(next, cursor - 1, f.order, id);
        assert PricedWithin(w.trades, order.price, cursor - 1) && Falling(w.trades) && SoldBy(w.trades, order.trader);
        assert PricedWithin(w.trades, w.cursor, cursor) && w.cursor < cursor;
        assert WalkBids(levels, cursor, order) == Walk(w.levels, w.cursor, w.order, f.trades + w.trades);
        FallingAppend(f.trades, w.trades, order.price, cursor, cursor);
        FallingAppend(f.trades, w.trades, w.cursor, cursor, cursor);
        TakerAppend(f.trades, w.trades, order.trader);
      } else {
        assert WalkBids(levels, cursor, order) == Walk(levels[cursor := f.queue], cursor, f.order, f.trades);
      }
    }
  }

  // ---------------------------------------------------------------------
  // limit_order

  /** One call of limit_order (orderbook_ll.py:161-212) on book b. A price off
      the ladder or a quantity that is not positive is refused and changes
      nothing; otherwise the order takes the next id, crosses the opposite
      side from its best price point, and what is left of it rests at its
      limit, where the cursor of its own side is moved to cover it.
      The source checks only that the price is an int, after handing out an
      id (:175-177); it lets any price and size through, and indexes the
      ladder with them. It also counts the id up a second time when the
      order rests (:193, :209) and then returns that second value, which no
      order carries; here one id is handed out per accepted order and it is
      the one returned. */
  function Submit(b: Book, side: Side, size: int, price: int, trader: Trader): (out: Outcome)
    requires Cursors(|b.levels|, b.bidMax, b.askMin)
    ensures out.result.Err? <==> price < 0 || |b.levels| <= price || size <= 0
    ensures out.result == Err(InvalidPrice) <==> price < 0 || |b.levels| <= price
    ensures out.result.Err? ==> out.book == b && out.trades == []
    ensures out.result.Ok? ==> out.result.value == b.orderId + 1 == out.book.orderId
    ensures |out.book.levels| == |b.levels|
  {
    if price < 0 || |b.levels| <= price then Outcome(Err(InvalidPrice), b, [])
    else if size <= 0 then Outcome(Err(InvalidSize), b, [])
    else
      var id := b.orderId + 1;
      var order := Order(side, size, price, trader, id);
      if side == Buy then
        var w := WalkAsks(b.levels, b.askMin, order);
        if w.order.size > 0 then
          Outcome(Ok(id), Book(w.levels[price := Enqueue(w.levels[price], w.order)], Max(b.bidMax, price), w.cursor, id), w.trades)
        else
          Outcome(Ok(id), Book(w.levels, b.bidMax, w.cursor, id), w.trades)
      else
        var w := WalkBids(b.levels, b.bidMax, order);
        if w.order.size > 0 then
          Outcome(Ok(id), Book(w.levels[price := Enqueue(w.levels[price], w.order)], w.cursor, Min(b.askMin, price), id), w.trades)
        else
          Outcome(Ok(id), Book(w.levels, w.cursor, b.askMin, id), w.trades)
  }

  // ---------------------------------------------------------------------
  // The book invariant is kept

  /** From the ask cursor up a book holds asks only. */
  lemma InvAsks(b: Book)
    requires Inv(b)
    ensures AsksFrom(b.levels, b.askMin, b.orderId)
  {
    forall p | 0 <= b.askMin <= p < |b.levels|
      ensures Queued(b.levels[p], p, Sell, b.orderId) && ArrivalOrdered(b.levels[p], Sell)
    {
      assert Standing(b.levels[p], p, b.bidMax, b.askMin, b.orderId);
    }
  }

  /** From the bid cursor down a book holds bids only. */
  lemma InvBids(b: Book)
    requires Inv(b)
    ensures BidsTo(b.levels, b.bidMax, b.orderId)
  {
    forall p | 0 <= p <= b.bidMax && p < |b.levels|
      ensures Queued(b.levels[p], p, Buy, b.orderId) && ArrivalOrdered(b.levels[p], Buy)
    {
      assert Standing(b.levels[p], p, b.bidMax, b.askMin, b.orderId);
    }
  }

  /** A new buy, younger than every queued order, goes in at the front of its
      level and keeps the level in arrival order. */
  lemma PushBuy(q: seq<Order>, o: Order, p: int, id: int)
    requires Queued(q, p, Buy, id) && ArrivalOrdered(q, Buy)
    requires o.side == Buy && o.price == p && o.size > 0 && id < o.orderId
    ensures Queued(Enqueue(q, o), p, Buy, o.orderId) && ArrivalOrdered(Enqueue(q, o), Buy)
  {
    var r := Enqueue(q, o);
    assert r == [o] + q;
    forall i | 0 <= i < |r| ensures r[i] == if i == 0 then o else q[i - 1] {
    }
  }

  /** A new sell goes in at the back of its level. */
  lemma PushSell(q: seq<Order>, o: Order, p: int, id: int)
    requires Queued(q, p, Sell, id) && ArrivalOrdered(q, Sell)
    requires o.side == Sell && o.price == p && o.size > 0 && id < o.orderId
    ensures Queued(Enqueue(q, o), p, Sell, o.orderId) && ArrivalOrdered(Enqueue(q, o), Sell)
  {
    var r := Enqueue(q, o);
    assert r == q + [o];
    forall i | 0 <= i < |r| ensures r[i] == if i == |q| then o else q[i] {
    }
  }

  /** A buy keeps the invariant. */
  lemma {:induction false} BuyKeepsInv(b: Book, size: int, price: int, trader: Trader)
    requires Inv(b) && 0 <= price < |b.levels| && size > 0
    ensures Inv(Submit(b, Buy, size, price, trader).book)
  {
    var id := b.orderId + 1;
    var order := Order(Buy, size, price, trader, id);
    var w := WalkAsks(b.levels, b.askMin, order);
    InvAsks(b);
    WalkAsksEnds(b.levels, b.askMin, order, b.orderId);
    var rests := w.order.size > 0;
    var levels := if rests then w.levels[price := Enqueue(w.levels[price], w.order)] else w.levels;
    var bidMax := if rests then Max(b.bidMax, price) else b.bidMax;
    var nb := Book(levels, bidMax, w.cursor, id);
    assert Submit(b, Buy, size, price, trader).book == nb;
    assert Cursors(|levels|, bidMax, w.cursor);
    forall p | 0 <= p < |levels|
      ensures Standing(levels[p], p, bidMax, w.cursor, id)
    {
      var old_q := b.levels[p];
      assert Standing(old_q, p, b.bidMax, b.askMin, b.orderId);
      if w.cursor <= p {
        assert p != price || !rests;
        assert Queued(levels[p], p, Sell, id);
      } else if b.askMin <= p {
        assert w.levels[p] == [];
        if rests && p == price {
          PushBuy([], w.order, p, b.orderId);
        }
      } else {
        assert w.levels[p] == old_q;
        assert old_q == [] || (Queued(old_q, p, Buy, b.orderId) && ArrivalOrdered(old_q, Buy));
        if rests && p == price {
          PushBuy(old_q, w.order, p, b.orderId);
        } else {
          assert Queued(old_q, p, Buy, id);
        }
      }
    }
  }

  /** A sell keeps the invariant. */
  lemma {:induction false} SellKeepsInv(b: Book, size: int, price: int, trader: Trader)
    requires Inv(b) && 0 <= price < |b.levels| && size > 0
    ensures Inv(Submit(b, Sell, size, price, trader).book)
  {
    var id := b.orderId + 1;
    var order := Order(Sell, size, price, trader, id);
    var w := WalkBids(b.levels, b.bidMax, order);
    InvBids(b);
    WalkBidsEnds(b.levels, b.bidMax, order, b.orderId);
    var rests := w.order.size > 0;
    var levels := if rests then w.levels[price := Enqueue(w.levels[price], w.order)] else w.levels;
    var askMin := if rests then Min(b.askMin, price) else b.askMin;
    var nb := Book(levels, w.cursor, askMin, id);
    assert Submit(b, Sell, size, price, trader).book == nb;
    assert Cursors(|levels|, w.cursor, askMin);
    forall p | 0 <= p < |levels|
      ensures Standing(levels[p], p, w.cursor, askMin, id)
    {
      var old_q := b.levels[p];
      assert Standing(old_q, p, b.bidMax, b.askMin, b.orderId);
      if p <= w.cursor {
        assert p != price || !rests;
        assert Queued(levels[p], p, Buy, id);
      } else if p <= b.bidMax {
        assert w.levels[p] == [];
        if rests && p == price {
          PushSell([], w.order, p, b.orderId);
        }
      } else {
        assert w.levels[p] == old_q;
        assert old_q == [] || (Queued(old_q, p, Sell, b.orderId) && ArrivalOrdered(old_q, Sell));
        if rests && p == price {
          PushSell(old_q, w.order, p, b.orderId);
        } else {
          assert Queued(old_q, p, Sell, id);
        }
      }
    }
  }

  /** Every submission, accepted or not, leaves a book that satisfies the
      invariant: never crossed, every order at its own price point on the
      side of its cursor, and every level in arrival order. */
  lemma SubmitKeepsInv(b: Book, side: Side, size: int, price: int, trader: Trader)
    requires Inv(b)
    ensures Inv(Submit(b, side, size, price, trader).book)
  {
    if 0 <= price < |b.levels| && size > 0 {
      if side == Buy {
        BuyKeepsInv(b, size, price, trader);
      } else {
        SellKeepsInv(b, size, price, trader);
      }
    }
  }

  // ---------------------------------------------------------------------
  // What a submission reports and where its remainder goes

  /** Price priority of an accepted buy, against the book it leaves. */
  lemma {:induction false} BuyPriceFirst(b: Book, size: int, price: int, trader: Trader)
    requires Inv(b) && 0 <= price < |b.levels| && size > 0
    ensures var out := Submit(b, Buy, size, price, trader);
      PricedWithin(out.trades, b.askMin, out.book.askMin) && CheaperUsedUp(out.book.levels, b.askMin, out.trades)
  {
    var order := Order(Buy, size, price, trader, b.orderId + 1);
    var w := WalkAsks(b.levels, b.askMin, order);
    assert PricedWithin(w.trades, b.askMin, price) && PricedWithin(w.trades, b.askMin, w.cursor) by {
      InvAsks(b);
      WalkAsksPrices(b.levels, b.askMin, order, b.orderId);
    }
    assert forall p :: b.askMin <= p < w.cursor && p < |b.levels| ==> w.levels[p] == [] by {
      InvAsks(b);
      WalkAsksEnds(b.levels, b.askMin, order, b.orderId);
    }
    var out := Submit(b, Buy, size, price, trader);
    assert out.trades == w.trades && out.book.askMin == w.cursor && |out.book.levels| == |w.levels|;
    assert forall p :: 0 <= p < |w.levels| && p != price ==> out.book.levels[p] == w.levels[p];
    forall i, p | 0 <= i < |out.trades| && b.askMin <= p < out.trades[i].price && 0 <= p < |out.book.levels|
      ensures out.book.levels[p] == []
    {
      assert out.trades[i].price <= price && out.trades[i].price <= w.cursor;
    }
  }

  /** Price priority of an accepted sell, against the book it leaves. */
  lemma {:induction false} SellPriceFirst(b: Book, size: int, price: int, trader: Trader)
    requires Inv(b) && 0 <= price < |b.levels| && size > 0
    ensures var out := Submit(b, Sell, size, price, trader);
      PricedWithin(out.trades, out.book.bidMax, b.bidMax) && DearerUsedUp(out.book.levels, b.bidMax, out.trades)
  {
    var order := Order(Sell, size, price, trader, b.orderId + 1);
    var w := WalkBids(b.levels, b.bidMax, order);
    assert PricedWithin(w.trades, price, b.bidMax) && PricedWithin(w.trades, w.cursor, b.bidMax) by {
      InvBids(b);
      WalkBidsPrices(b.levels, b.bidMax, order, b.orderId);
    }
    assert forall p :: w.cursor < p <= b.bidMax && 0 <= p ==> w.levels[p] == [] by {
      InvBids(b);
      WalkBidsEnds(b.levels, b.bidMax, order, b.orderId);
    }
    var out := Submit(b, Sell, size, price, trader);
    assert out.trades == w.trades && out.book.bidMax == w.cursor && |out.book.levels| == |w.levels|;
    assert forall p :: 0 <= p < |w.levels| && p != price ==> out.book.levels[p] == w.levels[p];
    forall i, p | 0 <= i < |out.trades| && out.trades[i].price < p <= b.bidMax && 0 <= p < |out.book.levels|
      ensures out.book.levels[p] == []
    {
      assert price <= out.trades[i].price && w.cursor <= out.trades[i].price;
    }
  }

  /** An accepted buy trades only against asks from the ask cursor up to its
      limit, cheapest first, as the buyer, for at most its own quantity; no
      fill is above the new ask cursor, and every ask level below the price
      of a fill has been used up, so a dearer ask is taken only once the
      cheaper ones are gone (price priority). What
      is left rests at the front of its level with the id that was handed
      out, covered by the bid cursor and below the ask cursor, so no ask it
      could have taken is left behind. A buy that is filled rests nowhere and
      leaves the bid cursor alone. Price points below the old ask cursor,
      other than the limit, are untouched. */
  lemma {:induction false} SubmitBuy(b: Book, size: int, price: int, trader: Trader)
    requires Inv(b) && 0 <= price < |b.levels| && size > 0
    ensures var out := Submit(b, Buy, size, price, trader); var filled := Volume(out.trades);
      0 <= filled <= size &&
      PricedWithin(out.trades, b.askMin, price) && Rising(out.trades) && BoughtBy(out.trades, trader) &&
      PricedWithin(out.trades, b.askMin, out.book.askMin) && CheaperUsedUp(out.book.levels, b.askMin, out.trades) &&
      (filled < size ==>
        out.book.levels[price] != [] &&
        out.book.levels[price][0] == Order(Buy, size - filled, price, trader, b.orderId + 1) &&
        price <= out.book.bidMax && price < out.book.askMin) &&
      (filled == size ==> out.book.bidMax == b.bidMax) &&
      (forall p :: 0 <= p < b.askMin && p < |b.levels| && p != price ==> out.book.levels[p] == b.levels[p])
  {
    var id := b.orderId + 1;
    var order := Order(Buy, size, price, trader, id);
    var w := WalkAsks(b.levels, b.askMin, order);
    assert (w.order.size <= 0 || price < w.cursor) && 0 <= w.order.size <= size &&
      (forall p :: 0 <= p < b.askMin && p < |b.levels| ==> w.levels[p] == b.levels[p]) by {
      InvAsks(b);
      WalkAsksEnds(b.levels, b.askMin, order, b.orderId);
    }
    assert size - w.order.size == Volume(w.trades) by {
      WalkAsksConserves(b.levels, b.askMin, order);
    }
    assert PricedWithin(w.trades, b.askMin, price) && Rising(w.trades) && BoughtBy(w.trades, trader) by {
      InvAsks(b);
      WalkAsksPrices(b.levels, b.askMin, order, b.orderId);
    }
    BuyPriceFirst(b, size, price, trader);
    assert w.order == order.(size := w.order.size);
    var out := Submit(b, Buy, size, price, trader);
    assert out.trades == w.trades;
    if w.order.size > 0 {
      assert out.book == Book(w.levels[price := Enqueue(w.levels[price], w.order)], Max(b.bidMax, price), w.cursor, id);
    } else {
      assert out.book == Book(w.levels, b.bidMax, w.cursor, id);
    }
  }

  /** The mirror image for an accepted sell: it trades only against bids from
      its limit up to the bid cursor, dearest first, as the seller, taking a
      cheaper bid only once the dearer ones are used up; what is
      left rests at the back of its level, covered by the ask cursor and
      above the bid cursor. */
  lemma {:induction false} SubmitSell(b: Book, size: int, price: int, trader: Trader)
    requires Inv(b) && 0 <= price < |b.levels| && size > 0
    ensures var out := Submit(b, Sell, size, price, trader); var filled := Volume(out.trades);
      0 <= filled <= size &&
      PricedWithin(out.trades, price, b.bidMax) && Falling(out.trades) && SoldBy(out.trades, trader) &&
      PricedWithin(out.trades, out.book.bidMax, b.bidMax) && DearerUsedUp(out.book.levels, b.bidMax, out.trades) &&
      (filled < size ==>
        out.book.levels[price] != [] &&
        Last(out.book.levels[price]) == Order(Sell, size - filled, price, trader, b.orderId + 1) &&
        out.book.askMin <= price && out.book.bidMax < price) &&
      (filled == size ==> out.book.askMin == b.askMin) &&
      (forall p :: b.bidMax < p < |b.levels| && p != price ==> out.book.levels[p] == b.levels[p])
  {
    var id := b.orderId + 1;
    var order := Order(Sell, size, price, trader, id);
    var w := WalkBids(b.levels, b.bidMax, order);
    assert (w.order.size <= 0 || w.cursor < price) && 0 <= w.order.size <= size &&
      (forall p :: b.bidMax < p < |b.levels| ==> w.levels[p] == b.levels[p]) by {
      InvBids(b);
      WalkBidsEnds(b.levels, b.bidMax, order, b.orderId);
    }
    assert size - w.order.size == Volume(w.trades) by {
      WalkBidsConserves(b.levels, b.bidMax, order);
    }
    assert PricedWithin(w.trades, price, b.bidMax) && Falling(w.trades) && SoldBy(w.trades, trader) by {
      InvBids(b);
      WalkBidsPrices(b.levels, b.bidMax, order, b.orderId);
    }
    SellPriceFirst(b, size, price, trader);
    assert w.order == order.(size := w.order.size);
    var out := Submit(b, Sell, size, price, trader);
    assert out.trades == w.trades;
    if w.order.size > 0 {
      assert out.book == Book(w.levels[price := Enqueue(w.levels[price], w.order)], w.cursor, Min(b.askMin, price), id);
    } else {
      assert out.book == Book(w.levels, w.cursor, b.askMin, id);
    }
  }

  /** A buy below the ask cursor crosses nothing: no fill is reported and the
      whole order rests at the front of its level, with the bid cursor
      raised to its limit if it was lower; nothing else changes. */
  lemma NonCrossingBuyRests(b: Book, size: int, price: int, trader: Trader)
    requires Inv(b) && 0 <= price < |b.levels| && size > 0 && price < b.askMin
    ensures var out := Submit(b, Buy, size, price, trader); var o := Order(Buy, size, price, trader, b.orderId + 1);
      out.trades == [] &&
      out.book == Book(b.levels[price := [o] + b.levels[price]], Max(b.bidMax, price), b.askMin, b.orderId + 1)
  {
  }

  /** A sell above the bid cursor crosses nothing and rests whole at the back
      of its level. */
  lemma NonCrossingSellRests(b: Book, size: int, price: int, trader: Trader)
    requires Inv(b) && 0 <= price < |b.levels| && size > 0 && b.bidMax < price
    ensures var out := Submit(b, Sell, size, price, trader); var o := Order(Sell, size, price, trader, b.orderId + 1);
      out.trades == [] &&
      out.book == Book(b.levels[price := b.levels[price] + [o]], b.bidMax, Min(b.askMin, price), b.orderId + 1)
  {
  }
}
