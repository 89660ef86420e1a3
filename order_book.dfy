/** OrderBookLL (orderbook_ll.py:121-212): a ladder of OrderLevel objects, one per
    price point, with the cursors bid_max and ask_min and the id counter. Its
    state is read as a BookSpec.Book, and limit_order is proved to do what
    BookSpec.Submit says. */
module OrderBooks {
  import opened Orders
  import opened Matching
  import opened Levels
  import opened BookSpec

  class OrderBookLL {
    const name: string
    const maxPrice: int
    /** price_points: the list is built once and never replaced; the levels in
        it change in place. */
    const pricePoints: seq<OrderLevel>
    var bidMax: int
    var askMin: int
    var orderId: int

    /** The queues of the ladder, price point by price point. */
    ghost var Queues: seq<seq<Order>>

    /** Level i of the ladder is a well-formed level for price i holding
        Queues[i], and no level appears twice. */
    ghost predicate Ladder()
      reads `Queues, pricePoints
    {
      |pricePoints| == maxPrice && |Queues| == maxPrice &&
      (forall i {:trigger Level(i)} :: 0 <= i < |pricePoints| ==>
        Level(i).Valid() && Level(i).price == i && Level(i).Orders() == Queues[i]) &&
      (forall i, j :: 0 <= i < j < |pricePoints| ==> pricePoints[i] != pricePoints[j])
    }

    /** Level i of the ladder. */
    ghost function Level(i: int): OrderLevel
      requires 0 <= i < |pricePoints|
    {
      pricePoints[i]
    }

    /** The book this object stands for. */
    ghost function Abstract(): Book
      reads this
    {
      Book(Queues, bidMax, askMin, orderId)
    }

    ghost predicate Valid()
      reads this, pricePoints
    {
      Ladder() && Inv(Abstract())
    }

    /** __init__ (orderbook_ll.py:122-148): max_price empty levels, one per
        price 0 .. max_price - 1, bid_max 0, ask_min max_price + 1, and the
        id counter at start_order_id. */
    constructor (name: string, maxPrice: nat, startOrderId: int)
      ensures Valid() && this.name == name && this.maxPrice == maxPrice
      ensures Abstract() == Empty(maxPrice, startOrderId)
      ensures bidMax == 0 && askMin == maxPrice + 1 && orderId == startOrderId
    {
      var pts: seq<OrderLevel> := [];
      var i := 0;
      while i < maxPrice
        invariant 0 <= i <= maxPrice && |pts| == i
        invariant forall j :: 0 <= j < i ==> pts[j].Valid() && pts[j].price == j && pts[j].Orders() == []
        invariant forall j, k :: 0 <= j < k < i ==> pts[j] != pts[k]
      {
        var level := new OrderLevel(i);
        pts := pts + [level];
        i := i + 1;
      }
      this.name := name;
      this.maxPrice := maxPrice;
      pricePoints := pts;
      Queues := seq(maxPrice, _ => []);
      bidMax := 0;
      askMin := maxPrice + 1;
      orderId := startOrderId;
    }

    /** Execute an order against the level at price point p and say whether
        the level still holds orders (orderbook_ll.py:184-185, :201-202).
        Only that level changes. */
    method ExecuteAt(p: int, order: Order) returns (rest: Order, trades: seq<Trade>, has: bool)
      requires Ladder() && 0 <= p < maxPrice
      modifies this, pricePoints[p]
      ensures Ladder() && bidMax == old(bidMax) && askMin == old(askMin) && orderId == old(orderId)
      ensures var f := if order.side == Buy then FillBuy(order, old(Queues)[p]) else FillSell(order, old(Queues)[p]);
        Queues == old(Queues)[p := f.queue] && rest == f.order && trades == f.trades && (has <==> f.queue != [])
    {
      var level := pricePoints[p];
      assert level == Level(p);
      rest, trades := level.ExecuteOrder(order);
      has := level.HasOrders();
      Queues := Queues[p := level.Orders()];
    }

    /** The crossing loop of a buy (orderbook_ll.py:183-188), proved to do
        what WalkAsks says: it executes the order against the level at
        ask_min and moves ask_min up while the limit reaches it and quantity
        is left. */
    method MatchAsks(order: Order, ghost id: int) returns (rest: Order, trades: seq<Trade>)
      requires Ladder() && 0 <= askMin && 0 <= order.price < maxPrice && order.side == Buy
      requires AsksFrom(Queues, askMin, id)
      modifies this, pricePoints
      ensures Ladder() && bidMax == old(bidMax) && orderId == old(orderId)
      ensures var w := WalkAsks(old(Queues), old(askMin), order);
        Queues == w.levels && askMin == w.cursor && rest == w.order && trades == w.trades
    {
      ghost var w0 := WalkAsks(Queues, askMin, order);
      rest, trades := order, [];
      while order.price >= askMin && rest.size > 0
        invariant Ladder() && bidMax == old(bidMax) && orderId == old(orderId) && 0 <= askMin
        invariant SameOrder(rest, order) && AsksFrom(Queues, askMin, id)
        invariant AsksResume(Queues, askMin, rest, trades, w0)
        decreases order.price + 1 - askMin, rest.size
      {
        ghost var levels, cursor, before, done := Queues, askMin, rest, trades;
        var got, t, has := ExecuteAt(askMin, rest);
        trades := trades + t;
        rest := got;
        // orderbook_ll.py:188 moves ask_min up after every level, also past
        // one the order only partly took; it is meant to move past used-up
        // levels only.
        if !has {
          askMin := askMin + 1;
        }
        AsksResumeStep(levels, cursor, before, done, w0, id, Queues, askMin, rest, t);
      }
      AsksResumeEnd(Queues, askMin, rest, trades, w0);
    }

    /** The crossing loop of a sell (orderbook_ll.py:200-205), proved to do
        what WalkBids says. The source executes through executeBuyOrder here
        (:202), which never trades a sell against the queued buys; the
        execution used is executeOrder's, which dispatches on the side. */
    method MatchBids(order: Order, ghost id: int) returns (rest: Order, trades: seq<Trade>)
      requires Ladder() && bidMax < maxPrice && 0 <= order.price < maxPrice && order.side == Sell
      requires BidsTo(Queues, bidMax, id)
      modifies this, pricePoints
      ensures Ladder() && askMin == old(askMin) && orderId == old(orderId)
      ensures var w := WalkBids(old(Queues), old(bidMax), order);
        Queues == w.levels && bidMax == w.cursor && rest == w.order && trades == w.trades
    {
      ghost var w0 := WalkBids(Queues, bidMax, order);
      rest, trades := order, [];
      while order.price <= bidMax && rest.size > 0
        invariant Ladder() && askMin == old(askMin) && orderId == old(orderId) && bidMax < maxPrice
        invariant SameOrder(rest, order) && BidsTo(Queues, bidMax, id)
        invariant BidsResume(Queues, bidMax, rest, trades, w0)
        decreases bidMax + 1 - order.price, rest.size
      {
        ghost var levels, cursor, before, done := Queues, bidMax, rest, trades;
        var got, t, has := ExecuteAt(bidMax, rest);
        trades := trades + t;
        rest := got;
        // orderbook_ll.py:205 moves bid_max down after every level; it is
        // meant to move past used-up levels only.
        if !has {
          bidMax := bidMax - 1;
        }
        BidsResumeStep(levels, cursor, before, done, w0, id, Queues, bidMax, rest, t);
      }
      BidsResumeEnd(Queues, bidMax, rest, trades, w0);
    }

    /** addOrder on the level at price point p (orderbook_ll.py:194, :210).
        Only that level changes. */
    method AddAt(p: int, o: Order)
      requires Ladder() && 0 <= p < maxPrice && o.size > 0
      modifies this, pricePoints[p]
      ensures Ladder() && bidMax == old(bidMax) && askMin == old(askMin) && orderId == old(orderId)
      ensures Queues == old(Queues)[p := Enqueue(old(Queues)[p], o)]
    {
      var level := pricePoints[p];
      assert level == Level(p);
      level.AddOrder(o);
      Queues := Queues[p := level.Orders()];
    }

    /** The buy path of limit_order (orderbook_ll.py:179-194) for an order
        that has passed the checks: cross the asks from ask_min up, then rest
        what is left at its price and raise bid_max to it. */
    method PlaceBuy(size: int, price: int, trader: Trader) returns (r: Result<int>, trades: seq<Trade>)
      requires Valid() && 0 <= price < maxPrice && size > 0
      modifies this, pricePoints
      ensures Valid()
      ensures var out := Submit(old(Abstract()), Buy, size, price, trader);
        r == out.result && trades == out.trades && Abstract() == out.book
    {
      ghost var b := Abstract();
      ghost var out := Submit(b, Buy, size, price, trader);
      SubmitKeepsInv(b, Buy, size, price, trader);
      InvAsks(b);
      orderId := orderId + 1;
      var order := Order(Buy, size, price, trader, orderId);
      var rest;
      rest, trades := MatchAsks(order, b.orderId);
      // :193 counts the id up a second time here; one id per order is meant.
      if rest.size > 0 {
        AddAt(price, rest);
        bidMax := Max(bidMax, price);
      }
      r := Ok(orderId);
      assert Abstract() == out.book;
    }

    /** The sell path of limit_order (orderbook_ll.py:195-210): cross the
        bids from bid_max down, then rest what is left and lower ask_min. */
    method PlaceSell(size: int, price: int, trader: Trader) returns (r: Result<int>, trades: seq<Trade>)
      requires Valid() && 0 <= price < maxPrice && size > 0
      modifies this, pricePoints
      ensures Valid()
      ensures var out := Submit(old(Abstract()), Sell, size, price, trader);
        r == out.result && trades == out.trades && Abstract() == out.book
    {
      ghost var b := Abstract();
      ghost var out := Submit(b, Sell, size, price, trader);
      SubmitKeepsInv(b, Sell, size, price, trader);
      InvBids(b);
      orderId := orderId + 1;
      var order := Order(Sell, size, price, trader, orderId);
      var rest;
      rest, trades := MatchBids(order, b.orderId);
      // :209 counts the id up a second time here.
      if rest.size > 0 {
        AddAt(price, rest);
        askMin := Min(askMin, price);
      }
      r := Ok(orderId);
      assert Abstract() == out.book;
    }

    /** limit_order (orderbook_ll.py:161-212): the result, the fills reported
        and the new state are those BookSpec.Submit gives for the book this
        object stood for, so everything proved about Submit holds of it, and
        the invariant of the book is kept. */
    method LimitOrder(side: Side, size: int, price: int, trader: Trader) returns (r: Result<int>, trades: seq<Trade>)
      requires Valid()
      modifies this, pricePoints
      ensures Valid()
      ensures var out := Submit(old(Abstract()), side, size, price, trader);
        r == out.result && trades == out.trades && Abstract() == out.book
    {
      // The source counts the id up before it looks at the order (:175) and
      // checks only the type of the price (:176); here the price and the
      // size are checked first and a refused order takes no id.
      if price < 0 || maxPrice <= price {
        return Err(InvalidPrice), [];
      }
      if size <= 0 {
        return Err(InvalidSize), [];
      }
      if side == Buy {
        r, trades := PlaceBuy(size, price, trader);
      } else {
        r, trades := PlaceSell(size, price, trader);
      }
    }
  }
}
