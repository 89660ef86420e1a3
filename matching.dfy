/** The fill arithmetic of one price level, as pure functions on the queue of
    its resting orders (left to right, oldest sell first, oldest buy last).
    OrderLevel.ExecuteBuyOrder and OrderLevel.ExecuteSellOrder are proved to
    compute exactly these. */
module Matching {
  import opened Orders

  /** What an execution leaves: the incoming order with its remaining size,
      the resting queue, and the trades in execution order. */
  datatype Fill = Fill(order: Order, queue: seq<Order>, trades: seq<Trade>)

  /** An incoming buy walks the level from the left: while the order has size
      and the resting order in front is a sell, either the resting order
      shrinks and the incoming order is done, or the resting order is used up,
      leaves the queue, and the walk goes on with the next one. */
  function FillBuy(order: Order, queue: seq<Order>): (f: Fill)
    ensures SameOrder(f.order, order)
    ensures Positive(queue) ==> f.order.size <= order.size
    ensures order.size >= 0 && Positive(queue) ==> 0 <= f.order.size
    ensures |f.queue| <= |queue|
    decreases |queue|
  {
    if order.size <= 0 || queue == [] || queue[0].side != Sell then
      Fill(order, queue, [])
    else
      var resting := queue[0];
      if order.size < resting.size then
        Fill(order.(size := 0),
             [resting.(size := resting.size - order.size)] + queue[1..],
             [Trade(order.trader, resting.trader, resting.price, order.size)])
      else
        var f := FillBuy(order.(size := order.size - resting.size), queue[1..]);
        Fill(f.order, f.queue, [Trade(order.trader, resting.trader, resting.price, resting.size)] + f.trades)
  }

  /** An incoming sell walks the level from the right: the mirror image of
      FillBuy, consuming resting buys from the back of the queue. */
  function FillSell(order: Order, queue: seq<Order>): (f: Fill)
    ensures SameOrder(f.order, order)
    ensures Positive(queue) ==> f.order.size <= order.size
    ensures order.size >= 0 && Positive(queue) ==> 0 <= f.order.size
    ensures |f.queue| <= |queue|
    decreases |queue|
  {
    if order.size <= 0 || queue == [] || Last(queue).side != Buy then
      Fill(order, queue, [])
    else
      var resting := Last(queue);
      var front := queue[..|queue| - 1];
      if order.size < resting.size then
        Fill(order.(size := 0),
             front + [resting.(size := resting.size - order.size)],
             [Trade(resting.trader, order.trader, resting.price, order.size)])
      else
        var f := FillSell(order.(size := order.size - resting.size), front);
        Fill(f.order, f.queue, [Trade(resting.trader, order.trader, resting.price, resting.size)] + f.trades)
  }

  /** One round of an incoming buy against the front order q[0], a sell: a
      smaller buy leaves its remainder there and is done; a buy at least as
      large uses it up. left is what is left of the buy, t the trade, q2
      the queue afterwards. */
  predicate BuyRound(rest: Order, q: seq<Order>, left: Order, t: Trade, q2: seq<Order>)
    requires q != []
  {
    if rest.size < q[0].size then
      left == rest.(size := 0) && t == Trade(rest.trader, q[0].trader, q[0].price, rest.size) &&
      q2 == q[0 := q[0].(size := q[0].size - rest.size)]
    else
      left == rest.(size := rest.size - q[0].size) && t == Trade(rest.trader, q[0].trader, q[0].price, q[0].size) &&
      q2 == q[1..]
  }

  /** One round of an incoming sell against the back order, a buy, which is
      the buyer of the trade. */
  predicate SellRound(rest: Order, q: seq<Order>, left: Order, t: Trade, q2: seq<Order>)
    requires q != []
  {
    var k := |q| - 1;
    if rest.size < q[k].size then
      left == rest.(size := 0) && t == Trade(q[k].trader, rest.trader, q[k].price, rest.size) &&
      q2 == q[k := q[k].(size := q[k].size - rest.size)]
    else
      left == rest.(size := rest.size - q[k].size) && t == Trade(q[k].trader, rest.trader, q[k].price, q[k].size) &&
      q2 == q[..k]
  }

  /** A fill in progress: the trades done so far followed by those of f make
      up the trades of f0, and f ends where f0 ends. */
  predicate Resumes(f: Fill, done: seq<Trade>, f0: Fill) {
    f.order == f0.order && f.queue == f0.queue && done + f.trades == f0.trades
  }

  /** A round of a buy is the first step of FillBuy: after it the fill
      still ends where it did, with the round's trade done. */
  lemma FillBuyRound(rest: Order, q: seq<Order>, done: seq<Trade>, f0: Fill, left: Order, t: Trade, q2: seq<Order>)
    requires q != [] && q[0].side == Sell && 0 < rest.size
    requires Resumes(FillBuy(rest, q), done, f0) && BuyRound(rest, q, left, t, q2)
    ensures Resumes(FillBuy(left, q2), done + [t], f0)
  {
    if rest.size < q[0].size {
      assert q2 == [q[0].(size := q[0].size - rest.size)] + q[1..];
      assert FillBuy(rest, q) == Fill(left, q2, [t]);
      assert FillBuy(left, q2) == Fill(left, q2, []);
      assert done + [t] + [] == done + [t];
    } else {
      var g := FillBuy(left, q2);
      assert FillBuy(rest, q) == Fill(g.order, g.queue, [t] + g.trades);
      AppendAssoc(done, [t], g.trades);
    }
  }

  /** A round of a sell is the first step of FillSell. */
  lemma FillSellRound(rest: Order, q: seq<Order>, done: seq<Trade>, f0: Fill, left: Order, t: Trade, q2: seq<Order>)
    requires q != [] && Last(q).side == Buy && 0 < rest.size
    requires Resumes(FillSell(rest, q), done, f0) && SellRound(rest, q, left, t, q2)
    ensures Resumes(FillSell(left, q2), done + [t], f0)
  {
    var k := |q| - 1;
    if rest.size < q[k].size {
      assert q2 == q[..k] + [q[k].(size := q[k].size - rest.size)];
      assert FillSell(rest, q) == Fill(left, q2, [t]);
      assert FillSell(left, q2) == Fill(left, q2, []);
      assert done + [t] + [] == done + [t];
    } else {
      var g := FillSell(left, q2);
      assert FillSell(rest, q) == Fill(g.order, g.queue, [t] + g.trades);
      AppendAssoc(done, [t], g.trades);
    }
  }

  /** Conservation: what the incoming buy loses, the trades carry, and so
      does what the resting queue loses. */
  lemma {:induction false} FillBuyConserves(order: Order, queue: seq<Order>)
    ensures var f := FillBuy(order, queue);
      order.size - f.order.size == Volume(f.trades) &&
      SizeOf(queue) - SizeOf(f.queue) == Volume(f.trades)
    decreases |queue|
  {
    if order.size <= 0 || queue == [] || queue[0].side != Sell {
    } else if order.size < queue[0].size {
      var f := FillBuy(order, queue);
      assert f.queue[1..] == queue[1..];
      assert Volume(f.trades) == order.size;
    } else {
      FillBuyConserves(order.(size := order.size - queue[0].size), queue[1..]);
    }
  }

  lemma {:induction false} FillSellConserves(order: Order, queue: seq<Order>)
    ensures var f := FillSell(order, queue);
      order.size - f.order.size == Volume(f.trades) &&
      SizeOf(queue) - SizeOf(f.queue) == Volume(f.trades)
    decreases |queue|
  {
    if order.size <= 0 || queue == [] || Last(queue).side != Buy {
    } else {
      var front := queue[..|queue| - 1];
      assert queue == front + [Last(queue)];
      SizeOfAppend(front, [Last(queue)]);
      var f := FillSell(order, queue);
      if order.size < Last(queue).size {
        SizeOfAppend(front, [Last(queue).(size := Last(queue).size - order.size)]);
        assert Volume(f.trades) == order.size;
      } else {
        FillSellConserves(order.(size := order.size - Last(queue).size), front);
      }
    }
  }

  /** Time priority for an incoming buy: the k trades are against the k
      oldest resting orders, in arrival order, and every trade but possibly
      the last uses up its resting order. */
  lemma {:induction false} FillBuyTimePriority(order: Order, queue: seq<Order>)
    requires Positive(queue)
    ensures var f := FillBuy(order, queue); var k := |f.trades|;
      k <= |queue| &&
      forall i :: 0 <= i < k ==>
        f.trades[i] == Trade(order.trader, queue[i].trader, queue[i].price, f.trades[i].size) &&
        0 < f.trades[i].size <= queue[i].size &&
        (i < k - 1 ==> f.trades[i].size == queue[i].size)
    decreases |queue|
  {
    if order.size <= 0 || queue == [] || queue[0].side != Sell {
      assert FillBuy(order, queue).trades == [];
    } else if order.size < queue[0].size {
      assert FillBuy(order, queue).trades == [Trade(order.trader, queue[0].trader, queue[0].price, order.size)];
    } else {
      var rest := order.(size := order.size - queue[0].size);
      FillBuyTimePriority(rest, queue[1..]);
      var g := FillBuy(rest, queue[1..]);
      var f := FillBuy(order, queue);
      assert f.trades == [f.trades[0]] + g.trades;
      forall i | 0 < i < |f.trades|
        ensures f.trades[i] == Trade(order.trader, queue[i].trader, queue[i].price, f.trades[i].size)
        ensures 0 < f.trades[i].size <= queue[i].size
        ensures i < |f.trades| - 1 ==> f.trades[i].size == queue[i].size
      {
        assert f.trades[i] == g.trades[i - 1] && queue[i] == queue[1..][i - 1];
      }
    }
  }

  /** What an incoming buy leaves at the level: the orders after the last
      one it traded with, headed by that one's remainder when it was only
      partly filled, which ends the incoming order. */
  predicate LeftFromFront(queue: seq<Order>, f: Fill) {
    var k := |f.trades|;
    k <= |queue| &&
    ((f.queue == queue[k..] && (0 < k ==> f.trades[k - 1].size == queue[k - 1].size)) ||
     (0 < k && f.order.size == 0 &&
      f.queue == [queue[k - 1].(size := queue[k - 1].size - f.trades[k - 1].size)] + queue[k..]))
  }

  lemma {:induction false} FillBuyLeaves(order: Order, queue: seq<Order>)
    requires Positive(queue)
    ensures LeftFromFront(queue, FillBuy(order, queue))
    decreases |queue|
  {
    if order.size <= 0 || queue == [] || queue[0].side != Sell {
      assert FillBuy(order, queue).trades == [];
    } else if order.size < queue[0].size {
      assert FillBuy(order, queue).trades == [Trade(order.trader, queue[0].trader, queue[0].price, order.size)];
    } else {
      FillBuyLeaves(order.(size := order.size - queue[0].size), queue[1..]);
      FillBuyLeavesStep(order, queue);
    }
  }

  /** The inductive step of FillBuyLeaves: a buy that uses up the front sell
      leaves what the rest of it leaves of the others. */
  lemma {:induction false} FillBuyLeavesStep(order: Order, queue: seq<Order>)
    requires queue != [] && queue[0].side == Sell && 0 < queue[0].size <= order.size
    requires LeftFromFront(queue[1..], FillBuy(order.(size := order.size - queue[0].size), queue[1..]))
    ensures LeftFromFront(queue, FillBuy(order, queue))
  {
    var g := FillBuy(order.(size := order.size - queue[0].size), queue[1..]);
    var t := Trade(order.trader, queue[0].trader, queue[0].price, queue[0].size);
    assert FillBuy(order, queue) == Fill(g.order, g.queue, [t] + g.trades);
    var k := |g.trades|;
    assert queue[1..][k..] == queue[k + 1..];
    if 0 < k {
      assert ([t] + g.trades)[k] == g.trades[k - 1] && queue[k] == queue[1..][k - 1];
    }
  }

  /** Time priority for an incoming sell: the mirror image, with the k trades
      against the k rightmost (oldest) resting buys, taken from the back. */
  predicate TakenFromBack(order: Order, queue: seq<Order>, t: seq<Trade>) {
    var k := |t|; var n := |queue|;
    k <= n &&
    forall i :: 0 <= i < k ==>
      t[i] == Trade(queue[n - 1 - i].trader, order.trader, queue[n - 1 - i].price, t[i].size) &&
      0 < t[i].size <= queue[n - 1 - i].size &&
      (i < k - 1 ==> t[i].size == queue[n - 1 - i].size)
  }

  lemma {:induction false} FillSellTimePriority(order: Order, queue: seq<Order>)
    requires Positive(queue)
    ensures TakenFromBack(order, queue, FillSell(order, queue).trades)
    decreases |queue|
  {
    var n := |queue|;
    if order.size <= 0 || queue == [] || Last(queue).side != Buy {
      assert FillSell(order, queue).trades == [];
    } else if order.size < Last(queue).size {
      var f := FillSell(order, queue);
      assert f.trades == [Trade(queue[n - 1].trader, order.trader, queue[n - 1].price, order.size)];
      assert 0 < f.trades[0].size <= queue[n - 1].size;
    } else {
      var front := queue[..n - 1];
      assert Positive(front) by {
        forall i | 0 <= i < |front| ensures front[i].size > 0 { assert front[i] == queue[i]; }
      }
      FillSellTimePriority(order.(size := order.size - Last(queue).size), front);
      FillSellTimePriorityStep(order, queue);
    }
  }

  /** The inductive step of FillSellTimePriority: the first trade is against
      the last buy, and the others are those of the rest of the sell. */
  lemma {:induction false} FillSellTimePriorityStep(order: Order, queue: seq<Order>)
    requires queue != [] && Last(queue).side == Buy && 0 < Last(queue).size <= order.size
    requires var rest := order.(size := order.size - Last(queue).size); var front := queue[..|queue| - 1];
      TakenFromBack(rest, front, FillSell(rest, front).trades)
    ensures TakenFromBack(order, queue, FillSell(order, queue).trades)
  {
    var n := |queue|;
    var front := queue[..n - 1];
    var rest := order.(size := order.size - Last(queue).size);
    var g := FillSell(rest, front);
    assert TakenFromBack(rest, front, g.trades);
    var t := [Trade(Last(queue).trader, order.trader, Last(queue).price, Last(queue).size)] + g.trades;
    assert FillSell(order, queue).trades == t;
    forall i | 0 < i < |t|
      ensures t[i] == Trade(queue[n - 1 - i].trader, order.trader, queue[n - 1 - i].price, t[i].size)
      ensures 0 < t[i].size <= queue[n - 1 - i].size
      ensures i < |t| - 1 ==> t[i].size == queue[n - 1 - i].size
    {
      var j := i - 1;
      assert t[i] == g.trades[j] && queue[n - 1 - i] == front[|front| - 1 - j];
      assert g.trades[j] == Trade(front[|front| - 1 - j].trader, rest.trader, front[|front| - 1 - j].price, g.trades[j].size);
    }
  }

  /** What an incoming sell leaves at the level: the orders before the last
      one it traded with, ended by that one's remainder when it was only
      partly filled, which ends the incoming order. */
  predicate LeftFromBack(queue: seq<Order>, f: Fill) {
    var k := |f.trades|; var n := |queue|;
    k <= n &&
    ((f.queue == queue[..n - k] && (0 < k ==> f.trades[k - 1].size == queue[n - k].size)) ||
     (0 < k && f.order.size == 0 &&
      f.queue == queue[..n - k] + [queue[n - k].(size := queue[n - k].size - f.trades[k - 1].size)]))
  }

  lemma {:induction false} FillSellLeaves(order: Order, queue: seq<Order>)
    requires Positive(queue)
    ensures LeftFromBack(queue, FillSell(order, queue))
    decreases |queue|
  {
    var n := |queue|;
    if order.size <= 0 || queue == [] || Last(queue).side != Buy {
      assert FillSell(order, queue).trades == [];
    } else if order.size < Last(queue).size {
      assert FillSell(order, queue).trades == [Trade(Last(queue).trader, order.trader, Last(queue).price, order.size)];
    } else {
      var front := queue[..n - 1];
      var rest := order.(size := order.size - Last(queue).size);
      FillSellLeaves(rest, front);
      FillSellLeavesStep(order, queue);
    }
  }

  /** The inductive step of FillSellLeaves: a sell that uses up the last buy
      leaves what the rest of it leaves of the others. */
  lemma {:induction false} FillSellLeavesStep(order: Order, queue: seq<Order>)
    requires queue != [] && Last(queue).side == Buy && 0 < Last(queue).size <= order.size
    requires LeftFromBack(queue[..|queue| - 1], FillSell(order.(size := order.size - Last(queue).size), queue[..|queue| - 1]))
    ensures LeftFromBack(queue, FillSell(order, queue))
  {
    var n := |queue|;
    var front := queue[..n - 1];
    var g := FillSell(order.(size := order.size - Last(queue).size), front);
    var t := Trade(Last(queue).trader, order.trader, Last(queue).price, Last(queue).size);
    assert FillSell(order, queue) == Fill(g.order, g.queue, [t] + g.trades);
    var k := |g.trades|;
    assert front[..n - 1 - k] == queue[..n - (k + 1)];
    if g.queue == front[..n - 1 - k] && (0 < k ==> g.trades[k - 1].size == front[n - 1 - k].size) {
      if 0 < k {
        assert front[n - 1 - k] == queue[n - (k + 1)];
        assert ([t] + g.trades)[k] == g.trades[k - 1];
      }
    } else {
      assert front[n - 1 - k] == queue[n - (k + 1)];
      assert ([t] + g.trades)[k] == g.trades[k - 1];
    }
  }

  /** On a level that holds only sells, an incoming buy stops only when it
      is filled or the level is used up. */
  lemma {:induction false} FillBuyExhausts(order: Order, queue: seq<Order>)
    requires AllOnSide(queue, Sell)
    ensures var f := FillBuy(order, queue); f.queue == [] || f.order.size <= 0
    decreases |queue|
  {
    if order.size <= 0 || queue == [] || order.size < queue[0].size {
    } else {
      FillBuyExhausts(order.(size := order.size - queue[0].size), queue[1..]);
    }
  }

  lemma {:induction false} FillSellExhausts(order: Order, queue: seq<Order>)
    requires AllOnSide(queue, Buy)
    ensures var f := FillSell(order, queue); f.queue == [] || f.order.size <= 0
    decreases |queue|
  {
    if order.size <= 0 || queue == [] || order.size < Last(queue).size {
    } else {
      FillSellExhausts(order.(size := order.size - Last(queue).size), queue[..|queue| - 1]);
    }
  }

  /** Where OrderLevel.AddOrder puts an order: a buy goes in right after the
      left sentinel, a sell right before the right sentinel. The source
      routes on the size instead of the side (orderbook_ll.py:55); this is
      the routing it evidently means (see EnqueueAsWritten). */
  function Enqueue(q: seq<Order>, o: Order): (r: seq<Order>)
    ensures |r| == |q| + 1 && (if o.side == Buy then r[0] else Last(r)) == o
  {
    if o.side == Buy then [o] + q else q + [o]
  }

  /** The level of a stream of arriving orders. */
  function EnqueueAll(q: seq<Order>, arrivals: seq<Order>): seq<Order>
    decreases |arrivals|
  {
    if arrivals == [] then q else EnqueueAll(Enqueue(q, arrivals[0]), arrivals[1..])
  }

  function Reversed<T>(s: seq<T>): seq<T>
    decreases |s|
  {
    if s == [] then [] else Reversed(s[1..]) + [s[0]]
  }

  /** Enqueueing adds exactly the one order and moves nothing else. */
  lemma EnqueueAddsOne(q: seq<Order>, o: Order)
    ensures var r := Enqueue(q, o);
      multiset(r) == multiset(q) + multiset{o} &&
      (o.side == Buy ==> r[1..] == q) &&
      (o.side == Sell ==> r[..|q|] == q)
  {
  }

  /** Sells queue up in arrival order, oldest at the left. */
  lemma {:induction false} SellsQueueInArrivalOrder(q: seq<Order>, arrivals: seq<Order>)
    requires AllOnSide(arrivals, Sell)
    ensures EnqueueAll(q, arrivals) == q + arrivals
    decreases |arrivals|
  {
    if arrivals != [] {
      SellsQueueInArrivalOrder(q + [arrivals[0]], arrivals[1..]);
      assert q + [arrivals[0]] + arrivals[1..] == q + arrivals;
    }
  }

  /** Buys queue up in reverse arrival order, oldest at the right. */
  lemma {:induction false} BuysQueueInReverseArrivalOrder(q: seq<Order>, arrivals: seq<Order>)
    requires AllOnSide(arrivals, Buy)
    ensures EnqueueAll(q, arrivals) == Reversed(arrivals) + q
    decreases |arrivals|
  {
    if arrivals != [] {
      BuysQueueInReverseArrivalOrder([arrivals[0]] + q, arrivals[1..]);
      assert Reversed(arrivals[1..]) + ([arrivals[0]] + q) == Reversed(arrivals) + q;
    }
  }

  lemma {:induction false} ReversedAt<T>(s: seq<T>, i: int)
    requires 0 <= i < |s|
    ensures |Reversed(s)| == |s| && Reversed(s)[|s| - 1 - i] == s[i]
    decreases |s|
  {
    if i > 0 {
      ReversedAt(s[1..], i - 1);
    } else {
      ReversedLength(s[1..]);
    }
  }

  lemma {:induction false} ReversedLength<T>(s: seq<T>)
    ensures |Reversed(s)| == |s|
    decreases |s|
  {
    if s != [] {
      ReversedLength(s[1..]);
    }
  }

  /** Time priority at one level, from arrival to fill: an incoming buy
      trades with the resting sells in the order they arrived. */
  lemma FillBuyByArrival(order: Order, arrivals: seq<Order>)
    requires AllOnSide(arrivals, Sell) && Positive(arrivals)
    ensures var f := FillBuy(order, EnqueueAll([], arrivals));
      |f.trades| <= |arrivals| &&
      forall i :: 0 <= i < |f.trades| ==> f.trades[i].seller == arrivals[i].trader
  {
    assert EnqueueAll([], arrivals) == arrivals by {
      SellsQueueInArrivalOrder([], arrivals);
      assert [] + arrivals == arrivals;
    }
    FillBuyTimePriority(order, arrivals);
  }

  /** Time priority at one level, from arrival to fill: an incoming sell
      trades with the resting buys in the order they arrived, although they
      sit in the level in reverse. */
  lemma FillSellByArrival(order: Order, arrivals: seq<Order>)
    requires AllOnSide(arrivals, Buy) && Positive(arrivals)
    ensures var f := FillSell(order, EnqueueAll([], arrivals));
      |f.trades| <= |arrivals| &&
      forall i :: 0 <= i < |f.trades| ==> f.trades[i].buyer == arrivals[i].trader
  {
    var q := Reversed(arrivals);
    assert EnqueueAll([], arrivals) == q by {
      BuysQueueInReverseArrivalOrder([], arrivals);
      assert q + [] == q;
    }
    ReversedLength(arrivals);
    var n := |arrivals|;
    assert Positive(q) by {
      forall j | 0 <= j < n ensures q[j].size > 0 {
        ReversedAt(arrivals, n - 1 - j);
      }
    }
    FillSellTimePriority(order, q);
    var t := FillSell(order, q).trades;
    assert TakenFromBack(order, q, t);
    forall i | 0 <= i < |t|
      ensures t[i].buyer == arrivals[i].trader
    {
      ReversedAt(arrivals, i);
      assert t[i].buyer == q[n - 1 - i].trader;
    }
  }
}

