/** One price tick of the book (class OrderLevel of orderbook_ll.py): an
    intrusive doubly linked list between a left and a right sentinel.

    The nodes live in an arena owned by the level: node n is the order
    cells[n] with links next[n] and prev[n]; node 0 is the left sentinel and
    node 1 the right one. The ghost field Contents lists the nodes between the
    sentinels from left to right, and Orders() the orders they hold. */
module Levels {
  import opened Orders
  import opened Matching

  const LEFT := 0
  const RIGHT := 1
  /** The link of a node that is in no list (None in the source). */
  const NIL := -1

  /** The sentinels, as built at orderbook_ll.py:46-47. Their sides stop the
      two execution walks: a buy walk stops at the right sentinel (a BUY),
      a sell walk at the left one (a SELL). The source names them by the
      order ids "left" and "right"; here they get the ids -1 and -2. */
  function LeftSentinel(price: int): Order { Order(Sell, -1, price, "exchange", -1) }
  function RightSentinel(price: int): Order { Order(Buy, -1, price, "exchange", -2) }

  /** The node after position i of the list c (i == -1 is the left sentinel). */
  function After(c: seq<int>, i: int): int
    requires -1 <= i < |c|
  {
    if i + 1 < |c| then c[i + 1] else RIGHT
  }

  /** The node before position i of the list c (i == |c| is the right sentinel). */
  function Before(c: seq<int>, i: int): int
    requires 0 <= i <= |c|
  {
    if i > 0 then c[i - 1] else LEFT
  }

  /** Positions i and j of c hold different nodes. */
  predicate Apart(c: seq<int>, i: int, j: int)
    requires 0 <= i < |c| && 0 <= j < |c|
  {
    c[i] != c[j]
  }

  /** No node occurs twice in c. (The trigger keeps the pairs of positions
      out of proofs that do not ask for them.) */
  predicate Distinct(c: seq<int>) {
    forall i, j {:trigger Apart(c, i, j)} :: 0 <= i < j < |c| ==> Apart(c, i, j)
  }

  lemma DistinctAt(c: seq<int>, i: int, j: int)
    requires Distinct(c) && 0 <= i < |c| && 0 <= j < |c| && i != j
    ensures c[i] != c[j]
  {
    if i < j {
      assert Apart(c, i, j);
    } else {
      assert Apart(c, j, i);
    }
  }

  /** The links spell out exactly the list LEFT, c..., RIGHT in both
      directions. (The triggers keep the successor c[i + 1] of one fact from
      starting the next.) */
  predicate Linked(next: seq<int>, prev: seq<int>, c: seq<int>)
    requires |next| >= 2 && |prev| >= 2
    requires forall i :: 0 <= i < |c| ==> 0 <= c[i] < |next| && 0 <= c[i] < |prev|
  {
    next[LEFT] == After(c, -1) && prev[RIGHT] == Before(c, |c|) &&
    (forall i {:trigger next[c[i]]} :: 0 <= i < |c| ==> next[c[i]] == After(c, i)) &&
    (forall i {:trigger prev[c[i]]} :: 0 <= i < |c| ==> prev[c[i]] == Before(c, i))
  }

  /** The orders held by the nodes c, in list order. */
  function View(cells: seq<Order>, c: seq<int>): (v: seq<Order>)
    requires forall i :: 0 <= i < |c| ==> 0 <= c[i] < |cells|
    ensures |v| == |c| && forall i :: 0 <= i < |c| ==> v[i] == cells[c[i]]
  {
    seq(|c|, i requires 0 <= i < |c| => cells[c[i]])
  }

  /** Linking a fresh node n in right after the left sentinel
      (orderbook_ll.py:59-63) yields the list [n] + c. */
  lemma LinkFront(next: seq<int>, prev: seq<int>, c: seq<int>, n: int)
    requires |next| == |prev| == n >= 2
    requires forall i :: 0 <= i < |c| ==> 2 <= c[i] < n
    requires Linked(next, prev, c) && Distinct(c)
    ensures var nxt := next[LEFT];
      var nx := (next + [NIL])[LEFT := n][n := nxt];
      var pv := (prev + [NIL])[nxt := n][n := LEFT];
      Linked(nx, pv, [n] + c) && Distinct([n] + c)
  {
    var c2 := [n] + c;
    var nxt := next[LEFT];
    var nx := (next + [NIL])[LEFT := n][n := nxt];
    var pv := (prev + [NIL])[nxt := n][n := LEFT];
    if c == [] {
      assert nxt == RIGHT && pv[RIGHT] == n;
    } else {
      assert nxt == c[0] && pv[RIGHT] == prev[RIGHT];
    }
    forall i | 0 <= i < |c2|
      ensures nx[c2[i]] == After(c2, i) && pv[c2[i]] == Before(c2, i)
    {
      if i > 0 {
        assert c2[i] == c[i - 1];
        if i > 1 {
          DistinctAt(c, i - 1, 0);
        }
      }
    }
    forall a, b | 0 <= a < b < |c2|
      ensures Apart(c2, a, b)
    {
      if 0 < a {
        DistinctAt(c, a - 1, b - 1);
      }
    }
  }

  /** Linking a fresh node n in right before the right sentinel
      (orderbook_ll.py:66-70) yields the list c + [n]. */
  lemma LinkBack(next: seq<int>, prev: seq<int>, c: seq<int>, n: int)
    requires |next| == |prev| == n >= 2
    requires forall i :: 0 <= i < |c| ==> 2 <= c[i] < n
    requires Linked(next, prev, c) && Distinct(c)
    ensures var prv := prev[RIGHT];
      var pv := (prev + [NIL])[RIGHT := n][n := prv];
      var nx := (next + [NIL])[prv := n][n := RIGHT];
      Linked(nx, pv, c + [n]) && Distinct(c + [n])
  {
    var c2 := c + [n];
    var m := |c|;
    var prv := prev[RIGHT];
    var pv := (prev + [NIL])[RIGHT := n][n := prv];
    var nx := (next + [NIL])[prv := n][n := RIGHT];
    if c == [] {
      assert prv == LEFT && nx[LEFT] == n;
    } else {
      assert prv == c[m - 1] && nx[LEFT] == next[LEFT];
    }
    forall i | 0 <= i < |c2|
      ensures nx[c2[i]] == After(c2, i) && pv[c2[i]] == Before(c2, i)
    {
      if i < m {
        assert c2[i] == c[i];
        if i < m - 1 {
          DistinctAt(c, i, m - 1);
        }
      }
    }
    forall a, b | 0 <= a < b < |c2|
      ensures Apart(c2, a, b)
    {
      if b < m {
        DistinctAt(c, a, b);
      }
    }
  }

  /** The list invariant of a level at the given price: the sentinels are in
      place, the nodes c between them are distinct arena nodes holding orders
      of positive size, and the links join them in one left-to-right chain. */
  predicate LevelOk(price: int, cells: seq<Order>, next: seq<int>, prev: seq<int>, c: seq<int>) {
    |cells| == |next| == |prev| >= 2 &&
    cells[LEFT] == LeftSentinel(price) && cells[RIGHT] == RightSentinel(price) &&
    (forall i :: 0 <= i < |c| ==> 2 <= c[i] < |cells| && cells[c[i]].size > 0) &&
    Distinct(c) &&
    Linked(next, prev, c)
  }

  lemma AddFrontOk(price: int, cells: seq<Order>, next: seq<int>, prev: seq<int>, c: seq<int>, o: Order)
    requires LevelOk(price, cells, next, prev, c) && o.size > 0
    ensures var n := |cells|; var nxt := next[LEFT];
      LevelOk(price, cells + [o], (next + [NIL])[LEFT := n][n := nxt], (prev + [NIL])[nxt := n][n := LEFT], [n] + c) &&
      View(cells + [o], [n] + c) == [o] + View(cells, c)
  {
    var n := |cells|;
    LinkFront(next, prev, c, n);
    var c2, cells2 := [n] + c, cells + [o];
    forall i | 0 <= i < |c2|
      ensures 2 <= c2[i] < |cells2| && cells2[c2[i]].size > 0
    {
      if i > 0 {
        assert c2[i] == c[i - 1];
      }
    }
    var v, w := View(cells2, c2), View(cells, c);
    forall i | 0 <= i < |v|
      ensures v[i] == ([o] + w)[i]
    {
      if i > 0 {
        assert c2[i] == c[i - 1];
      }
    }
  }

  lemma AddBackOk(price: int, cells: seq<Order>, next: seq<int>, prev: seq<int>, c: seq<int>, o: Order)
    requires LevelOk(price, cells, next, prev, c) && o.size > 0
    ensures var n := |cells|; var prv := prev[RIGHT];
      LevelOk(price, cells + [o], (next + [NIL])[prv := n][n := RIGHT], (prev + [NIL])[RIGHT := n][n := prv], c + [n]) &&
      View(cells + [o], c + [n]) == View(cells, c) + [o]
  {
    var n := |cells|;
    LinkBack(next, prev, c, n);
    var c2, cells2 := c + [n], cells + [o];
    forall i | 0 <= i < |c2|
      ensures 2 <= c2[i] < |cells2| && cells2[c2[i]].size > 0
    {
      if i < |c| {
        assert c2[i] == c[i];
      }
    }
    var v, w := View(cells2, c2), View(cells, c);
    forall i | 0 <= i < |v|
      ensures v[i] == (w + [o])[i]
    {
      if i < |c| {
        assert c2[i] == c[i];
      }
    }
  }

  /** The list without position k is still a list of distinct arena nodes. */
  lemma UnlinkNodes(cells: seq<Order>, c: seq<int>, k: int)
    requires 0 <= k < |c| && Distinct(c)
    requires forall i :: 0 <= i < |c| ==> 2 <= c[i] < |cells| && cells[c[i]].size > 0
    ensures var c2 := c[..k] + c[k + 1..];
      (forall i :: 0 <= i < |c2| ==> 2 <= c2[i] < |cells| && cells[c2[i]].size > 0) &&
      Distinct(c2) &&
      View(cells, c2) == View(cells, c)[..k] + View(cells, c)[k + 1..]
  {
    var c2 := c[..k] + c[k + 1..];
    forall i | 0 <= i < |c2|
      ensures c2[i] == if i < k then c[i] else c[i + 1]
    {
    }
    forall a, b | 0 <= a < b < |c2|
      ensures Apart(c2, a, b)
    {
      var a', b' := if a < k then a else a + 1, if b < k then b else b + 1;
      assert c2[a] == c[a'] && c2[b] == c[b'];
      DistinctAt(c, a', b');
    }
    var v, w := View(cells, c2), View(cells, c);
    forall i | 0 <= i < |v|
      ensures v[i] == (w[..k] + w[k + 1..])[i]
    {
      if i < k {
        assert c2[i] == c[i] && (w[..k] + w[k + 1..])[i] == w[i];
      } else {
        assert c2[i] == c[i + 1] && (w[..k] + w[k + 1..])[i] == w[i + 1];
      }
    }
  }

  /** The forward links after unlinking position k: the predecessor now
      points at the successor (orderbook_ll.py:35). */
  lemma UnlinkNext(next: seq<int>, prev: seq<int>, c: seq<int>, k: int)
    requires |next| == |prev| >= 2 && 0 <= k < |c|
    requires forall i :: 0 <= i < |c| ==> 2 <= c[i] < |next|
    requires Distinct(c) && Linked(next, prev, c)
    ensures var n := c[k]; var pred := prev[n]; var succ := next[n]; var c2 := c[..k] + c[k + 1..];
      var nx := next[pred := succ][n := NIL];
      pred == Before(c, k) && succ == After(c, k) &&
      nx[LEFT] == After(c2, -1) &&
      forall i {:trigger nx[c2[i]]} :: 0 <= i < |c2| ==> nx[c2[i]] == After(c2, i)
  {
    var n := c[k];
    var pred, succ := prev[n], next[n];
    var nx := next[pred := succ][n := NIL];
    var c2 := c[..k] + c[k + 1..];
    if k == 0 {
      assert nx[LEFT] == succ;
    } else {
      DistinctAt(c, k - 1, k);
      assert nx[LEFT] == next[LEFT];
    }
    forall i | 0 <= i < |c2|
      ensures nx[c2[i]] == After(c2, i)
    {
      if i < k {
        assert c2[i] == c[i];
        DistinctAt(c, i, k);
        if i < k - 1 {
          DistinctAt(c, i, k - 1);
        }
      } else {
        assert c2[i] == c[i + 1];
        DistinctAt(c, i + 1, k);
        if k > 0 {
          DistinctAt(c, i + 1, k - 1);
        }
      }
    }
  }

  /** The backward links after unlinking position k: the successor now
      points back at the predecessor (orderbook_ll.py:36). */
  lemma UnlinkPrev(next: seq<int>, prev: seq<int>, c: seq<int>, k: int)
    requires |next| == |prev| >= 2 && 0 <= k < |c|
    requires forall i :: 0 <= i < |c| ==> 2 <= c[i] < |next|
    requires Distinct(c) && Linked(next, prev, c)
    ensures var n := c[k]; var pred := prev[n]; var succ := next[n]; var c2 := c[..k] + c[k + 1..];
      var pv := prev[succ := pred][n := NIL];
      pv[RIGHT] == Before(c2, |c2|) &&
      forall i {:trigger pv[c2[i]]} :: 0 <= i < |c2| ==> pv[c2[i]] == Before(c2, i)
  {
    var n := c[k];
    var pred, succ := prev[n], next[n];
    var pv := prev[succ := pred][n := NIL];
    var c2 := c[..k] + c[k + 1..];
    if k == |c| - 1 {
      assert pv[RIGHT] == pred;
    } else {
      DistinctAt(c, k + 1, k);
      assert pv[RIGHT] == prev[RIGHT];
    }
    forall i | 0 <= i < |c2|
      ensures pv[c2[i]] == Before(c2, i)
    {
      if i < k {
        assert c2[i] == c[i];
        DistinctAt(c, i, k);
        if k + 1 < |c| {
          DistinctAt(c, i, k + 1);
        }
      } else {
        assert c2[i] == c[i + 1];
        DistinctAt(c, i + 1, k);
        if i > k {
          DistinctAt(c, i + 1, k + 1);
        }
      }
    }
  }

  lemma UnlinkOk(price: int, cells: seq<Order>, next: seq<int>, prev: seq<int>, c: seq<int>, k: int)
    requires LevelOk(price, cells, next, prev, c) && 0 <= k < |c|
    ensures var n := c[k]; var pred := prev[n]; var succ := next[n];
      pred == Before(c, k) && succ == After(c, k) && pred != n && succ != n &&
      0 <= pred < |next| && 0 <= succ < |prev| &&
      LevelOk(price, cells, next[pred := succ][n := NIL], prev[succ := pred][n := NIL], c[..k] + c[k + 1..]) &&
      View(cells, c[..k] + c[k + 1..]) == View(cells, c)[..k] + View(cells, c)[k + 1..]
  {
    if k > 0 {
      DistinctAt(c, k - 1, k);
    }
    if k + 1 < |c| {
      DistinctAt(c, k + 1, k);
    }
    UnlinkNodes(cells, c, k);
    UnlinkNext(next, prev, c, k);
    UnlinkPrev(next, prev, c, k);
  }

  /** Lowering the size of the order at position k to s > 0 keeps the list
      and changes that one order only. */
  lemma ShrinkOk(price: int, cells: seq<Order>, next: seq<int>, prev: seq<int>, c: seq<int>, k: int, s: int)
    requires LevelOk(price, cells, next, prev, c) && 0 <= k < |c| && s > 0
    ensures var cells2 := cells[c[k] := cells[c[k]].(size := s)];
      LevelOk(price, cells2, next, prev, c) &&
      View(cells2, c) == View(cells, c)[k := cells[c[k]].(size := s)]
  {
    var cells2 := cells[c[k] := cells[c[k]].(size := s)];
    forall i | 0 <= i < |c|
      ensures cells2[c[i]] == if i == k then cells[c[k]].(size := s) else cells[c[i]]
    {
      if i != k {
        DistinctAt(c, i, k);
      }
    }
  }

  class OrderLevel {
    const price: int
    var cells: seq<Order>
    var next: seq<int>
    var prev: seq<int>
    ghost var Contents: seq<int>

    ghost predicate Valid()
      reads this
    {
      LevelOk(price, cells, next, prev, Contents)
    }

    /** The resting orders, left to right. */
    ghost function Orders(): (q: seq<Order>)
      requires Valid()
      reads this
      ensures Positive(q) && |q| == |Contents|
    {
      View(cells, Contents)
    }

    /** A new level is empty: the left sentinel links to the right one and
        back (orderbook_ll.py:42-50). */
    constructor (price: int)
      ensures Valid() && this.price == price && Contents == [] && Orders() == []
      ensures next[LEFT] == RIGHT && prev[RIGHT] == LEFT
    {
      this.price := price;
      cells := [LeftSentinel(price), RightSentinel(price)];
      next := [RIGHT, NIL];
      prev := [NIL, LEFT];
      Contents := [];
    }

    /** hasOrders: true iff some order lies between the sentinels. */
    method HasOrders() returns (b: bool)
      requires Valid()
      ensures b <==> Contents != []
    {
      b := next[LEFT] != RIGHT;
    }

    /** addOrder, dispatching on the side of the order. */
    method AddOrder(o: Order)
      requires Valid() && o.size > 0
      modifies this
      ensures Valid() && Orders() == Enqueue(old(Orders()), o)
    {
      if o.side == Buy {
        AddBuyOrder(o);
      } else {
        // orderbook_ll.py:55 tests order.size == SELL; the side is meant.
        AddSellOrder(o);
      }
    }

    /** addBuyOrder: the order goes in right after the left sentinel as a
        fresh node; nothing else moves. */
    method AddBuyOrder(o: Order)
      requires Valid() && o.size > 0
      modifies this
      ensures Valid()
      ensures Contents == [old(|cells|)] + old(Contents) && next[LEFT] == old(|cells|)
      ensures cells == old(cells) + [o]
      ensures Orders() == [o] + old(Orders())
    {
      var n := |cells|;
      AddFrontOk(price, cells, next, prev, Contents, o);
      cells, next, prev := cells + [o], next + [NIL], prev + [NIL];
      var nxt := next[LEFT];
      next := next[LEFT := n];
      prev := prev[nxt := n];
      prev := prev[n := LEFT];
      next := next[n := nxt];
      Contents := [n] + Contents;
    }

    /** addSellOrder: the order goes in right before the right sentinel as a
        fresh node; nothing else moves. */
    method AddSellOrder(o: Order)
      requires Valid() && o.size > 0
      modifies this
      ensures Valid()
      ensures Contents == old(Contents) + [old(|cells|)] && prev[RIGHT] == old(|cells|)
      ensures cells == old(cells) + [o]
      ensures Orders() == old(Orders()) + [o]
    {
      var n := |cells|;
      AddBackOk(price, cells, next, prev, Contents, o);
      cells, next, prev := cells + [o], next + [NIL], prev + [NIL];
      var prv := prev[RIGHT];
      prev := prev[RIGHT := n];
      next := next[prv := n];
      prev := prev[n := prv];
      next := next[n := RIGHT];
      Contents := Contents + [n];
    }

    /** Order.remove: node n, at position k of the list, is unlinked; its
        predecessor and successor now point at each other, its own links are
        cleared, and every other order keeps its place. */
    method Unlink(n: int, ghost k: int)
      requires Valid() && 0 <= k < |Contents| && Contents[k] == n
      modifies this
      ensures Valid() && cells == old(cells)
      ensures Contents == old(Contents[..k] + Contents[k + 1..])
      ensures Orders() == old(Orders()[..k] + Orders()[k + 1..])
      ensures next[old(prev[n])] == old(next[n]) && prev[old(next[n])] == old(prev[n])
      ensures next[n] == NIL && prev[n] == NIL
    {
      UnlinkOk(price, cells, next, prev, Contents, k);
      var pred, succ := prev[n], next[n];
      next := next[pred := succ];
      prev := prev[succ := pred];
      prev := prev[n := NIL];
      next := next[n := NIL];
      Contents := Contents[..k] + Contents[k + 1..];
    }

    /** removeOrder: unlinks the order's node from this level through
        Order.remove, which also clears the node's own links. */
    method RemoveOrder(n: int, ghost k: int)
      requires Valid() && 0 <= k < |Contents| && Contents[k] == n
      modifies this
      ensures Valid() && cells == old(cells)
      ensures Contents == old(Contents[..k] + Contents[k + 1..])
      ensures Orders() == old(Orders()[..k] + Orders()[k + 1..])
      ensures next[old(prev[n])] == old(next[n]) && prev[old(next[n])] == old(prev[n])
      ensures next[n] == NIL && prev[n] == NIL
    {
      Unlink(n, k);
    }
  
    /** Removes the first resting order, returning the node after it. */
    method PopFront() returns (nxt: int)
      requires Valid() && Contents != []
      modifies this
      ensures Valid() && cells == old(cells)
      ensures Contents == old(Contents[1..]) && Orders() == old(Orders()[1..])
      ensures nxt == After(Contents, -1)
    {
      ghost var c := Contents;
      var n := next[LEFT];
      nxt := next[n];
      assert nxt == After(c, 0);
      RemoveOrder(n, 0);
      assert Contents == c[1..];
    }

    /** Removes the last resting order, returning the node before it. */
    method PopBack() returns (prv: int)
      requires Valid() && Contents != []
      modifies this
      ensures Valid() && cells == old(cells)
      ensures Contents == old(Contents[..|Contents| - 1]) && Orders() == old(Orders()[..|Orders()| - 1])
      ensures prv == Before(Contents, |Contents|)
    {
      ghost var c := Contents;
      ghost var q := Orders();
      ghost var k := |c| - 1;
      var n := prev[RIGHT];
      prv := prev[n];
      assert prv == Before(c, k);
      RemoveOrder(n, k);
      assert c[..k] + c[k + 1..] == c[..k];
      assert q[..k] + q[k + 1..] == q[..k];
      assert |Contents| == k && (k > 0 ==> Contents[k - 1] == c[k - 1]);
    }

    /** The in-place size update of a resting order (curr.size -= ... at
        orderbook_ll.py:92 and :107): node n at position k gets size s. */
    method SetSize(n: int, ghost k: int, s: int)
      requires Valid() && 0 <= k < |Contents| && Contents[k] == n && s > 0
      modifies this
      ensures Valid() && Contents == old(Contents) && next == old(next) && prev == old(prev)
      ensures cells == old(cells[n := cells[n].(size := s)])
      ensures Orders() == old(Orders()[k := cells[n].(size := s)])
    {
      ShrinkOk(price, cells, next, prev, Contents, k, s);
      cells := cells[n := cells[n].(size := s)];
    }

    /** executeOrder: on an empty level the incoming order comes back
        untouched and the level is left as it is; otherwise a buy executes
        from the left and a sell from the right. */
    method ExecuteOrder(order: Order) returns (rest: Order, trades: seq<Trade>)
      requires Valid()
      modifies this
      ensures Valid()
      ensures old(Contents) == [] ==> rest == order && trades == [] && unchanged(this)
      ensures var f := if order.side == Buy then FillBuy(order, old(Orders())) else FillSell(order, old(Orders()));
        rest == f.order && trades == f.trades && Orders() == f.queue
    {
      var has := HasOrders();
      if !has {
        return order, [];
      }
      if order.side == Buy {
        rest, trades := ExecuteBuyOrder(order);
      } else {
        rest, trades := ExecuteSellOrder(order);
      }
    }

    /** One round of executeBuyOrder's loop at node curr, the first resting
        order, a sell: a smaller buy shrinks it in place (orderbook_ll.py:92)
        and is done; a buy at least as large takes all of it and unlinks it
        (:96-100), and the walk moves on to the node after it. */
    method TakeFront(rest: Order, curr: int) returns (left: Order, t: Trade, nxt: int)
      requires Valid() && Contents != [] && curr == After(Contents, -1)
      requires Orders()[0].side == Sell && rest.size > 0
      modifies this
      ensures Valid() && nxt == After(Contents, -1)
      ensures BuyRound(rest, old(Orders()), left, t, Orders())
    {
      var resting := cells[curr];
      assert old(Orders())[0] == resting;
      if rest.size < resting.size {
        SetSize(curr, 0, resting.size - rest.size);
        // orderbook_ll.py:101 reports the size left over and the node after
        // the fill; the trade is the filled size against this resting order.
        t := Trade(rest.trader, resting.trader, resting.price, rest.size);
        left := rest.(size := 0);
        nxt := curr;
      } else {
        t := Trade(rest.trader, resting.trader, resting.price, resting.size);
        left := rest.(size := rest.size - resting.size);
        nxt := PopFront();
      }
    }

    /** One round of executeSellOrder's loop at node curr, the last resting
        order, a buy (orderbook_ll.py:106-114). */
    method TakeBack(rest: Order, curr: int) returns (left: Order, t: Trade, prv: int)
      requires Valid() && Contents != [] && curr == Before(Contents, |Contents|)
      requires Last(Orders()).side == Buy && rest.size > 0
      modifies this
      ensures Valid() && prv == Before(Contents, |Contents|)
      ensures SellRound(rest, old(Orders()), left, t, Orders())
    {
      var resting := cells[curr];
      ghost var k := |Contents| - 1;
      assert old(Orders())[k] == resting;
      if rest.size < resting.size {
        SetSize(curr, k, resting.size - rest.size);
        // orderbook_ll.py:115 reports the size left over, the node after
        // the fill and the two traders swapped; the trade is the filled
        // size with the resting order as the buyer.
        t := Trade(resting.trader, rest.trader, resting.price, rest.size);
        left := rest.(size := 0);
        prv := curr;
      } else {
        t := Trade(resting.trader, rest.trader, resting.price, resting.size);
        left := rest.(size := rest.size - resting.size);
        prv := PopBack();
      }
    }

    /** executeBuyOrder: walks from the left sentinel to the right while the
        current node is a sell and the incoming order has size. Each step
        reports one trade at the resting order's price. */
    method ExecuteBuyOrder(order: Order) returns (rest: Order, trades: seq<Trade>)
      requires Valid()
      modifies this
      ensures Valid()
      ensures var f := FillBuy(order, old(Orders()));
        rest == f.order && trades == f.trades && Orders() == f.queue
    {
      ghost var q := Orders();
      ghost var f0 := FillBuy(order, q);
      rest, trades := order, [];
      assert trades + f0.trades == f0.trades;
      var curr := next[LEFT];
      while cells[curr].side == Sell && rest.size > 0
        invariant Valid() && curr == After(Contents, -1) && Orders() == q
        invariant Resumes(FillBuy(rest, q), trades, f0)
        decreases |Contents|, rest.size
      {
        assert q[0] == cells[curr];
        var left, t;
        left, t, curr := TakeFront(rest, curr);
        FillBuyRound(rest, q, trades, f0, left, t, Orders());
        rest, trades, q := left, trades + [t], Orders();
      }
    }

    /** executeSellOrder: walks from the right sentinel to the left while
        the current node is a buy and the incoming order has size. */
    method ExecuteSellOrder(order: Order) returns (rest: Order, trades: seq<Trade>)
      requires Valid()
      modifies this
      ensures Valid()
      ensures var f := FillSell(order, old(Orders()));
        rest == f.order && trades == f.trades && Orders() == f.queue
    {
      ghost var q := Orders();
      ghost var f0 := FillSell(order, q);
      rest, trades := order, [];
      assert trades + f0.trades == f0.trades;
      var curr := prev[RIGHT];
      while cells[curr].side == Buy && rest.size > 0
        invariant Valid() && curr == Before(Contents, |Contents|) && Orders() == q
        invariant Resumes(FillSell(rest, q), trades, f0)
        decreases |Contents|, rest.size
      {
        assert q[|q| - 1] == cells[curr];
        var left, t;
        left, t, curr := TakeBack(rest, curr);
        FillSellRound(rest, q, trades, f0, left, t, Orders());
        rest, trades, q := left, trades + [t], Orders();
      }
    }
  }
}
