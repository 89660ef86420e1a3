/** Values shared by the order level and the order book: sides, orders, trades
    and the rejection reasons of a submission. */
module Orders {

  /** BUY = 0 and SELL = 1 in the source (orderbook_ll.py:14, :170). The
      model assumes a side is one of these two documented values: another
      value would take the sell branch of limit_order but neither branch of
      executeOrder or addOrder, so it would never trade or rest. */
  datatype Side = Buy | Sell

  /** The trader is an opaque owner name. */
  type Trader = string

  /** One order: the fields of the source's Order record. Its prev/next links
      live in the arena of the level that holds it (see Levels). */
  datatype Order = Order(side: Side, size: int, price: int, trader: Trader, orderId: int)

  /** One fill, as handed to the trade-execution callback:
      (buyer, seller, price, size). */
  datatype Trade = Trade(buyer: Trader, seller: Trader, price: int, size: int)

  /** Why a submission is refused. */
  datatype Error = InvalidPrice | InvalidSize

  datatype Result<T> = Ok(value: T) | Err(error: Error)

  /** r is q with (possibly) another size: the identity of an order never changes. */
  predicate SameOrder(r: Order, q: Order) {
    r == q.(size := r.size)
  }

  /** Every order of q has a positive size. */
  predicate Positive(q: seq<Order>) {
    forall i :: 0 <= i < |q| ==> q[i].size > 0
  }

  /** Every order of q is on side s. */
  predicate AllOnSide(q: seq<Order>, s: Side) {
    forall i :: 0 <= i < |q| ==> q[i].side == s
  }

  /** Total quantity of a queue of orders. */
  function SizeOf(q: seq<Order>): int {
    if q == [] then 0 else q[0].size + SizeOf(q[1..])
  }

  /** Total quantity of a list of trades. */
  function Volume(t: seq<Trade>): int {
    if t == [] then 0 else t[0].size + Volume(t[1..])
  }

  function Last<T>(s: seq<T>): T
    requires s != []
  {
    s[|s| - 1]
  }

  lemma {:induction false} SizeOfAppend(a: seq<Order>, b: seq<Order>)
    ensures SizeOf(a + b) == SizeOf(a) + SizeOf(b)
  {
    if a == [] {
      assert a + b == b;
    } else {
      assert (a + b)[1..] == a[1..] + b;
      SizeOfAppend(a[1..], b);
    }
  }

  lemma {:induction false} VolumeAppend(a: seq<Trade>, b: seq<Trade>)
    ensures Volume(a + b) == Volume(a) + Volume(b)
  {
    if a == [] {
      assert a + b == b;
    } else {
      assert (a + b)[1..] == a[1..] + b;
      VolumeAppend(a[1..], b);
    }
  }

  lemma AppendAssoc<T>(a: seq<T>, b: seq<T>, c: seq<T>)
    ensures (a + b) + c == a + (b + c)
  {
  }
}
