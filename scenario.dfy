/** The session of _unittest2 (orderbook_ll.py:271-290), order by order, on a
    ladder of n >= 203 price points: the fills each order reports and the
    book it leaves. This is the session under the intended reading of
    orderbook_ll.py:55, :188 and :202; as written, :55 drops Sam's, Stu's
    and Sue's sells, and :202 makes Sol's sell trade nothing. */
module Scenarios {
  import opened Orders
  import opened Matching
  import opened BookSpec

  /** The book after the first five orders: Ben's and Bea's bids at 200
      (Bea's cut to 2 by Sol), Sam's ask at 201 and Stu's at 202. */
  function AfterFive(n: nat): Book
    requires 203 <= n
  {
    var l := seq(n, _ => [])[200 := [Order(Buy, 2, 200, "Ben", 3), Order(Buy, 2, 200, "Bea", 1)]]
      [201 := [Order(Sell, 2, 201, "Sam", 2)]][202 := [Order(Sell, 5, 202, "Stu", 5)]];
    Book(l, 200, 201, 5)
  }

  /** Bea's buy rests and sets the best bid; Sam's sell does not cross and
      sets the best ask; Ben's buy queues in front of Bea's; Sol's sell of 1
      takes from Bea, the oldest bid; Stu's sell rests above the bids. */
  lemma SessionOpening(n: nat)
    requires 203 <= n
    ensures var b0 := Empty(n, 0);
      var bea := Order(Buy, 3, 200, "Bea", 1); var sam := Order(Sell, 2, 201, "Sam", 2);
      var ben := Order(Buy, 2, 200, "Ben", 3);
      var b1 := Book(b0.levels[200 := [bea]], 200, n + 1, 1);
      var b2 := Book(b1.levels[201 := [sam]], 200, 201, 2);
      var b3 := Book(b2.levels[200 := [ben, bea]], 200, 201, 3);
      var b4 := Book(b3.levels[200 := [ben, bea.(size := 2)]], 200, 201, 4);
      Submit(b0, Buy, 3, 200, "Bea") == Outcome(Ok(1), b1, []) &&
      Submit(b1, Sell, 2, 201, "Sam") == Outcome(Ok(2), b2, []) &&
      Submit(b2, Buy, 2, 200, "Ben") == Outcome(Ok(3), b3, []) &&
      Submit(b3, Sell, 1, 198, "Sol") == Outcome(Ok(4), b4, [Trade("Bea", "Sol", 200, 1)]) &&
      Submit(b4, Sell, 5, 202, "Stu") == Outcome(Ok(5), AfterFive(n), [])
  {
    var b0 := Empty(n, 0);
    var l0 := b0.levels;
    assert l0[200] == [] && l0[201] == [] && l0[202] == [];
    var bea := Order(Buy, 3, 200, "Bea", 1);
    var sam := Order(Sell, 2, 201, "Sam", 2);
    var ben := Order(Buy, 2, 200, "Ben", 3);
    var sol := Order(Sell, 1, 198, "Sol", 4);
    var stu := Order(Sell, 5, 202, "Stu", 5);
    assert [bea] + [] == [bea] && [] + [sam] == [sam] && [ben] + [bea] == [ben, bea] && [] + [stu] == [stu];
    var b1 := Book(l0[200 := [bea]], 200, n + 1, 1);
    var b2 := Book(b1.levels[201 := [sam]], 200, 201, 2);
    var b3 := Book(b2.levels[200 := [ben, bea]], 200, 201, 3);
    assert FillSell(sol, [ben, bea]) == Fill(sol.(size := 0), [ben, bea.(size := 2)], [Trade("Bea", "Sol", 200, 1)]);
    var b4 := Book(b3.levels[200 := [ben, bea.(size := 2)]], 200, 201, 4);
    assert b4.levels[202 := [stu]] == AfterFive(n).levels;
  }

  /** The book after eight orders: Ben's and Bea's bids at 200, Bob's at
      201, and what is left of Stu's ask at 202. */
  function AfterEight(n: nat): Book
    requires 203 <= n
  {
    var l := AfterFive(n).levels[201 := [Order(Buy, 2, 201, "Bob", 8)]][202 := [Order(Sell, 3, 202, "Stu", 5)]];
    Book(l, 201, 202, 8)
  }

  /** Bif's buy at 201 takes all of Sam's ask and moves the best ask up to
      202, where Bif's second buy takes 2 of Stu's; Bob's buy then rests at
      201 as the new best bid. */
  lemma SessionMiddle(n: nat)
    requires 203 <= n
    ensures var b5 := AfterFive(n);
      var b6 := Book(b5.levels[201 := []], 200, 202, 6);
      var b7 := Book(b6.levels[202 := [Order(Sell, 3, 202, "Stu", 5)]], 200, 202, 7);
      Submit(b5, Buy, 2, 201, "Bif") == Outcome(Ok(6), b6, [Trade("Bif", "Sam", 201, 2)]) &&
      Submit(b6, Buy, 2, 202, "Bif") == Outcome(Ok(7), b7, [Trade("Bif", "Stu", 202, 2)]) &&
      Submit(b7, Buy, 2, 201, "Bob") == Outcome(Ok(8), AfterEight(n), [])
  {
    var b5 := AfterFive(n);
    var sam := Order(Sell, 2, 201, "Sam", 2);
    var stu := Order(Sell, 5, 202, "Stu", 5);
    var bif := Order(Buy, 2, 201, "Bif", 6);
    var bif2 := Order(Buy, 2, 202, "Bif", 7);
    var bob := Order(Buy, 2, 201, "Bob", 8);
    assert b5.levels[201] == [sam] && b5.levels[202] == [stu] && [bob] + [] == [bob];
    assert FillBuy(bif, [sam]) == Fill(bif.(size := 0), [], [Trade("Bif", "Sam", 201, 2)]);
    var b6 := Book(b5.levels[201 := []], 200, 202, 6);
    assert WalkAsks(b5.levels, 201, bif) == Walk(b6.levels, 202, bif.(size := 0), [Trade("Bif", "Sam", 201, 2)]);
    assert FillBuy(bif2, [stu]) == Fill(bif2.(size := 0), [stu.(size := 3)], [Trade("Bif", "Stu", 202, 2)]);
    var b7 := Book(b6.levels[202 := [stu.(size := 3)]], 200, 202, 7);
    assert b7.levels[201 := [bob]] == AfterEight(n).levels;
  }

  /** The book after nine orders: Stu's 3 at 202 and nothing else. */
  function AfterNine(n: nat): Book
    requires 203 <= n
  {
    Book(AfterEight(n).levels[201 := []][200 := []], 199, 202, 9)
  }

  /** Sue's sell of 6 at 200 takes Bob's 2 at 201 and then Bea's 2 and
      Ben's 2 at 200, oldest first, and leaves the best bid at 199. */
  lemma SessionSweep(n: nat)
    requires 203 <= n
    ensures Submit(AfterEight(n), Sell, 6, 200, "Sue") ==
      Outcome(Ok(9), AfterNine(n), [Trade("Bob", "Sue", 201, 2), Trade("Bea", "Sue", 200, 2), Trade("Ben", "Sue", 200, 2)])
  {
    var b8 := AfterEight(n);
    var ben := Order(Buy, 2, 200, "Ben", 3);
    var bea := Order(Buy, 2, 200, "Bea", 1);
    var bob := Order(Buy, 2, 201, "Bob", 8);
    var sue := Order(Sell, 6, 200, "Sue", 9);
    assert b8.levels[200] == [ben, bea] && b8.levels[201] == [bob];
    var t9 := [Trade("Bob", "Sue", 201, 2), Trade("Bea", "Sue", 200, 2), Trade("Ben", "Sue", 200, 2)];
    assert FillSell(sue, [bob]) == Fill(sue.(size := 4), [], [t9[0]]);
    assert FillSell(sue.(size := 4), [ben, bea]) == Fill(sue.(size := 0), [], [t9[1], t9[2]]);
    var l9 := AfterNine(n).levels;
    assert WalkBids(b8.levels[201 := []], 200, sue.(size := 4)) == Walk(l9, 199, sue.(size := 0), [t9[1], t9[2]]);
    assert WalkBids(b8.levels, 201, sue) == Walk(l9, 199, sue.(size := 0), t9);
  }

  /** Bud's buy at 198 rests below the best ask. What the session leaves:
      Bud's 7 at 198 and Stu's 3 at 202, best bid 199, best ask 202. */
  lemma SessionEnd(n: nat)
    requires 203 <= n
    ensures var bud := Order(Buy, 7, 198, "Bud", 10);
      Submit(AfterNine(n), Buy, 7, 198, "Bud") ==
      Outcome(Ok(10), Book(seq(n, _ => [])[198 := [bud]][202 := [Order(Sell, 3, 202, "Stu", 5)]], 199, 202, 10), [])
  {
    var b9 := AfterNine(n);
    var bud := Order(Buy, 7, 198, "Bud", 10);
    assert b9.levels[198] == [] && [bud] + [] == [bud];
    var expected := seq(n, _ => [])[198 := [bud]][202 := [Order(Sell, 3, 202, "Stu", 5)]];
    assert forall p | 0 <= p < n :: b9.levels[198 := [bud]][p] == expected[p];
  }
}
