/**
 * A value model of one slot of the order book: the buy list and the sell list
 * as sequences of resting orders from head to tail, where a new order goes in
 * each list, what one round of matching does, and what matching does when it
 * is run until it stops.  The heap-based book in module Engine is proved to
 * compute exactly these functions; the properties of the book are proved here.
 */
module BookSpec {
  import opened JavaInt

  /** `Order.Type`: the side of an order. */
  datatype OrderType = BUY | SELL

  /** What matching sees of a resting order: its remaining quantity and its limit price. */
  datatype Resting = Resting(quantity: int32, price: int32)

  /** One "Matched" event: the quantity traded and the price it traded at. */
  datatype Fill = Fill(quantity: int32, price: int32)

  /** The two lists of one slot, each from head to tail. */
  datatype Book = Book(bids: seq<Resting>, asks: seq<Resting>)

  /** A book together with the events that produced it. */
  datatype Outcome = Outcome(book: Book, fills: seq<Fill>)

  /** The arguments of one `addOrder` call that matter to its slot. */
  datatype Request = Request(orderType: OrderType, quantity: int32, price: int32)

  /**
   * A new order priced p goes ahead of a resting order priced q on this side:
   * on the buy side when it bids at least as much, on the sell side when it
   * asks at most as much.
   */
  predicate Dominates(side: OrderType, p: int32, q: int32) {
    if side == BUY then p >= q else p <= q
  }

  /** Buy lists run from highest to lowest price, sell lists from lowest to highest. */
  predicate SortedFor(side: OrderType, rs: seq<Resting>) {
    forall i, j {:trigger Dominates(side, rs[i].price, rs[j].price)} :: 0 <= i < j < |rs| ==> Dominates(side, rs[i].price, rs[j].price)
  }

  predicate SortedBook(b: Book) {
    SortedFor(BUY, b.bids) && SortedFor(SELL, b.asks)
  }

  predicate AllPositive(rs: seq<Resting>) {
    forall i :: 0 <= i < |rs| ==> rs[i].quantity > 0
  }

  predicate PositiveBook(b: Book) {
    AllPositive(b.bids) && AllPositive(b.asks)
  }

  /** Both sides are non-empty and the best bid is at or above the best ask. */
  predicate Crossed(b: Book) {
    |b.bids| > 0 && |b.asks| > 0 && b.bids[0].price >= b.asks[0].price
  }

  /** The total remaining quantity of a list. */
  function Total(rs: seq<Resting>): int {
    if rs == [] then 0 else rs[0].quantity as int + Total(rs[1..])
  }

  /** The total quantity of a sequence of match events. */
  function Traded(fills: seq<Fill>): int {
    if fills == [] then 0 else fills[0].quantity as int + Traded(fills[1..])
  }

  lemma {:induction false} TotalAppend(a: seq<Resting>, b: seq<Resting>)
    ensures Total(a + b) == Total(a) + Total(b)
  {
    if a != [] {
      assert (a + b)[0] == a[0] && (a + b)[1..] == a[1..] + b;
      TotalAppend(a[1..], b);
    } else {
      assert a + b == b;
    }
  }

  lemma {:induction false} TradedAppend(a: seq<Fill>, b: seq<Fill>)
    ensures Traded(a + b) == Traded(a) + Traded(b)
  {
    if a != [] {
      assert (a + b)[0] == a[0] && (a + b)[1..] == a[1..] + b;
      TradedAppend(a[1..], b);
    } else {
      assert a + b == b;
    }
  }

  /** Sequence concatenation is associative (used to regroup the match log). */
  lemma AppendAssociates(before: seq<Fill>, run: seq<Fill>, f: Fill)
    ensures (before + run) + [f] == before + (run + [f])
  {
  }

  // ---------------------------------------------------------------------------
  // Insertion
  // ---------------------------------------------------------------------------

  /**
   * Where a new order priced p is spliced in: before the first resting order
   * it dominates, after every order that is strictly better than it.
   */
  function InsertionPoint(side: OrderType, rs: seq<Resting>, p: int32): (k: nat)
    ensures k <= |rs|
    ensures forall j :: 0 <= j < k ==> !Dominates(side, p, rs[j].price)
    ensures k < |rs| ==> Dominates(side, p, rs[k].price)
  {
    if rs == [] || Dominates(side, p, rs[0].price) then 0
    else 1 + InsertionPoint(side, rs[1..], p)
  }

  /** The list with r spliced in at its insertion point. */
  function Insert(side: OrderType, rs: seq<Resting>, r: Resting): (out: seq<Resting>)
    ensures r in out
  {
    var k := InsertionPoint(side, rs, r.price);
    rs[..k] + [r] + rs[k..]
  }

  /** The insertion point is the only position that the walk of `insertOrder` can stop at. */
  lemma InsertionPointIsFirst(side: OrderType, rs: seq<Resting>, p: int32, i: nat)
    requires i <= |rs|
    requires forall j :: 0 <= j < i ==> !Dominates(side, p, rs[j].price)
    requires i < |rs| ==> Dominates(side, p, rs[i].price)
    ensures InsertionPoint(side, rs, p) == i
  {
  }

  /** Insertion loses nothing: taking the new order out again gives the old list, in its old order. */
  lemma InsertKeepsOrder(side: OrderType, rs: seq<Resting>, r: Resting)
    ensures var k := InsertionPoint(side, rs, r.price);
            var out := Insert(side, rs, r);
            |out| == |rs| + 1 && out[k] == r && out[..k] + out[k + 1..] == rs
            && multiset(out) == multiset(rs) + multiset{r}
  {
    var k := InsertionPoint(side, rs, r.price);
    var out := Insert(side, rs, r);
    assert out[..k] == rs[..k];
    assert out[k + 1..] == rs[k..];
    assert rs == rs[..k] + rs[k..];
  }

  /** A new order goes ahead of every resting order with the same price. */
  lemma InsertAheadOfTies(side: OrderType, rs: seq<Resting>, p: int32)
    ensures forall j :: 0 <= j < |rs| && rs[j].price == p ==> InsertionPoint(side, rs, p) <= j
  {
  }

  lemma InsertSorted(side: OrderType, rs: seq<Resting>, r: Resting)
    requires SortedFor(side, rs)
    ensures SortedFor(side, Insert(side, rs, r))
  {
    var k := InsertionPoint(side, rs, r.price);
    var out := Insert(side, rs, r);
    forall i, j | 0 <= i < j < |out|
      ensures Dominates(side, out[i].price, out[j].price)
    {
      if j < k {
        assert out[i] == rs[i] && out[j] == rs[j];
        assert Dominates(side, rs[i].price, rs[j].price);
      } else if i < k && j == k {
        assert !Dominates(side, r.price, rs[i].price);
      } else if i == k && j > k {
        assert Dominates(side, r.price, rs[k].price);
        assert out[j] == rs[j - 1];
        if j - 1 > k {
          assert Dominates(side, rs[k].price, rs[j - 1].price);
        }
      } else if i < k && j > k {
        assert out[i] == rs[i] && out[j] == rs[j - 1];
        assert Dominates(side, rs[i].price, rs[j - 1].price);
      } else if i > k {
        assert out[i] == rs[i - 1] && out[j] == rs[j - 1];
        assert Dominates(side, rs[i - 1].price, rs[j - 1].price);
      }
    }
  }

  lemma TotalInsert(side: OrderType, rs: seq<Resting>, r: Resting)
    ensures Total(Insert(side, rs, r)) == Total(rs) + r.quantity as int
  {
    var k := InsertionPoint(side, rs, r.price);
    TotalAppend(rs[..k] + [r], rs[k..]);
    TotalAppend(rs[..k], [r]);
    TotalAppend(rs[..k], rs[k..]);
    assert rs[..k] + rs[k..] == rs;
  }

  lemma AllPositiveInsert(side: OrderType, rs: seq<Resting>, r: Resting)
    requires AllPositive(rs) && r.quantity > 0
    ensures AllPositive(Insert(side, rs, r))
  {
    InsertKeepsOrder(side, rs, r);
    var out := Insert(side, rs, r);
    var k := InsertionPoint(side, rs, r.price);
    forall i | 0 <= i < |out| ensures out[i].quantity > 0 {
      if i > k { assert out[i] == rs[i - 1]; }
    }
  }

  // ---------------------------------------------------------------------------
  // Matching
  // ---------------------------------------------------------------------------

  /**
   * The matching loop goes on for another round: both heads exist, the best bid
   * is at or above the best ask, and the smaller head quantity is not zero.
   */
  predicate CanMatch(b: Book)
    ensures CanMatch(b) ==> Crossed(b)
  {
    |b.bids| > 0 && |b.asks| > 0 && b.bids[0].price >= b.asks[0].price
    && Min(b.bids[0].quantity, b.asks[0].quantity) != 0
  }

  /** Take m off the head's quantity and drop the head if it is left at zero. */
  function Consume(rs: seq<Resting>, m: int32): (out: seq<Resting>)
    requires |rs| > 0
    ensures |out| == |rs| - 1 || |out| == |rs|
  {
    var q := Sub(rs[0].quantity, m);
    if q == 0 then rs[1..] else [Resting(q, rs[0].price)] + rs[1..]
  }

  /** One round of the matching loop and the event it reports. */
  function Round(b: Book): (r: (Book, Fill))
    requires CanMatch(b)
    ensures |r.0.bids| + |r.0.asks| < |b.bids| + |b.asks|
  {
    var m := Min(b.bids[0].quantity, b.asks[0].quantity);
    (Book(Consume(b.bids, m), Consume(b.asks, m)), Fill(m, b.asks[0].price))
  }

  /** The matching loop run until it stops, with the events of every round in order. */
  function Drain(b: Book): (o: Outcome)
    ensures |o.book.bids| + |o.book.asks| + |o.fills| <= |b.bids| + |b.asks|
    decreases |b.bids| + |b.asks|
  {
    if !CanMatch(b) then Outcome(b, [])
    else
      var (next, f) := Round(b);
      var rest := Drain(next);
      Outcome(rest.book, [f] + rest.fills)
  }

  /**
   * One round with positive head quantities: the smaller head quantity trades
   * at the ask price, both sides lose exactly that much, a head is removed
   * exactly when it is used up, and nothing behind the heads changes.
   */
  lemma RoundTrades(b: Book)
    requires CanMatch(b) && PositiveBook(b)
    ensures var (next, f) := Round(b);
            && f.quantity == Min(b.bids[0].quantity, b.asks[0].quantity) && f.quantity > 0
            && f.price == b.asks[0].price
            && Total(next.bids) == Total(b.bids) - f.quantity as int
            && Total(next.asks) == Total(b.asks) - f.quantity as int
            && PositiveBook(next)
            && (next.bids == b.bids[1..] <==> b.bids[0].quantity == f.quantity)
            && (next.asks == b.asks[1..] <==> b.asks[0].quantity == f.quantity)
            && (next.bids != b.bids[1..] ==>
                  next.bids == [Resting(b.bids[0].quantity - f.quantity, b.bids[0].price)] + b.bids[1..])
            && (next.asks != b.asks[1..] ==>
                  next.asks == [Resting(b.asks[0].quantity - f.quantity, b.asks[0].price)] + b.asks[1..])
  {
    var (next, f) := Round(b);
    ConsumeTrades(b.bids, f.quantity);
    ConsumeTrades(b.asks, f.quantity);
  }

  lemma ConsumeTrades(rs: seq<Resting>, m: int32)
    requires AllPositive(rs) && |rs| > 0 && 0 < m <= rs[0].quantity
    ensures var c := Consume(rs, m);
            && Total(c) == Total(rs) - m as int
            && AllPositive(c)
            && (c == rs[1..] <==> rs[0].quantity == m)
            && (c != rs[1..] ==> c == [Resting(rs[0].quantity - m, rs[0].price)] + rs[1..])
  {
    var q := Sub(rs[0].quantity, m);
    assert q as int == rs[0].quantity as int - m as int;
    var c := Consume(rs, m);
    if q == 0 {
      assert c == rs[1..];
    } else {
      var h := Resting(q, rs[0].price);
      assert c == [h] + rs[1..];
      assert |c| == |rs|;
      assert c != rs[1..];
      assert c[0] == h && c[1..] == rs[1..];
      assert Total(c) == q as int + Total(rs[1..]);
      forall i | 0 <= i < |c| ensures c[i].quantity > 0 {
        if i > 0 { assert c[i] == rs[i]; }
      }
    }
  }

  /** When matching stops, another run stops at once. */
  lemma {:induction false} DrainSettles(b: Book)
    ensures !CanMatch(Drain(b).book)
    decreases |b.bids| + |b.asks|
  {
    if CanMatch(b) {
      DrainSettles(Round(b).0);
    }
  }

  /**
   * The invariant of the matching loop: the outcome of draining the starting
   * book is the current book drained, with the events logged so far in front.
   * One more round keeps it, with that round's event appended to the log.
   */
  lemma DrainStep(start: Book, b: Book, log: seq<Fill>)
    requires CanMatch(b)
    requires Drain(start) == Outcome(Drain(b).book, log + Drain(b).fills)
    ensures var (next, f) := Round(b);
            Drain(start) == Outcome(Drain(next).book, (log + [f]) + Drain(next).fills)
  {
    var (next, f) := Round(b);
    assert Drain(b) == Outcome(Drain(next).book, [f] + Drain(next).fills);
    assert log + ([f] + Drain(next).fills) == (log + [f]) + Drain(next).fills;
  }

  /** When the loop stops, the current book is the drained one and the log holds all its events. */
  lemma DrainStop(start: Book, b: Book, log: seq<Fill>)
    requires !CanMatch(b)
    requires Drain(start) == Outcome(Drain(b).book, log + Drain(b).fills)
    ensures Drain(start) == Outcome(b, log)
  {
    assert log + [] == log;
  }

  /** Running the matching loop on a book it has already settled changes nothing and reports nothing. */
  lemma DrainIdempotent(b: Book)
    ensures Drain(Drain(b).book) == Outcome(Drain(b).book, [])
  {
    DrainSettles(b);
  }

  /**
   * `after` is `before` with some heads removed and, possibly, the quantity of
   * the new head changed: every other order and every price is untouched.
   */
  predicate HeadTrimmed(before: seq<Resting>, after: seq<Resting>) {
    |after| <= |before| &&
    (|after| > 0 ==>
       after[0].price == before[|before| - |after|].price &&
       after[1..] == before[|before| - |after| + 1..])
  }

  lemma HeadTrimmedTrans(a: seq<Resting>, b: seq<Resting>, c: seq<Resting>)
    requires HeadTrimmed(a, b) && HeadTrimmed(b, c)
    ensures HeadTrimmed(a, c)
  {
    if |c| > 0 {
      var d := |b| - |c|;
      if d > 0 {
        assert b[d] == b[1..][d - 1];
        assert c[1..] == b[d + 1..] == b[1..][d..];
      }
    }
  }

  lemma ConsumeTrimmed(rs: seq<Resting>, m: int32)
    requires |rs| > 0
    ensures HeadTrimmed(rs, Consume(rs, m))
  {
  }

  lemma TrimmedSorted(side: OrderType, a: seq<Resting>, c: seq<Resting>)
    requires SortedFor(side, a) && HeadTrimmed(a, c)
    ensures SortedFor(side, c)
  {
    var d := |a| - |c|;
    forall i, j | 0 <= i < j < |c| ensures Dominates(side, c[i].price, c[j].price) {
      assert c[j] == c[1..][j - 1] == a[d + j];
      if i > 0 {
        assert c[i] == c[1..][i - 1] == a[d + i];
      }
    }
  }

  /**
   * Matching only ever removes heads and lowers the quantity of the head that
   * is left; orders behind the heads are never touched.
   */
  lemma {:induction false} DrainTouchesOnlyHeads(b: Book)
    ensures HeadTrimmed(b.bids, Drain(b).book.bids)
    ensures HeadTrimmed(b.asks, Drain(b).book.asks)
    decreases |b.bids| + |b.asks|
  {
    if CanMatch(b) {
      var (next, f) := Round(b);
      ConsumeTrimmed(b.bids, f.quantity);
      ConsumeTrimmed(b.asks, f.quantity);
      DrainTouchesOnlyHeads(next);
      HeadTrimmedTrans(b.bids, next.bids, Drain(next).book.bids);
      HeadTrimmedTrans(b.asks, next.asks, Drain(next).book.asks);
    }
  }

  /** Matching keeps both lists sorted. */
  lemma DrainSorted(b: Book)
    requires SortedBook(b)
    ensures SortedBook(Drain(b).book)
  {
    DrainTouchesOnlyHeads(b);
    TrimmedSorted(BUY, b.bids, Drain(b).book.bids);
    TrimmedSorted(SELL, b.asks, Drain(b).book.asks);
  }

  /**
   * Conservation: with positive quantities, each side's total quantity falls by
   * exactly the total of the reported events, and every quantity left is positive.
   */
  lemma {:induction false} DrainConserves(b: Book)
    requires PositiveBook(b)
    ensures var o := Drain(b);
            && Total(o.book.bids) == Total(b.bids) - Traded(o.fills)
            && Total(o.book.asks) == Total(b.asks) - Traded(o.fills)
            && PositiveBook(o.book)
    decreases |b.bids| + |b.asks|
  {
    if CanMatch(b) {
      var (next, f) := Round(b);
      RoundTrades(b);
      DrainConserves(next);
      assert Traded([f] + Drain(next).fills) == f.quantity as int + Traded(Drain(next).fills);
    }
  }

  /** Every reported event has a non-zero quantity, and a positive one when all quantities are positive. */
  lemma {:induction false} DrainFillsNonZero(b: Book)
    ensures var fs := Drain(b).fills;
            forall i :: 0 <= i < |fs| ==> fs[i].quantity != 0 && (PositiveBook(b) ==> fs[i].quantity > 0)
    decreases |b.bids| + |b.asks|
  {
    if CanMatch(b) {
      var (next, f) := Round(b);
      if PositiveBook(b) {
        RoundTrades(b);
      }
      DrainFillsNonZero(next);
      var fs := Drain(b).fills;
      assert fs == [f] + Drain(next).fills;
      forall i | 0 <= i < |fs| ensures fs[i].quantity != 0 && (PositiveBook(b) ==> fs[i].quantity > 0) {
        if i > 0 { assert fs[i] == Drain(next).fills[i - 1]; }
      }
    }
  }

  /** With positive quantities, matching stops only when the slot is no longer crossed. */
  lemma DrainNoCross(b: Book)
    requires PositiveBook(b)
    ensures !Crossed(Drain(b).book)
  {
    DrainSettles(b);
    DrainConserves(b);
  }

  // ---------------------------------------------------------------------------
  // Submission
  // ---------------------------------------------------------------------------

  /** The book with the requested order spliced into its side's list. */
  function Place(b: Book, req: Request): (p: Book)
    ensures req.orderType == BUY ==> p.asks == b.asks && Resting(req.quantity, req.price) in p.bids
    ensures req.orderType == SELL ==> p.bids == b.bids && Resting(req.quantity, req.price) in p.asks
  {
    var r := Resting(req.quantity, req.price);
    if req.orderType == BUY then Book(Insert(BUY, b.bids, r), b.asks)
    else Book(b.bids, Insert(SELL, b.asks, r))
  }

  /** `addOrder` on one slot: insert, then match. */
  function Submit(b: Book, req: Request): (o: Outcome)
    ensures |o.book.bids| + |o.book.asks| + |o.fills| <= |b.bids| + |b.asks| + 1
  {
    InsertKeepsOrder(req.orderType, if req.orderType == BUY then b.bids else b.asks,
                     Resting(req.quantity, req.price));
    Drain(Place(b, req))
  }

  /** The quantity submitted on one side by a sequence of requests. */
  function Submitted(reqs: seq<Request>, side: OrderType): int {
    if reqs == [] then 0
    else (if reqs[0].orderType == side then reqs[0].quantity as int else 0) + Submitted(reqs[1..], side)
  }

  /** A sequence of `addOrder` calls on one slot, in order. */
  function SubmitAll(b: Book, reqs: seq<Request>): (o: Outcome)
    ensures |o.book.bids| + |o.book.asks| + |o.fills| <= |b.bids| + |b.asks| + |reqs|
    decreases |reqs|
  {
    if reqs == [] then Outcome(b, [])
    else
      var first := Submit(b, reqs[0]);
      var rest := SubmitAll(first.book, reqs[1..]);
      Outcome(rest.book, first.fills + rest.fills)
  }

  /**
   * One `addOrder` with a positive quantity on a sorted book of positive
   * quantities leaves it sorted, positive and not crossed, and the new order's
   * quantity is accounted for: each side's total plus the traded quantity is
   * the old total plus what was submitted on that side.
   */
  lemma SubmitSettles(b: Book, req: Request)
    requires SortedBook(b) && PositiveBook(b) && req.quantity > 0
    ensures var o := Submit(b, req);
            && SortedBook(o.book) && PositiveBook(o.book) && !Crossed(o.book)
            && Total(o.book.bids) + Traded(o.fills)
               == Total(b.bids) + (if req.orderType == BUY then req.quantity as int else 0)
            && Total(o.book.asks) + Traded(o.fills)
               == Total(b.asks) + (if req.orderType == SELL then req.quantity as int else 0)
  {
    var r := Resting(req.quantity, req.price);
    var p := Place(b, req);
    if req.orderType == BUY {
      InsertSorted(BUY, b.bids, r);
      AllPositiveInsert(BUY, b.bids, r);
      TotalInsert(BUY, b.bids, r);
    } else {
      InsertSorted(SELL, b.asks, r);
      AllPositiveInsert(SELL, b.asks, r);
      TotalInsert(SELL, b.asks, r);
    }
    DrainSorted(p);
    DrainConserves(p);
    DrainNoCross(p);
  }

  /**
   * Conservation over any sequence of positive-quantity submissions to one
   * slot: the quantity left on each side plus everything traded is what the
   * side started with plus everything submitted on it; the book stays sorted
   * and positive, and is not crossed once anything has been submitted.
   */
  lemma {:induction false} SubmitAllConserves(b: Book, reqs: seq<Request>)
    requires SortedBook(b) && PositiveBook(b)
    requires forall i :: 0 <= i < |reqs| ==> reqs[i].quantity > 0
    ensures var o := SubmitAll(b, reqs);
            && SortedBook(o.book) && PositiveBook(o.book)
            && (reqs != [] ==> !Crossed(o.book))
            && Total(o.book.bids) + Traded(o.fills) == Total(b.bids) + Submitted(reqs, BUY)
            && Total(o.book.asks) + Traded(o.fills) == Total(b.asks) + Submitted(reqs, SELL)
    decreases |reqs|
  {
    if reqs != [] {
      var first := Submit(b, reqs[0]);
      SubmitSettles(b, reqs[0]);
      SubmitAllConserves(first.book, reqs[1..]);
      TradedAppend(first.fills, SubmitAll(first.book, reqs[1..]).fills);
    }
  }

  /** A buy of 100 at 50 and then a sell of 100 at 50 trade once, 100 at 50, and leave both lists empty. */
  lemma ScenarioFullFill()
    ensures SubmitAll(Book([], []), [Request(BUY, 100, 50), Request(SELL, 100, 50)])
            == Outcome(Book([], []), [Fill(100, 50)])
  {
    var b1 := Submit(Book([], []), Request(BUY, 100, 50));
    assert b1 == Outcome(Book([Resting(100, 50)], []), []);
    var b2 := Submit(b1.book, Request(SELL, 100, 50));
    assert Place(b1.book, Request(SELL, 100, 50)) == Book([Resting(100, 50)], [Resting(100, 50)]);
    assert Round(Book([Resting(100, 50)], [Resting(100, 50)])) == (Book([], []), Fill(100, 50));
    assert b2 == Outcome(Book([], []), [Fill(100, 50)]);
  }

  /**
   * Buys of 50 at 60 and 30 at 55, then a sell of 40 at 58: one trade of 40 at
   * 58, the best bid left with 10 at 60 ahead of 30 at 55, and no ask left.
   */
  lemma ScenarioPartialFill()
    ensures SubmitAll(Book([], []), [Request(BUY, 50, 60), Request(BUY, 30, 55), Request(SELL, 40, 58)])
            == Outcome(Book([Resting(10, 60), Resting(30, 55)], []), [Fill(40, 58)])
  {
    var b1 := Submit(Book([], []), Request(BUY, 50, 60));
    assert b1 == Outcome(Book([Resting(50, 60)], []), []);
    var b2 := Submit(b1.book, Request(BUY, 30, 55));
    assert InsertionPoint(BUY, [Resting(50, 60)], 55) == 1;
    assert b2 == Outcome(Book([Resting(50, 60), Resting(30, 55)], []), []);
    var placed := Book([Resting(50, 60), Resting(30, 55)], [Resting(40, 58)]);
    assert Place(b2.book, Request(SELL, 40, 58)) == placed;
    assert Min(50, 40) == 40 && Sub(50, 40) == 10 && Sub(40, 40) == 0;
    assert Consume(placed.bids, 40) == [Resting(10, 60), Resting(30, 55)];
    assert Round(placed) == (Book([Resting(10, 60), Resting(30, 55)], []), Fill(40, 58));
    var b3 := Submit(b2.book, Request(SELL, 40, 58));
    assert b3 == Outcome(Book([Resting(10, 60), Resting(30, 55)], []), [Fill(40, 58)]);
  }

  /** A sell of 20 at 100 on an empty slot rests alone and reports nothing. */
  lemma ScenarioRestingAsk()
    ensures SubmitAll(Book([], []), [Request(SELL, 20, 100)]) == Outcome(Book([], [Resting(20, 100)]), [])
  {
    assert Submit(Book([], []), Request(SELL, 20, 100)) == Outcome(Book([], [Resting(20, 100)]), []);
  }
}
