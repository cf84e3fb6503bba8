/**
 * The order book of the trading engine as heap objects: orders are nodes of
 * singly-linked lists, and each of the 1024 slots holds one buy list and one
 * sell list behind a mutable head reference.  Every list carries a ghost view
 * (the sequence of its nodes from head to tail) and every operation is proved
 * to act on that view as the functions of module BookSpec say.
 *
 * The book is modelled for a single thread: an `AtomicReference` is a plain
 * mutable head field and `compareAndSet` reads, compares and assigns.
 */
module Engine {
  import opened JavaInt
  import opened BookSpec

  /** The number of ticker slots. */
  const MAX_TICKERS: int := 1024

  /**
   * `getTickerIndex`: the slot of a ticker whose `hashCode()` is `hash`,
   * `Math.abs(hash) % MAX_TICKERS` in Java arithmetic.  It is always a valid
   * slot, and it is the mathematical |hash| mod 1024 for every hash, including
   * the most negative one, whose `Math.abs` stays negative but is a multiple of 1024.
   */
  function TickerIndex(hash: int32): (r: int)
    ensures 0 <= r < MAX_TICKERS
    ensures r == (if hash < 0 then -(hash as int) else hash as int) % MAX_TICKERS
  {
    Rem(Abs(hash), MAX_TICKERS as int32) as int
  }

  /** An order: fixed side, ticker and limit price, a remaining quantity, and the link to the next order of its list. */
  class Order {
    const orderType: OrderType
    const tickerSymbol: string
    var quantity: int32
    const price: int32
    var nextOrder: Order?
    /** The list the order has been spliced into, if any. */
    ghost var owner: OrderChain?

    constructor (orderType: OrderType, tickerSymbol: string, quantity: int32, price: int32)
      ensures this.orderType == orderType && this.tickerSymbol == tickerSymbol
      ensures this.quantity == quantity && this.price == price
      ensures nextOrder == null && owner == null
    {
      this.orderType := orderType;
      this.tickerSymbol := tickerSymbol;
      this.quantity := quantity;
      this.price := price;
      this.nextOrder := null;
      this.owner := null;
    }
  }

  /** What matching sees of a sequence of orders: their quantities and prices, in order. */
  ghost function Snapshot(ns: seq<Order>): (r: seq<Resting>)
    reads ns
    ensures |r| == |ns|
    ensures forall i {:trigger r[i]} :: 0 <= i < |ns| ==> r[i] == Resting(ns[i].quantity, ns[i].price)
  {
    seq(|ns|, i requires 0 <= i < |ns| reads ns => Resting(ns[i].quantity, ns[i].price))
  }

  /** The node that follows position k of a list, or null at its end. */
  function NextIn(ns: seq<Order>, k: int): Order?
    requires 0 <= k < |ns|
  {
    if k + 1 < |ns| then ns[k + 1] else null
  }

  /** Each node links to the one after it, and the last to nothing. */
  ghost predicate Linked(ns: seq<Order>)
    reads ns
  {
    forall k {:trigger NextIn(ns, k)} :: 0 <= k < |ns| ==> ns[k].nextOrder == NextIn(ns, k)
  }

  /** Every node has been spliced into list c and is an order of c's side. */
  ghost predicate OwnedBy(ns: seq<Order>, c: OrderChain)
    reads ns
  {
    forall k :: 0 <= k < |ns| ==> ns[k].owner == c && ns[k].orderType == c.side
  }

  /** Prices run from best to worst for the side. */
  predicate PricesSorted(side: OrderType, ns: seq<Order>) {
    forall j, k {:trigger Dominates(side, ns[j].price, ns[k].price)} :: 0 <= j < k < |ns| ==> Dominates(side, ns[j].price, ns[k].price)
  }

  /**
   * One price-ordered list: the `AtomicReference<Order>` that holds its head,
   * with the list's side and slot and the sequence of its nodes as ghost state.
   */
  class OrderChain {
    var value: Order?
    ghost const side: OrderType
    ghost const slot: int
    ghost var nodes: seq<Order>

    /**
     * The head is the first node, each node links to the next and the last to
     * nothing, the nodes are distinct orders of this side that belong to this
     * list, and their prices run from best to worst.
     */
    ghost predicate Valid()
      reads this, nodes
    {
      value == (if nodes == [] then null else nodes[0]) &&
      Linked(nodes) && OwnedBy(nodes, this) && PricesSorted(side, nodes)
    }

    /** The list as matching sees it; it is sorted for its side. */
    ghost function Contents(): (r: seq<Resting>)
      reads this, nodes
      ensures Valid() ==> SortedFor(side, r)
    {
      Snapshot(nodes)
    }

    /** The objects the list is made of. */
    ghost function Footprint(): set<object>
      reads this
    {
      {this} + set k | 0 <= k < |nodes| :: nodes[k]
    }

    constructor (ghost side: OrderType, ghost slot: int)
      ensures this.side == side && this.slot == slot
      ensures value == null && nodes == [] && Valid()
    {
      this.side := side;
      this.slot := slot;
      value := null;
      nodes := [];
    }

    /** `compareAndSet`: replace the head by `update` exactly when it is `expected`. */
    method CompareAndSet(expected: Order?, update: Order?) returns (ok: bool)
      modifies this`value
      ensures ok == (old(value) == expected)
      ensures value == if ok then update else old(value)
    {
      ok := value == expected;
      if ok {
        value := update;
      }
    }

    /** A list none of whose objects changed is still valid and holds the same orders. */
    twostate lemma ChainKept()
      requires old(Valid())
      requires forall o :: o in old(Footprint()) ==> unchanged(o)
      ensures Valid() && nodes == old(nodes) && Contents() == old(Contents())
    {
      assert this in old(Footprint());
      assert unchanged(this);
      assert forall k :: 0 <= k < |nodes| ==> nodes[k] in old(Footprint());
    }

    /** Two different lists that were valid shared no object. */
    twostate lemma WasApart(d: OrderChain)
      requires old(Valid()) && old(d.Valid()) && this != d
      ensures old(Footprint()) !! old(d.Footprint())
    {
      forall o | o in old(Footprint()) ensures o !in old(d.Footprint()) {
        if o != this {
          var k :| 0 <= k < |old(nodes)| && old(nodes)[k] == o;
          assert old(nodes[k].owner) == this;
          forall m | 0 <= m < |old(d.nodes)| ensures old(d.nodes)[m] != o {
            assert old(d.nodes[m].owner) == d;
          }
        }
      }
    }

    /**
     * What `insertOrder` does to a list, in ghost terms: a node n that was not
     * in the list is placed at position i, which is its insertion point, and
     * linked to the node that was at i; the node before it (if any) is linked
     * to n; nothing else changed.  Then every node links to the one after it
     * and belongs to the list, and the contents are BookSpec.Insert of the old
     * ones.
     */
    twostate lemma Spliced(i: int)
      requires old(Valid())
      requires 0 <= i <= |old(nodes)| && |nodes| == |old(nodes)| + 1
      requires var ns, n := old(nodes), nodes[i];
               && nodes == ns[..i] + [n] + ns[i..]
               && i == InsertionPoint(side, old(Contents()), n.price)
               && value == (if i == 0 then n else old(value))
               && n.nextOrder == (if i < |ns| then ns[i] else null)
               && n.owner == this && n.orderType == side
               && (i > 0 ==> ns[i - 1].nextOrder == n)
               && forall k :: 0 <= k < |ns| ==>
                    ns[k].quantity == old(ns[k].quantity) && ns[k].owner == old(ns[k].owner) &&
                    (k != i - 1 ==> ns[k].nextOrder == old(ns[k].nextOrder))
      ensures Valid() && Footprint() == old(Footprint()) + {nodes[i]}
      ensures Contents() == Insert(side, old(Contents()), Resting(nodes[i].quantity, nodes[i].price))
    {
      SplicedLinks(i);
      SplicedOwners(i);
      SplicedContents(i);
      SplicedFootprint(i);
    }

    /** The footprint part of Spliced: the list gains exactly the new node. */
    twostate lemma SplicedFootprint(i: int)
      requires 0 <= i <= |old(nodes)| && |nodes| == |old(nodes)| + 1
      requires nodes == old(nodes)[..i] + [nodes[i]] + old(nodes)[i..]
      ensures Footprint() == old(Footprint()) + {nodes[i]}
    {
      var ns, out := old(nodes), nodes;
      SpliceIndex(ns, i, out[i]);
      forall o | o in Footprint() ensures o in old(Footprint()) + {out[i]} {
        if o != this {
          var k :| 0 <= k < |out| && out[k] == o;
          if k < i {
            assert ns[k] == o;
          } else if k > i {
            assert ns[k - 1] == o;
          }
        }
      }
      forall o | o in old(Footprint()) ensures o in Footprint() {
        if o != this {
          var k :| 0 <= k < |ns| && ns[k] == o;
          if k < i {
            assert out[k] == o;
          } else {
            assert out[k + 1] == o;
          }
        }
      }
    }

    /** The links part of Spliced: every node of the new list links to the one after it. */
    twostate lemma SplicedLinks(i: int)
      requires old(Linked(nodes)) && 0 <= i <= |old(nodes)| && |nodes| == |old(nodes)| + 1
      requires var ns, n := old(nodes), nodes[i];
               && nodes == ns[..i] + [n] + ns[i..]
               && n.nextOrder == (if i < |ns| then ns[i] else null)
               && (i > 0 ==> ns[i - 1].nextOrder == n)
               && forall k :: 0 <= k < |ns| && k != i - 1 ==> ns[k].nextOrder == old(ns[k].nextOrder)
      ensures Linked(nodes)
    {
      var ns, out := old(nodes), nodes;
      SpliceIndex(ns, i, out[i]);
      forall k | 0 <= k < |out| ensures out[k].nextOrder == NextIn(out, k) {
        if k < i - 1 {
          assert old(ns[k].nextOrder) == NextIn(ns, k);
        } else if k > i {
          assert old(ns[k - 1].nextOrder) == NextIn(ns, k - 1);
        }
      }
    }

    /** The ownership part of Spliced: every node of the new list belongs to it. */
    twostate lemma SplicedOwners(i: int)
      requires old(OwnedBy(nodes, this)) && 0 <= i <= |old(nodes)| && |nodes| == |old(nodes)| + 1
      requires var ns, n := old(nodes), nodes[i];
               && nodes == ns[..i] + [n] + ns[i..]
               && n.owner == this && n.orderType == side
               && forall k :: 0 <= k < |ns| ==> ns[k].owner == old(ns[k].owner)
      ensures OwnedBy(nodes, this)
    {
      var ns, out := old(nodes), nodes;
      SpliceIndex(ns, i, out[i]);
      forall k | 0 <= k < |out| ensures out[k].owner == this && out[k].orderType == side {
        if k < i {
          assert old(ns[k].owner) == this && ns[k].orderType == side;
        } else if k > i {
          assert old(ns[k - 1].owner) == this && ns[k - 1].orderType == side;
        }
      }
    }

    /** The contents part of Spliced: the new list is the old one with n inserted, so it is sorted. */
    twostate lemma SplicedContents(i: int)
      requires old(Valid()) && 0 <= i <= |old(nodes)| && |nodes| == |old(nodes)| + 1
      requires var ns, n := old(nodes), nodes[i];
               && nodes == ns[..i] + [n] + ns[i..]
               && i == InsertionPoint(side, old(Contents()), n.price)
               && forall k :: 0 <= k < |ns| ==> ns[k].quantity == old(ns[k].quantity)
      ensures Contents() == Insert(side, old(Contents()), Resting(nodes[i].quantity, nodes[i].price))
      ensures PricesSorted(side, nodes)
    {
      var ns, out := old(nodes), nodes;
      SpliceIndex(ns, i, out[i]);
      var rs := old(Contents());
      var ins := Insert(side, rs, Resting(out[i].quantity, out[i].price));
      assert |ins| == |out|;
      forall k | 0 <= k < |out| ensures Snapshot(out)[k] == ins[k] {
        if k < i {
          assert ins[k] == rs[k];
        } else if k > i {
          assert ins[k] == rs[k - 1];
        }
      }
      InsertSorted(side, rs, Resting(out[i].quantity, out[i].price));
      SnapshotSorted(side, out);
    }

    /**
     * What one round of `matchOrder` does to one list, in ghost terms: the head's
     * quantity drops by m (in Java arithmetic) and the head is unlinked exactly
     * when that leaves it at zero; nothing else changed.  The list is then valid
     * and its contents are BookSpec.Consume of the old ones.
     */
    twostate lemma Consumed(m: int32)
      requires old(Valid()) && old(nodes) != []
      requires var h := old(nodes)[0];
               && h.quantity == Sub(old(h.quantity), m)
               && h.nextOrder == old(h.nextOrder) && h.owner == old(h.owner)
               && (if h.quantity == 0 then nodes == old(nodes)[1..] && value == old(h.nextOrder)
                   else nodes == old(nodes) && value == old(value))
      requires forall k :: 0 < k < |old(nodes)| ==> unchanged(old(nodes)[k])
      ensures Valid() && Footprint() <= old(Footprint())
      ensures Contents() == Consume(old(Contents()), m)
    {
      var ns := old(nodes);
      var rs := old(Contents());
      var out := Consume(rs, m);
      var h := ns[0];
      assert old(h.nextOrder) == NextIn(ns, 0);
      if h.quantity == 0 {
        assert out == rs[1..];
        forall k | 0 <= k < |nodes| ensures nodes[k].nextOrder == NextIn(nodes, k) {
          assert nodes[k] == ns[k + 1];
          assert old(ns[k + 1].nextOrder) == NextIn(ns, k + 1);
        }
        forall k | 0 <= k < |nodes| ensures Snapshot(nodes)[k] == out[k] {
          assert nodes[k] == ns[k + 1];
        }
      } else {
        assert out == [Resting(h.quantity, h.price)] + rs[1..];
        forall k | 0 < k < |ns| ensures ns[k].nextOrder == NextIn(ns, k) {
          assert old(ns[k].nextOrder) == NextIn(ns, k);
        }
        forall k | 0 <= k < |ns| ensures Snapshot(ns)[k] == out[k] {
          if k > 0 {
            assert ns[k].quantity == old(ns[k].quantity);
          }
        }
      }
      assert Snapshot(nodes) == out;
    }
  }

  /**
   * A linked list visits no node twice: the nodes after two equal nodes would
   * be equal all the way to the end, yet the last node links to nothing and no
   * earlier one does.
   */
  lemma {:induction false} LinkedApart(ns: seq<Order>, j: nat, k: nat)
    requires Linked(ns) && j < k < |ns|
    ensures ns[j] != ns[k]
    decreases |ns| - k
  {
    assert ns[j].nextOrder == NextIn(ns, j) && ns[k].nextOrder == NextIn(ns, k);
    if k + 1 < |ns| {
      LinkedApart(ns, j + 1, k + 1);
    }
  }

  /** No other node of a linked list is the one at position a. */
  lemma LinkedDistinct(ns: seq<Order>, a: nat)
    requires Linked(ns) && a < |ns|
    ensures forall k :: 0 <= k < |ns| && k != a ==> ns[k] != ns[a]
  {
    forall k | 0 <= k < |ns| && k != a ensures ns[k] != ns[a] {
      if k < a {
        LinkedApart(ns, k, a);
      } else {
        LinkedApart(ns, a, k);
      }
    }
  }

  /** A list whose snapshot is sorted has its prices sorted. */
  lemma SnapshotSorted(side: OrderType, ns: seq<Order>)
    requires SortedFor(side, Snapshot(ns))
    ensures PricesSorted(side, ns)
  {
    forall j, k | 0 <= j < k < |ns| ensures Dominates(side, ns[j].price, ns[k].price) {
      assert Snapshot(ns)[j].price == ns[j].price && Snapshot(ns)[k].price == ns[k].price;
    }
  }

  /** Where each element of a sequence lands when x is inserted at position i. */
  lemma SpliceIndex(ns: seq<Order>, i: nat, x: Order)
    requires i <= |ns|
    ensures var out := ns[..i] + [x] + ns[i..];
            |out| == |ns| + 1 && out[i] == x &&
            (forall k :: 0 <= k < i ==> out[k] == ns[k]) &&
            (forall k :: i < k < |out| ==> out[k] == ns[k - 1])
  {
  }

  /** Placing a request in slot i and then draining that slot submits it there. */
  lemma SubmitInSlot(bs: seq<Book>, i: int, req: Request, placed: seq<Book>, after: seq<Book>)
    requires 0 <= i < |bs|
    requires placed == bs[i := Place(bs[i], req)]
    requires after == placed[i := Drain(placed[i]).book]
    ensures after == bs[i := Submit(bs[i], req).book]
    ensures Drain(placed[i]) == Submit(bs[i], req)
  {
  }

  /** The order book: a buy list and a sell list for each of the MAX_TICKERS slots. */
  class StockOrderBook {
    /**
     * The two arrays of list heads, one slot per ticker.  They are filled by the
     * constructor and never written again, so they are sequences here.
     */
    const buyOrders: seq<OrderChain>
    const sellOrders: seq<OrderChain>
    /** Every list and every order the book has used. */
    ghost var Repr: set<object>
    /** The "Matched" events reported so far, oldest first. */
    ghost var matches: seq<Fill>
    /** What matching sees of each slot: its two lists as BookSpec values. */
    ghost var books: seq<Book>

    /** c is a valid list of the given side and slot whose objects all belong to the book. */
    ghost predicate Holds(c: OrderChain, side: OrderType, slot: int)
      reads this, Repr
    {
      c in Repr && c.side == side && c.slot == slot &&
      (forall k :: 0 <= k < |c.nodes| ==> c.nodes[k] in Repr) &&
      c.Valid()
    }

    ghost predicate Valid()
      reads this, Repr
    {
      this !in Repr && |buyOrders| == MAX_TICKERS && |sellOrders| == MAX_TICKERS && |books| == MAX_TICKERS &&
      (forall i :: 0 <= i < MAX_TICKERS ==> Holds(buyOrders[i], BUY, i) && Holds(sellOrders[i], SELL, i) && Viewed(i))
    }

    /** books[i] is what the two lists of slot i hold. */
    ghost predicate Viewed(i: int)
      requires 0 <= i < MAX_TICKERS && |buyOrders| == MAX_TICKERS && |sellOrders| == MAX_TICKERS && |books| == MAX_TICKERS
      reads this, buyOrders[i], sellOrders[i], buyOrders[i].nodes, sellOrders[i].nodes
    {
      books[i] == Book(buyOrders[i].Contents(), sellOrders[i].Contents())
    }

    /** Each slot's lists are sorted for their sides. */
    lemma BooksSorted(i: int)
      requires Valid() && 0 <= i < MAX_TICKERS
      ensures SortedBook(books[i])
    {
      assert Viewed(i);
    }

    /** The objects of slot i: its two lists and their orders. */
    ghost function SlotFootprint(i: int): set<object>
      requires Valid() && 0 <= i < MAX_TICKERS
      reads this, Repr
    {
      buyOrders[i].Footprint() + sellOrders[i].Footprint()
    }

    /** The objects of a list the book holds belong to the book. */
    lemma HeldFootprint(c: OrderChain, side: OrderType, slot: int)
      requires Holds(c, side, slot)
      ensures c.Footprint() <= Repr
    {
    }

    /** The objects of a slot belong to the book. */
    lemma SlotHeld(index: int)
      requires Valid() && 0 <= index < MAX_TICKERS
      ensures SlotFootprint(index) <= Repr && this !in SlotFootprint(index)
    {
      HeldFootprint(buyOrders[index], BUY, index);
      HeldFootprint(sellOrders[index], SELL, index);
    }

    /** An empty list of the right side and slot that belongs to the book is held by it. */
    lemma EmptyHeld(c: OrderChain, side: OrderType, slot: int)
      requires c in Repr && c.side == side && c.slot == slot && c.nodes == [] && c.value == null
      ensures Holds(c, side, slot) && c.Contents() == []
    {
    }

    /** A valid list of the right side and slot whose objects all belong to the book is held by it. */
    lemma HeldWithin(c: OrderChain, side: OrderType, slot: int, fp: set<object>)
      requires c.Valid() && c in Repr && c.side == side && c.slot == slot
      requires c.Footprint() <= fp && fp <= Repr
      ensures Holds(c, side, slot)
    {
      assert forall k :: 0 <= k < |c.nodes| ==> c.nodes[k] in c.Footprint();
    }

    /**
     * When only the objects of slot `index` changed (the book forgetting no
     * object), the book still holds both lists of that slot and books was
     * updated at that slot alone, the book is valid again.
     */
    twostate lemma SlotsKept(index: int)
      requires old(Valid()) && 0 <= index < MAX_TICKERS && old(Repr) <= Repr && this !in Repr
      requires forall o: object :: o in old(Repr) && o != this && o !in old(SlotFootprint(index)) ==> unchanged(o)
      requires Holds(buyOrders[index], BUY, index) && Holds(sellOrders[index], SELL, index)
      requires books == old(books)[index := Book(buyOrders[index].Contents(), sellOrders[index].Contents())]
      ensures Valid()
    {
      var bi, si := buyOrders[index], sellOrders[index];
      assert Viewed(index);
      forall j | 0 <= j < MAX_TICKERS && j != index
        ensures Holds(buyOrders[j], BUY, j) && Holds(sellOrders[j], SELL, j) && Viewed(j)
      {
        assert old(Viewed(j));
        var b, s := buyOrders[j], sellOrders[j];
        b.WasApart(bi);
        b.WasApart(si);
        s.WasApart(bi);
        s.WasApart(si);
        assert forall o :: o in old(b.Footprint()) ==> o in old(Repr) && o !in old(SlotFootprint(index));
        assert forall o :: o in old(s.Footprint()) ==> o in old(Repr) && o !in old(SlotFootprint(index));
        b.ChainKept();
        s.ChainKept();
      }
    }

    /**
     * After some order r was spliced into list c (the list of its side at its
     * slot), with no other object of the book touched, the book having learnt
     * of the new order and books updated at that slot alone by BookSpec.Place
     * of r, the book is valid again.
     */
    twostate lemma Inserted(c: OrderChain)
      requires old(Valid()) && 0 <= c.slot < MAX_TICKERS && old(Repr) <= Repr && this !in Repr
      requires c == if c.side == BUY then buyOrders[c.slot] else sellOrders[c.slot]
      requires forall o: object :: o in old(Repr) && o != this && o !in old(c.Footprint()) ==> unchanged(o)
      requires c.Valid() && c.Footprint() <= Repr
      requires exists r: Resting :: c.Contents() == Insert(c.side, old(c.Contents()), r) &&
                 books == old(books)[c.slot := Place(old(books)[c.slot], Request(c.side, r.quantity, r.price))]
      ensures Valid()
    {
      var index := c.slot;
      var r: Resting :| c.Contents() == Insert(c.side, old(c.Contents()), r) &&
        books == old(books)[c.slot := Place(old(books)[c.slot], Request(c.side, r.quantity, r.price))];
      assert old(Viewed(index));
      var d := if c.side == BUY then sellOrders[index] else buyOrders[index];
      d.WasApart(c);
      assert forall o :: o in old(d.Footprint()) ==> o in old(Repr);
      d.ChainKept();
      HeldWithin(c, c.side, index, Repr);
      HeldWithin(d, d.side, index, d.Footprint());
      SlotsKept(index);
    }

    constructor ()
      ensures Valid() && fresh(Repr) && matches == []
      ensures books == seq(MAX_TICKERS, _ => Book([], []))
    {
      var b: seq<OrderChain> := [];
      var s: seq<OrderChain> := [];
      ghost var r: set<object> := {};
      for i := 0 to MAX_TICKERS
        invariant |b| == i && |s| == i
        invariant forall k :: 0 <= k < i ==>
          b[k] in r && b[k].side == BUY && b[k].slot == k && b[k].nodes == [] && b[k].value == null
        invariant forall k :: 0 <= k < i ==>
          s[k] in r && s[k].side == SELL && s[k].slot == k && s[k].nodes == [] && s[k].value == null
        invariant fresh(r)
      {
        var bc := new OrderChain(BUY, i);
        var sc := new OrderChain(SELL, i);
        b := b + [bc];
        s := s + [sc];
        r := r + {bc, sc};
      }
      buyOrders := b;
      sellOrders := s;
      Repr := r;
      matches := [];
      books := seq(MAX_TICKERS, _ => Book([], []));
      new;
      forall i | 0 <= i < MAX_TICKERS
        ensures Holds(buyOrders[i], BUY, i) && Holds(sellOrders[i], SELL, i) && Viewed(i)
      {
        EmptyHeld(buyOrders[i], BUY, i);
        EmptyHeld(sellOrders[i], SELL, i);
      }
    }

    /**
     * `insertOrder`: splice a new order into a list, ahead of the first order
     * whose price it dominates.  The list stays valid (so sorted), gains exactly
     * the new node at its insertion point and keeps every old node in order.
     * In a single thread the compare-and-set succeeds and the walk takes at
     * least one step, so the source's retry loop runs once.
     */
    static method InsertOrder(head: OrderChain, newOrder: Order, isBuyOrder: bool)
      requires head.Valid()
      requires newOrder.owner == null && newOrder.orderType == head.side
      requires isBuyOrder == (head.side == BUY)
      modifies head.Footprint(), newOrder
      ensures head.Valid() && head.Footprint() == old(head.Footprint()) + {newOrder}
      ensures newOrder.owner == head && newOrder.quantity == old(newOrder.quantity)
      ensures head.Contents() == Insert(head.side, old(head.Contents()), Resting(newOrder.quantity, newOrder.price))
    {
      ghost var rs := head.Contents();
      var current := head.value;
      if current == null || (isBuyOrder && newOrder.price >= current.price) || (!isBuyOrder && newOrder.price <= current.price) {
        InsertionPointIsFirst(head.side, rs, newOrder.price, 0);
        PushFront(head, current, newOrder);
      } else {
        var prev, temp, i := FindPosition(head, newOrder.price, isBuyOrder);
        LinkAfter(head, prev, temp, newOrder, i);
      }
    }

    /**
     * The last step of `insertOrder` when the new order goes first: it is
     * pointed at the old head and swapped in by compare-and-set, which in a
     * single thread always succeeds.
     */
    static method PushFront(head: OrderChain, current: Order?, newOrder: Order)
      requires head.Valid() && newOrder.owner == null && newOrder.orderType == head.side
      requires current == head.value && InsertionPoint(head.side, head.Contents(), newOrder.price) == 0
      modifies head, newOrder`nextOrder, newOrder`owner
      ensures head.Valid() && newOrder.owner == head && head.Footprint() == old(head.Footprint()) + {newOrder}
      ensures head.nodes == old(head.nodes)[..0] + [newOrder] + old(head.nodes)[0..]
      ensures head.Contents() == Insert(head.side, old(head.Contents()), Resting(newOrder.quantity, newOrder.price))
    {
      ghost var ns := head.nodes;
      newOrder.nextOrder := current;
      var ok := head.CompareAndSet(current, newOrder);
      assert ok;
      assert ns[..0] + [newOrder] + ns[0..] == [newOrder] + ns;
      head.nodes := ns[..0] + [newOrder] + ns[0..];
      newOrder.owner := head;
      head.Spliced(0);
    }

    /**
     * The last step of `insertOrder` when the new order does not go first:
     * newOrder is linked between prev and temp, the nodes at positions i - 1
     * and i (temp is null at the end of the list).
     */
    static method LinkAfter(head: OrderChain, prev: Order, temp: Order?, newOrder: Order, ghost i: int)
      requires head.Valid() && newOrder.owner == null && newOrder.orderType == head.side
      requires 0 < i <= |head.nodes| && i == InsertionPoint(head.side, head.Contents(), newOrder.price)
      requires prev == head.nodes[i - 1] && temp == NextIn(head.nodes, i - 1)
      modifies head`nodes, prev`nextOrder, newOrder`nextOrder, newOrder`owner
      ensures head.Valid() && newOrder.owner == head && head.Footprint() == old(head.Footprint()) + {newOrder}
      ensures head.nodes == old(head.nodes)[..i] + [newOrder] + old(head.nodes)[i..]
      ensures head.Contents() == Insert(head.side, old(head.Contents()), Resting(newOrder.quantity, newOrder.price))
    {
      ghost var ns := head.nodes;
      LinkedDistinct(ns, i - 1);
      newOrder.nextOrder := temp;
      prev.nextOrder := newOrder;
      head.nodes := ns[..i] + [newOrder] + ns[i..];
      newOrder.owner := head;
      assert head.nodes[i] == newOrder;
      head.Spliced(i);
    }

    /**
     * The walk of `insertOrder` when the new order does not go first: follow
     * the links from the head while the node's price strictly beats p.  It
     * stops between prev, the node at position i - 1, and temp, the node at
     * position i (or null at the end), where i is p's insertion point.
     */
    static method FindPosition(head: OrderChain, p: int32, isBuyOrder: bool)
      returns (prev: Order?, temp: Order?, ghost i: nat)
      requires head.Valid() && isBuyOrder == (head.side == BUY)
      requires head.nodes != [] && !Dominates(head.side, p, head.nodes[0].price)
      ensures 0 < i <= |head.nodes| && i == InsertionPoint(head.side, head.Contents(), p)
      ensures prev == head.nodes[i - 1] && temp == NextIn(head.nodes, i - 1)
    {
      ghost var ns := head.nodes;
      ghost var rs := head.Contents();
      prev := null;
      temp := head.value;
      i := 0;
      while temp != null && ((isBuyOrder && p < temp.price) || (!isBuyOrder && p > temp.price))
        invariant 0 <= i <= |ns|
        invariant temp == (if i < |ns| then ns[i] else null)
        invariant prev == (if i == 0 then null else ns[i - 1])
        invariant forall j :: 0 <= j < i ==> !Dominates(head.side, p, rs[j].price)
        decreases |ns| - i
      {
        assert ns[i].nextOrder == NextIn(ns, i);
        prev := temp;
        temp := temp.nextOrder;
        i := i + 1;
      }
      InsertionPointIsFirst(head.side, rs, p, i);
    }

    /**
     * One round of `matchOrder` on crossing heads: both heads lose m, the event
     * is logged at the ask price, and a head whose quantity reaches zero is
     * unlinked by a compare-and-set that succeeds.  Each list's contents become
     * BookSpec.Consume of the old ones.
     */
    method Trade(buys: OrderChain, sells: OrderChain, buyOrder: Order, sellOrder: Order, m: int32)
      requires buys.Valid() && sells.Valid() && buys != sells
      requires buys.value == buyOrder && sells.value == sellOrder
      requires buyOrder.price >= sellOrder.price
      requires m == Min(buyOrder.quantity, sellOrder.quantity) && m != 0
      modifies this`matches, buys, sells, buyOrder, sellOrder
      ensures buys.Valid() && sells.Valid()
      ensures var b := old(Book(buys.Contents(), sells.Contents()));
              CanMatch(b) && Book(buys.Contents(), sells.Contents()) == Round(b).0 && matches == old(matches) + [Round(b).1]
      ensures buys.nodes == if old(buyOrder.quantity) == m then old(buys.nodes)[1..] else old(buys.nodes)
      ensures sells.nodes == if old(sellOrder.quantity) == m then old(sells.nodes)[1..] else old(sells.nodes)
      ensures buys.Footprint() <= old(buys.Footprint()) && sells.Footprint() <= old(sells.Footprint())
    {
      assert buys.Contents()[0] == Resting(buyOrder.quantity, buyOrder.price);
      assert sells.Contents()[0] == Resting(sellOrder.quantity, sellOrder.price);
      LinkedDistinct(buys.nodes, 0);
      LinkedDistinct(sells.nodes, 0);
      label round:
      buyOrder.quantity := Sub(buyOrder.quantity, m);
      sellOrder.quantity := Sub(sellOrder.quantity, m);
      matches := matches + [Fill(m, sellOrder.price)];
      if buyOrder.quantity == 0 {
        var ok := buys.CompareAndSet(buyOrder, buyOrder.nextOrder);
        assert ok;
        buys.nodes := buys.nodes[1..];
      }
      if sellOrder.quantity == 0 {
        var ok := sells.CompareAndSet(sellOrder, sellOrder.nextOrder);
        assert ok;
        sells.nodes := sells.nodes[1..];
      }
      buys.Consumed@round(m);
      sells.Consumed@round(m);
    }

    /**
     * The loop of `matchOrder` on the two lists of one slot: while both heads
     * exist, the bid is at least the ask and the smaller head quantity is not
     * zero, trade one round.  The lists end as BookSpec.Drain says, the events
     * it reports are appended to the log in order, and each list loses only a
     * prefix of its nodes.
     */
    method MatchLists(buys: OrderChain, sells: OrderChain)
      requires buys.Valid() && sells.Valid() && buys != sells
      modifies this`matches, buys.Footprint(), sells.Footprint()
      ensures buys.Valid() && sells.Valid()
      ensures var o := Drain(old(Book(buys.Contents(), sells.Contents())));
              Book(buys.Contents(), sells.Contents()) == o.book && matches == old(matches) + o.fills
      ensures buys.Footprint() <= old(buys.Footprint()) && sells.Footprint() <= old(sells.Footprint())
    {
      ghost var start := Book(buys.Contents(), sells.Contents());
      ghost var now := start;
      ghost var log: seq<Fill> := [];
      while true
        invariant buys.Valid() && sells.Valid()
        invariant buys.Footprint() <= old(buys.Footprint()) && sells.Footprint() <= old(sells.Footprint())
        invariant matches == old(matches) + log
        invariant now == Book(buys.Contents(), sells.Contents())
        invariant Drain(start) == Outcome(Drain(now).book, log + Drain(now).fills)
        decreases |buys.nodes| + |sells.nodes|
      {
        var buyOrder := buys.value;
        var sellOrder := sells.value;
        if buyOrder == null || sellOrder == null || buyOrder.price < sellOrder.price {
          DrainStop(start, now, log);
          break;
        }
        var matchedQuantity := Min(buyOrder.quantity, sellOrder.quantity);
        if matchedQuantity == 0 {
          DrainStop(start, now, log);
          break;
        }
        Trade(buys, sells, buyOrder, sellOrder, matchedQuantity);
        DrainStep(start, now, log);
        AppendAssociates(old(matches), log, Round(now).1);
        log := log + [Round(now).1];
        now := Round(now).0;
      }
    }

    /**
     * `matchOrder`: match the two lists of one slot.  The slot ends as
     * BookSpec.Drain says, its events are appended to the log, and every other
     * slot is unchanged.
     */
    method MatchOrder(index: int)
      requires Valid() && 0 <= index < MAX_TICKERS
      modifies this`matches, this`books, SlotFootprint(index)
      ensures Valid()
      ensures var o := Drain(old(books[index]));
              books == old(books[index := o.book]) && matches == old(matches) + o.fills
    {
      var buys, sells := buyOrders[index], sellOrders[index];
      HeldFootprint(buys, BUY, index);
      HeldFootprint(sells, SELL, index);
      assert Viewed(index);
      ghost var fb, fs := buys.Footprint(), sells.Footprint();
      MatchLists(buys, sells);
      books := books[index := Book(buys.Contents(), sells.Contents())];
      HeldWithin(buys, BUY, index, fb);
      HeldWithin(sells, SELL, index, fs);
      SlotsKept(index);
    }

    /**
     * The insertion half of `addOrder`: splice a new order into its side's list
     * at slot `index`.  The book stays valid and learns of the order, the slot
     * holds BookSpec.Place of its old orders, and nothing else changes.
     */
    method PlaceOrder(index: int, newOrder: Order)
      requires Valid() && 0 <= index < MAX_TICKERS
      requires newOrder !in Repr && newOrder.owner == null
      modifies this`Repr, this`books, newOrder
      modifies (if newOrder.orderType == BUY then buyOrders[index] else sellOrders[index]).Footprint()
      ensures Valid() && Repr == old(Repr) + {newOrder}
      ensures books == old(books[index := Place(books[index], Request(newOrder.orderType, newOrder.quantity, newOrder.price))])
    {
      var isBuyOrder := newOrder.orderType == BUY;
      var head := if isBuyOrder then buyOrders[index] else sellOrders[index];
      HeldFootprint(head, head.side, index);
      assert Viewed(index);
      Repr := Repr + {newOrder};
      books := books[index := Place(books[index], Request(newOrder.orderType, newOrder.quantity, newOrder.price))];
      InsertOrder(head, newOrder, isBuyOrder);
      Inserted(head);
    }

    /**
     * `addOrder`: create the order, splice it into its side's list at the
     * ticker's slot and match that slot.  The slot ends as BookSpec.Submit
     * says, its events are appended to the log, and every other slot is
     * unchanged.  The ticker's `hashCode()` is passed in as `tickerHash`.
     */
    method AddOrder(orderType: OrderType, tickerSymbol: string, tickerHash: int32, quantity: int32, price: int32)
      requires Valid()
      modifies this, Repr
      ensures Valid() && old(Repr) <= Repr && fresh(Repr - old(Repr))
      ensures var i := TickerIndex(tickerHash);
              var o := Submit(old(books[i]), Request(orderType, quantity, price));
              books == old(books[i := o.book]) && matches == old(matches) + o.fills
      ensures var i := TickerIndex(tickerHash);
              var o := Submit(old(books[i]), Request(orderType, quantity, price));
              quantity > 0 && PositiveBook(old(books[i])) ==>
                && PositiveBook(o.book) && !Crossed(o.book)
                && Total(o.book.bids) + Traded(o.fills)
                   == Total(old(books[i]).bids) + (if orderType == BUY then quantity as int else 0)
                && Total(o.book.asks) + Traded(o.fills)
                   == Total(old(books[i]).asks) + (if orderType == SELL then quantity as int else 0)
    {
      var index := TickerIndex(tickerHash);
      BooksSorted(index);
      ghost var before := books;
      var newOrder := new Order(orderType, tickerSymbol, quantity, price);
      SlotHeld(index);
      PlaceOrder(index, newOrder);
      ghost var placed := books;
      SlotHeld(index);
      MatchOrder(index);
      SubmitInSlot(before, index, Request(orderType, quantity, price), placed, books);
      if quantity > 0 && PositiveBook(before[index]) {
        SubmitSettles(before[index], Request(orderType, quantity, price));
      }
    }
  }
}
