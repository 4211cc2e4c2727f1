/** `TreeOrderBook` of `_tree_implementation/tree_order_book.py`: for every
    ticker a pair of price trees (asks and bids), created together by the
    ticker's first order, and one map from order id to order for all tickers.

    The file embeds its own red-black tree. Its `insert` is the same code as
    `red_black_tree.py`'s and is RedBlackTree.Insert here; its `update` and
    `remove` differ in the exceptions they raise and are TreeUpdate and
    TreeRemove below. */
module TreeOrderBook {
  import opened Orders
  import PL = PriceLevels
  import opened RB = RedBlackTree

  // ---------------------------------------------------------------------------
  // The embedded tree

  /** A failed tree edit as the embedded tree reports it: RuntimeError when
      `find` returns None, KeyError from the orders dict when the node lacks
      the id. */
  function Raised(e: PL.Edit<Tree>): (r: Outcome<Tree>)
    ensures e.Edited? <==> r.Ok?
    ensures e.Edited? ==> r.value == e.value
    ensures e.NoLevel? <==> r == Raise(RuntimeError)
    ensures e.NoOrder? <==> r == Raise(KeyError)
  {
    match e
    case Edited(t) => Ok(t)
    case NoLevel => Raise(RuntimeError)
    case NoOrder => Raise(KeyError)
  }

  /** The embedded tree's `update`. */
  function TreeUpdate(t: Tree, o: Order): (r: Outcome<Tree>)
    ensures r.Raise? ==> r.error == RuntimeError || r.error == KeyError
  {
    Raised(SetSize(t, o.price, o.orderId, o.size))
  }

  /** The node `remove` would splice out has a single order and two children. */
  predicate SplicesTwoChildren(t: Tree, p: Price) {
    var n := Find(t, p);
    n.Node? && |n.orders| <= 1 && n.left.Node? && n.right.Node?
  }

  /** The embedded tree's `remove`. A node with several orders loses the id
      (KeyError without it); a node with at most one order and a missing child
      is replaced by the other child. With two children the successor is
      relinked and then `.red` is read from a node that has no such attribute,
      so the call always ends in AttributeError (already at the relink when
      the successor is the right child and has no right child). */
  function TreeRemove(t: Tree, o: Order): (r: Outcome<Tree>)
    ensures r.Raise? ==> r.error in {RuntimeError, KeyError, AttributeError}
  {
    match t
    case Leaf => Raise(RuntimeError)
    case Node(c, l, q, os, rt) =>
      if q == o.price then
        if |os| > 1 then
          if o.orderId in os then Ok(t.(orders := os - {o.orderId})) else Raise(KeyError)
        else if l.Leaf? then Ok(rt)
        else if rt.Leaf? then Ok(l)
        else Raise(AttributeError)
      else if q < o.price then
        match TreeRemove(rt, o)
        case Ok(r') => Ok(t.(right := r'))
        case Raise(e) => Raise(e)
      else
        match TreeRemove(l, o)
        case Ok(l') => Ok(t.(left := l'))
        case Raise(e) => Raise(e)
  }

  // ---------------------------------------------------------------------------
  // The book

  /** The `"asks"` and `"bids"` trees of one ticker. */
  datatype Sides = Sides(asks: Tree, bids: Tree) {
    /** `_container_from_order_type`: asks for ASK orders, bids otherwise. */
    function Get(side: Side): Tree {
      if side == Ask then asks else bids
    }

    function With(side: Side, t: Tree): Sides {
      if side == Ask then this.(asks := t) else this.(bids := t)
    }
  }

  datatype Book = Book(tickers: map<string, Sides>, ids: map<OrderId, Order>)

  /** The book with `t` as `ticker`'s `side` tree and `ids` as its id map; a
      new ticker gets two empty trees first. */
  function Put(b: Book, ticker: string, side: Side, t: Tree, ids: map<OrderId, Order>): Book {
    var sides := if ticker in b.tickers then b.tickers[ticker] else Sides(Leaf, Leaf);
    Book(b.tickers[ticker := sides.With(side, t)], ids)
  }

  /** A new `TreeOrderBook()`. */
  const Empty := Book(map[], map[])

  /** `add_order`. */
  function AddOrder(b: Book, o: Order): (r: Outcome<Book>)
    ensures r.Raise? ==> r.error.IsOrderBookError()
  {
    if o.size == 0 then
      Raise(InvalidOrderSizeZero("Cannot add order with id: " + o.orderId + " due to size being 0."))
    else if o.orderId in b.ids then
      Raise(DuplicatedOrderId("Cannot add order with id: " + o.orderId + " to book."))
    else
      var sides := if o.ticker in b.tickers then b.tickers[o.ticker] else Sides(Leaf, Leaf);
      Ok(Put(b, o.ticker, o.side, Insert(sides.Get(o.side), o), b.ids[o.orderId := o]))
  }

  /** `update`. The order object is shared by the id map and the tree, so
      both see the new size. Tree errors are not book errors and propagate. */
  function Update(b: Book, id: OrderId, size: int): (r: Outcome<Book>)
    ensures r.Raise? ==> r.error.OrderDoesNotExist? || r.error in {RuntimeError, KeyError}
  {
    if id !in b.ids then Raise(OrderDoesNotExist("Cannot update non existing order: " + id))
    else
      var o := b.ids[id].(size := size);
      if o.ticker !in b.tickers then Raise(KeyError)
      else
        var sides := b.tickers[o.ticker];
        match TreeUpdate(sides.Get(o.side), o)
        case Ok(t) => Ok(Put(b, o.ticker, o.side, t, b.ids[id := o]))
        case Raise(e) => Raise(e)
  }

  /** `cancel`: the tree removal of the order the id map holds. The id is
      never taken out of the id map. */
  function Cancel(b: Book, id: OrderId): (r: Outcome<Book>)
    ensures r.Raise? ==> r.error.OrderDoesNotExist? || r.error in {RuntimeError, KeyError, AttributeError}
  {
    if id !in b.ids then Raise(OrderDoesNotExist("Cannot cancel non existing order: " + id))
    else
      var o := b.ids[id];
      if o.ticker !in b.tickers then Raise(KeyError)
      else
        var sides := b.tickers[o.ticker];
        match TreeRemove(sides.Get(o.side), o)
        case Ok(t) => Ok(Put(b, o.ticker, o.side, t, b.ids))
        case Raise(e) => Raise(e)
  }

  /** `get_best_ask`: the least ask price, 0 for an unknown ticker. */
  function BestAsk(b: Book, ticker: string): Price {
    if ticker !in b.tickers then 0 else Minimum(b.tickers[ticker].asks)
  }

  /** `get_best_bid`: the greatest bid price, 0 for an unknown ticker. */
  function BestBid(b: Book, ticker: string): Price {
    if ticker !in b.tickers then 0 else Maximum(b.tickers[ticker].bids)
  }

  // ---------------------------------------------------------------------------
  // The abstract view

  /** The price levels of one side of one ticker, in price order; none for an
      unknown ticker. */
  function SideLevels(b: Book, ticker: string, side: Side): seq<PL.Level> {
    if ticker in b.tickers then Levels(b.tickers[ticker].Get(side)) else []
  }

  /** Every order resting in the levels is the id map's order under its id,
      at its own price, ticker and side. */
  ghost predicate Agrees(s: seq<PL.Level>, ids: map<OrderId, Order>, ticker: string, side: Side) {
    forall p, k :: k in PL.OrdersAt(s, p) ==>
      k in ids && PL.OrdersAt(s, p)[k] == ids[k]
      && ids[k].price == p && ids[k].ticker == ticker && ids[k].side == side
  }

  /** The book invariant: every tree is a search tree whose orders agree with
      the id map, and every id names an order of a known ticker. Cancelled
      ids stay in the map, so the map may hold orders no tree holds. */
  ghost predicate Valid(b: Book) {
    (forall k :: k in b.ids ==> b.ids[k].orderId == k && b.ids[k].ticker in b.tickers)
    && (forall ticker, side :: ticker in b.tickers ==>
          SearchTree(b.tickers[ticker].Get(side))
          && Agrees(Levels(b.tickers[ticker].Get(side)), b.ids, ticker, side))
  }

  /** The id names an order still resting in its tree. */
  ghost predicate Live(b: Book, id: OrderId) {
    id in b.ids
    && id in PL.OrdersAt(SideLevels(b, b.ids[id].ticker, b.ids[id].side), b.ids[id].price)
  }

  /** Only the levels of `ticker`'s `side` may differ. */
  ghost predicate OthersUnchanged(b: Book, b': Book, ticker: string, side: Side) {
    forall t, s :: t != ticker || s != side ==> SideLevels(b', t, s) == SideLevels(b, t, s)
  }

  // ---------------------------------------------------------------------------
  // Lemmas: the embedded tree

  /** The embedded removal agrees with the other tree's removal except on a
      single-order node with two children, where it fails. */
  lemma {:induction false} TreeRemoveAgrees(t: Tree, o: Order)
    ensures TreeRemove(t, o) == Raise(AttributeError) <==> SplicesTwoChildren(t, o.price)
    ensures !SplicesTwoChildren(t, o.price) ==> TreeRemove(t, o) == Raised(RemoveOrder(t, o.price, o.orderId))
  {
    if t.Node? && t.price != o.price {
      var sub := if t.price < o.price then t.right else t.left;
      TreeRemoveAgrees(sub, o);
    }
  }

  /** The embedded update is the sorted-list size change. */
  lemma TreeUpdateLevels(t: Tree, o: Order)
    requires SearchTree(t)
    ensures TreeUpdate(t, o) == Raise(RuntimeError) <==> o.price !in PL.Prices(Levels(t))
    ensures TreeUpdate(t, o) == Raise(KeyError)
        <==> o.price in PL.Prices(Levels(t)) && o.orderId !in PL.OrdersAt(Levels(t), o.price)
    ensures TreeUpdate(t, o).Ok? ==>
              PL.SetSize(Levels(t), o.price, o.orderId, o.size) == PL.Edited(Levels(TreeUpdate(t, o).value))
  {
    SetSizeLevels(t, o.price, o.orderId, o.size);
    PL.SetSizeOutcome(Levels(t), o.price, o.orderId, o.size);
  }

  /** The embedded removal is the sorted-list removal when it completes. */
  lemma TreeRemoveLevels(t: Tree, o: Order)
    requires SearchTree(t)
    ensures TreeRemove(t, o) == Raise(RuntimeError) <==> o.price !in PL.Prices(Levels(t))
    ensures TreeRemove(t, o) == Raise(KeyError)
        <==> o.price in PL.Prices(Levels(t)) && |PL.OrdersAt(Levels(t), o.price)| > 1
             && o.orderId !in PL.OrdersAt(Levels(t), o.price)
    ensures TreeRemove(t, o).Ok? ==>
              PL.Remove(Levels(t), o.price, o.orderId) == PL.Edited(Levels(TreeRemove(t, o).value))
  {
    TreeRemoveAgrees(t, o);
    RemoveOrderLevels(t, o.price, o.orderId);
    PL.RemoveOutcome(Levels(t), o.price, o.orderId);
    if SplicesTwoChildren(t, o.price) {
      FindLevel(t, o.price);
    }
  }

  // ---------------------------------------------------------------------------
  // Lemmas: agreement with the id map

  lemma AgreesExtend(s: seq<PL.Level>, ids: map<OrderId, Order>, ticker: string, side: Side, o: Order)
    requires Agrees(s, ids, ticker, side) && o.orderId !in ids
    ensures Agrees(s, ids[o.orderId := o], ticker, side)
  {
  }

  lemma AgreesInsert(s: seq<PL.Level>, ids: map<OrderId, Order>, o: Order)
    requires PL.Ordered(s) && Agrees(s, ids, o.ticker, o.side) && o.orderId !in ids
    ensures Agrees(PL.Insert(s, o), ids[o.orderId := o], o.ticker, o.side)
  {
    forall p, k | k in PL.OrdersAt(PL.Insert(s, o), p)
      ensures var ids' := ids[o.orderId := o];
        k in ids' && PL.OrdersAt(PL.Insert(s, o), p)[k] == ids'[k]
        && ids'[k].price == p && ids'[k].ticker == o.ticker && ids'[k].side == o.side
    {
      PL.InsertContents(s, o, p);
    }
  }

  lemma AgreesResize(s: seq<PL.Level>, ids: map<OrderId, Order>, id: OrderId, size: int)
    requires id in ids && Agrees(s, ids, ids[id].ticker, ids[id].side)
    requires PL.SetSize(s, ids[id].price, id, size).Edited?
    ensures Agrees(PL.SetSize(s, ids[id].price, id, size).value, ids[id := ids[id].(size := size)],
                   ids[id].ticker, ids[id].side)
  {
    var s' := PL.SetSize(s, ids[id].price, id, size).value;
    var ids' := ids[id := ids[id].(size := size)];
    forall p, k | k in PL.OrdersAt(s', p)
      ensures k in ids' && PL.OrdersAt(s', p)[k] == ids'[k]
        && ids'[k].price == p && ids'[k].ticker == ids[id].ticker && ids'[k].side == ids[id].side
    {
      PL.SetSizeContents(s, ids[id].price, id, size, p);
    }
  }

  /** A tree of another ticker or side does not hold the resized order. */
  lemma AgreesResizeElsewhere(s: seq<PL.Level>, ids: map<OrderId, Order>, ticker: string, side: Side,
                              id: OrderId, size: int)
    requires Agrees(s, ids, ticker, side) && id in ids
    requires ids[id].ticker != ticker || ids[id].side != side
    ensures Agrees(s, ids[id := ids[id].(size := size)], ticker, side)
  {
  }

  lemma AgreesRemove(s: seq<PL.Level>, ids: map<OrderId, Order>, ticker: string, side: Side,
                     p: Price, id: OrderId)
    requires PL.Ordered(s) && Agrees(s, ids, ticker, side) && PL.Remove(s, p, id).Edited?
    ensures Agrees(PL.Remove(s, p, id).value, ids, ticker, side)
  {
    var s' := PL.Remove(s, p, id).value;
    forall q, k | k in PL.OrdersAt(s', q)
      ensures k in ids && PL.OrdersAt(s', q)[k] == ids[k]
        && ids[k].price == q && ids[k].ticker == ticker && ids[k].side == side
    {
      PL.RemoveContents(s, p, id, q);
      var before := PL.OrdersAt(s, q);
      if q == p && |PL.OrdersAt(s, p)| > 1 {
        assert PL.OrdersAt(s', q) == before - {id};
      }
      assert k in before && PL.OrdersAt(s', q)[k] == before[k];
      AgreesAt(s, ids, ticker, side, q, k);
    }
  }

  lemma AgreesAt(s: seq<PL.Level>, ids: map<OrderId, Order>, ticker: string, side: Side,
                 q: Price, k: OrderId)
    requires Agrees(s, ids, ticker, side) && k in PL.OrdersAt(s, q)
    ensures k in ids && PL.OrdersAt(s, q)[k] == ids[k]
    ensures ids[k].price == q && ids[k].ticker == ticker && ids[k].side == side
  {
  }

  // ---------------------------------------------------------------------------
  // Lemmas: the book operations

  lemma EmptyValid()
    ensures Valid(Empty)
    ensures forall t, s :: SideLevels(Empty, t, s) == []
  {
  }

  /** `add_order` fails exactly on a zero size or a known id, whatever the
      ticker or side, and then creates nothing; otherwise it inserts the order
      into the levels of its ticker's side, records its id, and keeps the
      invariant. */
  lemma AddOrderSpec(b: Book, o: Order)
    requires Valid(b)
    ensures AddOrder(b, o).Raise? <==> o.size == 0 || o.orderId in b.ids
    ensures o.size == 0 ==> AddOrder(b, o).Raise? && AddOrder(b, o).error.InvalidOrderSizeZero?
    ensures o.size != 0 && o.orderId in b.ids ==>
              AddOrder(b, o).Raise? && AddOrder(b, o).error.DuplicatedOrderId?
    ensures AddOrder(b, o).Ok? ==>
              var b' := AddOrder(b, o).value;
              Valid(b') && b'.ids == b.ids[o.orderId := o]
              && b'.tickers.Keys == b.tickers.Keys + {o.ticker}
              && SideLevels(b', o.ticker, o.side) == PL.Insert(SideLevels(b, o.ticker, o.side), o)
              && OthersUnchanged(b, b', o.ticker, o.side)
  {
    if AddOrder(b, o).Ok? {
      AddOrderOk(b, o);
    }
  }

  lemma AddOrderOk(b: Book, o: Order)
    requires Valid(b) && o.size != 0 && o.orderId !in b.ids
    ensures var b' := AddOrder(b, o).value;
      Valid(b') && b'.ids == b.ids[o.orderId := o]
      && b'.tickers.Keys == b.tickers.Keys + {o.ticker}
      && SideLevels(b', o.ticker, o.side) == PL.Insert(SideLevels(b, o.ticker, o.side), o)
      && OthersUnchanged(b, b', o.ticker, o.side)
  {
    var sides := if o.ticker in b.tickers then b.tickers[o.ticker] else Sides(Leaf, Leaf);
    var t := sides.Get(o.side);
    var t' := Insert(t, o);
    var ids' := b.ids[o.orderId := o];
    var b' := Put(b, o.ticker, o.side, t', ids');
    assert SideLevels(b, o.ticker, o.side) == Levels(t);
    Replaced(b, o.ticker, o.side, t', ids');
    InsertLevels(t, o);
    AgreesInsert(Levels(t), b.ids, o);
    forall tk, sd | tk in b'.tickers
      ensures SearchTree(b'.tickers[tk].Get(sd))
      ensures Agrees(Levels(b'.tickers[tk].Get(sd)), ids', tk, sd)
    {
      if tk != o.ticker || sd != o.side {
        var u := if tk in b.tickers then b.tickers[tk].Get(sd) else Leaf;
        assert b'.tickers[tk].Get(sd) == u;
        AgreesExtend(Levels(u), b.ids, tk, sd, o);
      }
    }
  }

  /** Putting one tree in place of `ticker`'s `side`, creating the ticker
      with two empty trees when it is new. */
  lemma Replaced(b: Book, ticker: string, side: Side, t': Tree, ids': map<OrderId, Order>)
    ensures var b' := Put(b, ticker, side, t', ids');
      SideLevels(b', ticker, side) == Levels(t')
    ensures var b' := Put(b, ticker, side, t', ids');
      OthersUnchanged(b, b', ticker, side)
    ensures var b' := Put(b, ticker, side, t', ids');
      b'.tickers.Keys == b.tickers.Keys + {ticker}
    ensures var b' := Put(b, ticker, side, t', ids');
      forall tk, sd :: tk in b'.tickers && (tk != ticker || sd != side) ==>
           b'.tickers[tk].Get(sd) == if tk in b.tickers then b.tickers[tk].Get(sd) else Leaf
  {
    var sides := if ticker in b.tickers then b.tickers[ticker] else Sides(Leaf, Leaf);
    var b' := Put(b, ticker, side, t', ids');
    forall tk, sd | tk != ticker || sd != side
      ensures SideLevels(b', tk, sd) == SideLevels(b, tk, sd)
    {
      if tk == ticker {
        assert b'.tickers[tk].Get(sd) == sides.Get(sd);
      }
    }
  }

  /** `update` fails with a book error exactly for an unknown id. For an order
      still resting it sets that order's size, in the id map and in its
      level, and changes nothing else; for a cancelled id the tree raises. */
  lemma UpdateSpec(b: Book, id: OrderId, size: int)
    requires Valid(b)
    ensures Update(b, id, size).Raise? && Update(b, id, size).error.IsOrderBookError() <==> id !in b.ids
    ensures id in b.ids ==> (Update(b, id, size).Ok? <==> Live(b, id))
    ensures Live(b, id) ==>
              var o := b.ids[id];
              var b' := Update(b, id, size).value;
              Valid(b') && b'.ids == b.ids[id := o.(size := size)]
              && PL.SetSize(SideLevels(b, o.ticker, o.side), o.price, id, size)
                 == PL.Edited(SideLevels(b', o.ticker, o.side))
              && OthersUnchanged(b, b', o.ticker, o.side)
  {
    if id in b.ids {
      var o := b.ids[id];
      var sides := b.tickers[o.ticker];
      var t := sides.Get(o.side);
      var o' := o.(size := size);
      TreeUpdateLevels(t, o');
      if o.price !in PL.Prices(Levels(t)) {
        PL.AbsentPrice(Levels(t), o.price);
      }
      if Update(b, id, size).Ok? {
        var b' := Update(b, id, size).value;
        var t' := b'.tickers[o.ticker].Get(o.side);
        SetSizeLevels(t, o.price, id, size);
        PL.SetSizeContents(Levels(t), o.price, id, size, o.price);
        PL.SamePricesOrdered(Levels(t), Levels(t'));
        AgreesResize(Levels(t), b.ids, id, size);
        forall tk, sd | tk in b'.tickers
          ensures SearchTree(b'.tickers[tk].Get(sd))
          ensures Agrees(Levels(b'.tickers[tk].Get(sd)), b'.ids, tk, sd)
        {
          if tk != o.ticker || sd != o.side {
            assert b'.tickers[tk].Get(sd) == b.tickers[tk].Get(sd);
            AgreesResizeElsewhere(Levels(b.tickers[tk].Get(sd)), b.ids, tk, sd, id, size);
          }
        }
      }
    }
  }

  /** `cancel` fails with a book error exactly for an unknown id. For a known
      id (resting or already cancelled) it is the tree removal at the price
      the id map holds: RuntimeError when no level has that price, KeyError
      when the level has several orders but not this one, AttributeError when
      the node to splice has two children; otherwise the sorted-list removal,
      with the id map unchanged. */
  lemma CancelSpec(b: Book, id: OrderId)
    requires Valid(b)
    ensures Cancel(b, id).Raise? && Cancel(b, id).error.IsOrderBookError() <==> id !in b.ids
    ensures id in b.ids ==>
              var o := b.ids[id];
              var s := SideLevels(b, o.ticker, o.side);
              (Cancel(b, id) == Raise(RuntimeError) <==> o.price !in PL.Prices(s))
              && (Cancel(b, id) == Raise(KeyError)
                  <==> o.price in PL.Prices(s) && |PL.OrdersAt(s, o.price)| > 1 && id !in PL.OrdersAt(s, o.price))
              && (Cancel(b, id) == Raise(AttributeError)
                  <==> SplicesTwoChildren(b.tickers[o.ticker].Get(o.side), o.price))
    ensures Cancel(b, id).Ok? ==>
              var o := b.ids[id];
              var b' := Cancel(b, id).value;
              Valid(b') && b'.ids == b.ids
              && PL.Remove(SideLevels(b, o.ticker, o.side), o.price, id) == PL.Edited(SideLevels(b', o.ticker, o.side))
              && OthersUnchanged(b, b', o.ticker, o.side)
  {
    if id in b.ids {
      var o := b.ids[id];
      var t := b.tickers[o.ticker].Get(o.side);
      TreeRemoveLevels(t, o);
      TreeRemoveAgrees(t, o);
      if Cancel(b, id).Ok? {
        var t' := TreeRemove(t, o).value;
        assert Cancel(b, id).value == Put(b, o.ticker, o.side, t', b.ids);
        Replaced(b, o.ticker, o.side, t', b.ids);
        PL.RemoveContents(Levels(t), o.price, id, o.price);
        AgreesRemove(Levels(t), b.ids, o.ticker, o.side, o.price, id);
      }
    }
  }

  /** The best ask is the least ask price and the best bid the greatest bid
      price; both are 0 when the side holds nothing. */
  lemma BestPricesSpec(b: Book, ticker: string)
    requires Valid(b)
    ensures SideLevels(b, ticker, Ask) == [] ==> BestAsk(b, ticker) == 0
    ensures SideLevels(b, ticker, Ask) != [] ==>
              BestAsk(b, ticker) in PL.Prices(SideLevels(b, ticker, Ask))
              && forall q :: q in PL.Prices(SideLevels(b, ticker, Ask)) ==> BestAsk(b, ticker) <= q
    ensures SideLevels(b, ticker, Bid) == [] ==> BestBid(b, ticker) == 0
    ensures SideLevels(b, ticker, Bid) != [] ==>
              BestBid(b, ticker) in PL.Prices(SideLevels(b, ticker, Bid))
              && forall q :: q in PL.Prices(SideLevels(b, ticker, Bid)) ==> q <= BestBid(b, ticker)
  {
    if ticker in b.tickers {
      var sides := b.tickers[ticker];
      assert sides.asks == sides.Get(Ask) && sides.bids == sides.Get(Bid);
      MinimumLeast(sides.asks);
      MaximumGreatest(sides.bids);
    }
  }

  // ---------------------------------------------------------------------------
  // Scenarios

  /** Cancelling the only order of a side empties its tree, and the id is
      still known: adding it again is a duplicate. */
  lemma CancelSoleOrder(o: Order, o2: Order)
    requires o.size != 0 && o2.orderId == o.orderId && o2.size != 0
    ensures AddOrder(Empty, o).Ok?
    ensures var b := AddOrder(Empty, o).value;
      Cancel(b, o.orderId).Ok?
      && Cancel(b, o.orderId).value.tickers[o.ticker].Get(o.side) == Leaf
      && AddOrder(Cancel(b, o.orderId).value, o2).Raise?
      && AddOrder(Cancel(b, o.orderId).value, o2).error.DuplicatedOrderId?
  {
    var b := AddOrder(Empty, o).value;
    assert b.tickers[o.ticker].Get(o.side) == Node(Red, Leaf, o.price, map[o.orderId := o], Leaf);
  }

  /** A cancelled id still names its order, so cancelling it again removes
      whatever single order now rests at that price, here another client's. */
  lemma StaleCancelRemovesAnotherOrder()
    ensures var o1 := Order("first", "1", "T", 10, 5, Bid);
      var o2 := Order("second", "2", "T", 10, 7, Bid);
      var b1 := AddOrder(Empty, o1).value;
      var b2 := Cancel(b1, "first").value;
      var b3 := AddOrder(b2, o2).value;
      AddOrder(Empty, o1).Ok? && Cancel(b1, "first").Ok? && AddOrder(b2, o2).Ok?
      && BestBid(b3, "T") == 10
      && Cancel(b3, "first").Ok?
      && Cancel(b3, "first").value.tickers["T"].bids == Leaf
      && "second" in Cancel(b3, "first").value.ids
  {
    var o1 := Order("first", "1", "T", 10, 5, Bid);
    var o2 := Order("second", "2", "T", 10, 7, Bid);
    var b1 := AddOrder(Empty, o1).value;
    assert b1.tickers["T"].bids == Node(Red, Leaf, 10, map["first" := o1], Leaf);
    var b2 := Cancel(b1, "first").value;
    assert b2.tickers["T"].bids == Leaf;
    var b3 := AddOrder(b2, o2).value;
    assert b3.tickers["T"].bids == Node(Red, Leaf, 10, map["second" := o2], Leaf);
  }
}
