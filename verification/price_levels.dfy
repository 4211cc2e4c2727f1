/** The sorted-list model of a price index.

    A price index, read in order, is a sequence of price levels, one per price
    that has resting orders, each holding the orders at that price keyed by id.
    This module states the three edits the trees perform (add an order, remove
    an order, change an order's size) directly on that sequence, by a linear
    scan that knows nothing about trees or colours. The tree modules prove that
    their operations produce exactly these sequences. */
module PriceLevels {
  import opened Orders

  datatype Level = Level(price: Price, orders: OrderMap)

  /** Result of editing the level at one price: the new sequence, or the
      reason there was nothing to edit. */
  datatype Edit<+T> = Edited(value: T) | NoLevel | NoOrder

  /** Prices strictly increase along the sequence. */
  ghost predicate Ordered(s: seq<Level>) {
    forall i, j :: 0 <= i < j < |s| ==> s[i].price < s[j].price
  }

  function Prices(s: seq<Level>): set<Price> {
    if |s| == 0 then {} else {s[0].price} + Prices(s[1..])
  }

  /** The orders of the first level at price `p`, or none. */
  function OrdersAt(s: seq<Level>, p: Price): OrderMap {
    if |s| == 0 then map[]
    else if s[0].price == p then s[0].orders
    else OrdersAt(s[1..], p)
  }

  /** Add `o` to the level at its price, creating the level in price order
      when there is none. */
  function Insert(s: seq<Level>, o: Order): seq<Level> {
    if |s| == 0 then [Level(o.price, map[o.orderId := o])]
    else if o.price < s[0].price then [Level(o.price, map[o.orderId := o])] + s
    else if o.price == s[0].price then [Level(o.price, s[0].orders[o.orderId := o])] + s[1..]
    else [s[0]] + Insert(s[1..], o)
  }

  /** Remove order `id` at price `p`: a level holding more than one order
      loses just that id, and a level holding at most one order is dropped
      whatever id it holds. */
  function Remove(s: seq<Level>, p: Price, id: OrderId): Edit<seq<Level>> {
    if |s| == 0 then NoLevel
    else if s[0].price == p then
      if |s[0].orders| > 1 then
        if id in s[0].orders then Edited([Level(p, s[0].orders - {id})] + s[1..]) else NoOrder
      else Edited(s[1..])
    else
      match Remove(s[1..], p, id)
      case Edited(rest) => Edited([s[0]] + rest)
      case NoLevel => NoLevel
      case NoOrder => NoOrder
  }

  /** Set the size of order `id` at price `p`. */
  function SetSize(s: seq<Level>, p: Price, id: OrderId, size: int): Edit<seq<Level>> {
    if |s| == 0 then NoLevel
    else if s[0].price == p then
      if id in s[0].orders then
        Edited([Level(p, s[0].orders[id := s[0].orders[id].(size := size)])] + s[1..])
      else NoOrder
    else
      match SetSize(s[1..], p, id, size)
      case Edited(rest) => Edited([s[0]] + rest)
      case NoLevel => NoLevel
      case NoOrder => NoOrder
  }

  function Resized(m: OrderMap, id: OrderId, size: int): OrderMap
    requires id in m
  {
    m[id := m[id].(size := size)]
  }

  // ---------------------------------------------------------------------------
  // Facts about prices and ordering

  lemma {:induction false} PriceIn(s: seq<Level>, i: int)
    requires 0 <= i < |s|
    ensures s[i].price in Prices(s)
  {
    if i > 0 {
      PriceIn(s[1..], i - 1);
    }
  }

  lemma {:induction false} PriceIndex(s: seq<Level>, q: Price) returns (i: int)
    requires q in Prices(s)
    ensures 0 <= i < |s| && s[i].price == q
  {
    if s[0].price == q {
      i := 0;
    } else {
      var j := PriceIndex(s[1..], q);
      i := j + 1;
    }
  }

  /** In an ordered sequence the head is below every later price. */
  lemma OrderedTail(s: seq<Level>)
    requires Ordered(s) && |s| > 0
    ensures Ordered(s[1..])
    ensures forall q :: q in Prices(s[1..]) ==> s[0].price < q
  {
    forall q | q in Prices(s[1..])
      ensures s[0].price < q
    {
      var i := PriceIndex(s[1..], q);
      assert s[i + 1] == s[1..][i];
    }
  }

  lemma OrderedCons(x: Level, s: seq<Level>)
    requires Ordered(s)
    requires forall q :: q in Prices(s) ==> x.price < q
    ensures Ordered([x] + s)
  {
    forall i, j | 0 <= i < j < |[x] + s|
      ensures ([x] + s)[i].price < ([x] + s)[j].price
    {
      if i == 0 {
        PriceIn(s, j - 1);
      }
    }
  }

  lemma {:induction false} AbsentPrice(s: seq<Level>, p: Price)
    requires p !in Prices(s)
    ensures OrdersAt(s, p) == map[]
  {
    if |s| > 0 {
      AbsentPrice(s[1..], p);
    }
  }

  /** The head of an ordered sequence is its least price. */
  lemma HeadIsLeast(s: seq<Level>)
    requires Ordered(s) && |s| > 0
    ensures forall q :: q in Prices(s) ==> s[0].price <= q
  {
    forall q | q in Prices(s)
      ensures s[0].price <= q
    {
      var i := PriceIndex(s, q);
      assert i == 0 || s[0].price < s[i].price;
    }
  }

  // ---------------------------------------------------------------------------
  // Insert

  /** Insert keeps the sequence ordered and adds exactly the order's price. */
  lemma {:induction false} InsertOrdered(s: seq<Level>, o: Order)
    requires Ordered(s)
    ensures Ordered(Insert(s, o))
    ensures Prices(Insert(s, o)) == Prices(s) + {o.price}
  {
    if |s| == 0 {
    } else if o.price < s[0].price {
      var x := Level(o.price, map[o.orderId := o]);
      HeadIsLeast(s);
      OrderedCons(x, s);
      assert ([x] + s)[1..] == s;
    } else if o.price == s[0].price {
      OrderedTail(s);
      var x := Level(o.price, s[0].orders[o.orderId := o]);
      OrderedCons(x, s[1..]);
      assert ([x] + s[1..])[1..] == s[1..];
    } else {
      OrderedTail(s);
      InsertOrdered(s[1..], o);
      var r := Insert(s[1..], o);
      OrderedCons(s[0], r);
      assert ([s[0]] + r)[1..] == r;
    }
  }

  /** Insert adds the order to the level at its price and changes no other level. */
  lemma {:induction false} InsertContents(s: seq<Level>, o: Order, p: Price)
    requires Ordered(s)
    ensures OrdersAt(Insert(s, o), p)
         == if p == o.price then OrdersAt(s, p)[o.orderId := o] else OrdersAt(s, p)
  {
    if |s| == 0 {
    } else if o.price < s[0].price {
      var x := Level(o.price, map[o.orderId := o]);
      assert ([x] + s)[1..] == s;
      if p == o.price {
        HeadIsLeast(s);
        AbsentPrice(s, p);
      }
    } else if o.price == s[0].price {
      var x := Level(o.price, s[0].orders[o.orderId := o]);
      assert ([x] + s[1..])[1..] == s[1..];
    } else {
      OrderedTail(s);
      InsertContents(s[1..], o, p);
      assert ([s[0]] + Insert(s[1..], o))[1..] == Insert(s[1..], o);
    }
  }

  // ---------------------------------------------------------------------------
  // Remove

  /** Remove fails with NoLevel exactly when no level has the price, and with
      NoOrder exactly when that level holds several orders but not `id`. */
  lemma {:induction false} RemoveOutcome(s: seq<Level>, p: Price, id: OrderId)
    ensures Remove(s, p, id).NoLevel? <==> p !in Prices(s)
    ensures Remove(s, p, id).NoOrder?
        <==> p in Prices(s) && |OrdersAt(s, p)| > 1 && id !in OrdersAt(s, p)
  {
    if |s| > 0 && s[0].price != p {
      RemoveOutcome(s[1..], p, id);
    }
  }

  /** A successful Remove keeps the order, and touches only the level at `p`:
      it loses `id` when it held several orders and disappears otherwise. */
  lemma {:induction false} RemoveContents(s: seq<Level>, p: Price, id: OrderId, q: Price)
    requires Ordered(s)
    requires Remove(s, p, id).Edited?
    ensures Ordered(Remove(s, p, id).value)
    ensures Prices(Remove(s, p, id).value)
         == if |OrdersAt(s, p)| > 1 then Prices(s) else Prices(s) - {p}
    ensures OrdersAt(Remove(s, p, id).value, q)
         == if q != p then OrdersAt(s, q)
            else if |OrdersAt(s, p)| > 1 then OrdersAt(s, p) - {id}
            else map[]
    decreases |s|, 1
  {
    if s[0].price == p {
      RemoveContentsFront(s, id, q);
    } else {
      RemoveContentsStep(s, p, id, q);
    }
  }

  /** RemoveContents when the first level has the price. */
  lemma RemoveContentsFront(s: seq<Level>, id: OrderId, q: Price)
    requires Ordered(s) && |s| > 0
    requires Remove(s, s[0].price, id).Edited?
    ensures Ordered(Remove(s, s[0].price, id).value)
    ensures Prices(Remove(s, s[0].price, id).value)
         == if |OrdersAt(s, s[0].price)| > 1 then Prices(s) else Prices(s) - {s[0].price}
    ensures OrdersAt(Remove(s, s[0].price, id).value, q)
         == if q != s[0].price then OrdersAt(s, q)
            else if |OrdersAt(s, s[0].price)| > 1 then OrdersAt(s, s[0].price) - {id}
            else map[]
  {
    var p := s[0].price;
    OrderedTail(s);
    assert p !in Prices(s[1..]);
    AbsentPrice(s[1..], p);
    if |s[0].orders| > 1 {
      var x := Level(p, s[0].orders - {id});
      OrderedCons(x, s[1..]);
      assert ([x] + s[1..])[1..] == s[1..];
    }
  }

  /** RemoveContents past a first level of another price: the tail's case,
      with the first level put back in front. */
  lemma {:induction false} RemoveContentsStep(s: seq<Level>, p: Price, id: OrderId, q: Price)
    requires Ordered(s) && |s| > 0 && s[0].price != p
    requires Remove(s, p, id).Edited?
    ensures Ordered(Remove(s, p, id).value)
    ensures Prices(Remove(s, p, id).value)
         == if |OrdersAt(s, p)| > 1 then Prices(s) else Prices(s) - {p}
    ensures OrdersAt(Remove(s, p, id).value, q)
         == if q != p then OrdersAt(s, q)
            else if |OrdersAt(s, p)| > 1 then OrdersAt(s, p) - {id}
            else map[]
    decreases |s|, 0
  {
    OrderedTail(s);
    RemoveContents(s[1..], p, id, q);
    var rest := Remove(s[1..], p, id).value;
    assert Remove(s, p, id) == Edited([s[0]] + rest);
    assert OrdersAt(s, p) == OrdersAt(s[1..], p);
    assert Prices(rest) <= Prices(s[1..]);
    OrderedCons(s[0], rest);
    StepPrices(s[0], s[1..], rest, p);
    StepOrdersAt(s[0], s[1..], rest, q);
    assert [s[0]] + s[1..] == s;
  }

  lemma StepPrices(x: Level, r: seq<Level>, r': seq<Level>, p: Price)
    requires x.price != p
    requires Prices(r') == if |OrdersAt(r, p)| > 1 then Prices(r) else Prices(r) - {p}
    ensures Prices([x] + r') == if |OrdersAt(r, p)| > 1 then Prices([x] + r) else Prices([x] + r) - {p}
  {
    ConsViews(x, r, p);
    ConsViews(x, r', p);
  }

  lemma StepOrdersAt(x: Level, r: seq<Level>, r': seq<Level>, q: Price)
    ensures OrdersAt([x] + r', q) == if q == x.price then x.orders else OrdersAt(r', q)
    ensures OrdersAt([x] + r, q) == if q == x.price then x.orders else OrdersAt(r, q)
  {
    ConsViews(x, r, q);
    ConsViews(x, r', q);
  }

  /** The prices and the orders at `q` of a sequence with one more level in front. */
  lemma ConsViews(x: Level, r: seq<Level>, q: Price)
    ensures Prices([x] + r) == {x.price} + Prices(r)
    ensures OrdersAt([x] + r, q) == if q == x.price then x.orders else OrdersAt(r, q)
  {
    assert ([x] + r)[0] == x && ([x] + r)[1..] == r;
  }

  // ---------------------------------------------------------------------------
  // SetSize

  /** SetSize fails with NoLevel exactly when no level has the price, and with
      NoOrder exactly when that level does not hold `id`. */
  lemma {:induction false} SetSizeOutcome(s: seq<Level>, p: Price, id: OrderId, size: int)
    ensures SetSize(s, p, id, size).NoLevel? <==> p !in Prices(s)
    ensures SetSize(s, p, id, size).NoOrder? <==> p in Prices(s) && id !in OrdersAt(s, p)
  {
    if |s| > 0 && s[0].price != p {
      SetSizeOutcome(s[1..], p, id, size);
    }
  }

  /** A successful SetSize keeps every price where it was and changes only the
      size of order `id` at price `p`. */
  lemma {:induction false} SetSizeContents(s: seq<Level>, p: Price, id: OrderId, size: int, q: Price)
    requires SetSize(s, p, id, size).Edited?
    ensures |SetSize(s, p, id, size).value| == |s|
    ensures forall i :: 0 <= i < |s| ==> SetSize(s, p, id, size).value[i].price == s[i].price
    ensures id in OrdersAt(s, p)
    ensures OrdersAt(SetSize(s, p, id, size).value, q)
         == if q == p then Resized(OrdersAt(s, p), id, size) else OrdersAt(s, q)
  {
    if s[0].price != p {
      SetSizeContents(s[1..], p, id, size, q);
      var rest := SetSize(s[1..], p, id, size).value;
      assert ([s[0]] + rest)[1..] == rest;
      forall i | 0 < i < |s|
        ensures ([s[0]] + rest)[i].price == s[i].price
      {
        assert ([s[0]] + rest)[i] == rest[i - 1];
      }
    } else {
      var x := Level(p, Resized(s[0].orders, id, size));
      assert ([x] + s[1..])[1..] == s[1..];
    }
  }

  // ---------------------------------------------------------------------------
  // Splitting a sequence around one level (how a tree node sees it)

  lemma {:induction false} PricesAppend(a: seq<Level>, b: seq<Level>)
    ensures Prices(a + b) == Prices(a) + Prices(b)
  {
    if |a| > 0 {
      PricesAppend(a[1..], b);
      assert (a + b)[1..] == a[1..] + b;
    } else {
      assert a + b == b;
    }
  }

  /** An ordered sequence split at a level: both sides are ordered and lie
      strictly below and above that level's price. */
  lemma OrderedSplit(a: seq<Level>, x: Level, b: seq<Level>)
    requires Ordered(a + [x] + b)
    ensures Ordered(a) && Ordered(b)
    ensures forall q :: q in Prices(a) ==> q < x.price
    ensures forall q :: q in Prices(b) ==> x.price < q
  {
    var s := a + [x] + b;
    assert s[|a|] == x;
    forall i, j | 0 <= i < j < |a|
      ensures a[i].price < a[j].price
    {
      assert a[i] == s[i] && a[j] == s[j];
    }
    forall i, j | 0 <= i < j < |b|
      ensures b[i].price < b[j].price
    {
      assert b[i] == s[|a| + 1 + i] && b[j] == s[|a| + 1 + j];
    }
    forall q | q in Prices(a)
      ensures q < x.price
    {
      var i := PriceIndex(a, q);
      assert a[i] == s[i];
    }
    forall q | q in Prices(b)
      ensures x.price < q
    {
      var i := PriceIndex(b, q);
      assert b[i] == s[|a| + 1 + i];
    }
  }

  /** The converse of OrderedSplit. */
  lemma OrderedJoin(a: seq<Level>, x: Level, b: seq<Level>)
    requires Ordered(a) && Ordered(b)
    requires forall q :: q in Prices(a) ==> q < x.price
    requires forall q :: q in Prices(b) ==> x.price < q
    ensures Ordered(a + [x] + b)
  {
    var s := a + [x] + b;
    forall i | 0 <= i < |a|
      ensures a[i].price < x.price
    {
      PriceIn(a, i);
    }
    forall i | 0 <= i < |b|
      ensures x.price < b[i].price
    {
      PriceIn(b, i);
    }
    forall i, j | 0 <= i < j < |s|
      ensures s[i].price < s[j].price
    {
      if j < |a| {
        assert s[i] == a[i] && s[j] == a[j];
      } else if i < |a| && j == |a| {
        assert s[i] == a[i];
      } else if i < |a| {
        assert s[i] == a[i] && s[j] == b[j - |a| - 1];
      } else if i == |a| {
        assert s[j] == b[j - |a| - 1];
      } else {
        assert s[i] == b[i - |a| - 1] && s[j] == b[j - |a| - 1];
      }
    }
  }

  lemma {:induction false} OrdersAtAppend(a: seq<Level>, b: seq<Level>, p: Price)
    ensures OrdersAt(a + b, p) == if p in Prices(a) then OrdersAt(a, p) else OrdersAt(b, p)
  {
    if |a| == 0 {
      assert a + b == b;
    } else {
      assert (a + b)[1..] == a[1..] + b;
      if a[0].price != p {
        OrdersAtAppend(a[1..], b, p);
      }
    }
  }

  /** Edits below a level that has a larger price than the order's do not
      reach past it. */
  lemma {:induction false} InsertAppendLeft(a: seq<Level>, b: seq<Level>, o: Order)
    requires |b| > 0 && o.price < b[0].price
    ensures Insert(a + b, o) == Insert(a, o) + b
  {
    if |a| == 0 {
      assert a + b == b;
    } else {
      assert (a + b)[1..] == a[1..] + b;
      if o.price > a[0].price {
        InsertAppendLeft(a[1..], b, o);
      }
    }
  }

  /** Levels all below the order's price are passed over unchanged. */
  lemma {:induction false} InsertAppendRight(a: seq<Level>, b: seq<Level>, o: Order)
    requires forall q :: q in Prices(a) ==> q < o.price
    ensures Insert(a + b, o) == a + Insert(b, o)
  {
    if |a| == 0 {
      assert a + b == b;
    } else {
      PriceIn(a, 0);
      assert (a + b)[1..] == a[1..] + b;
      InsertAppendRight(a[1..], b, o);
    }
  }

  /** `e` with the levels `a` put in front of its sequence. */
  function PrependEdit(a: seq<Level>, e: Edit<seq<Level>>): Edit<seq<Level>> {
    match e
    case Edited(s) => Edited(a + s)
    case NoLevel => NoLevel
    case NoOrder => NoOrder
  }

  /** `e` with the levels `b` put after its sequence. */
  function AppendEdit(e: Edit<seq<Level>>, b: seq<Level>): Edit<seq<Level>> {
    match e
    case Edited(s) => Edited(s + b)
    case NoLevel => NoLevel
    case NoOrder => NoOrder
  }

  lemma {:induction false} RemoveAppendRight(a: seq<Level>, b: seq<Level>, p: Price, id: OrderId)
    requires p !in Prices(a)
    ensures Remove(a + b, p, id) == PrependEdit(a, Remove(b, p, id))
  {
    if |a| == 0 {
      assert a + b == b;
      match Remove(b, p, id)
      case Edited(r) =>
        assert a + r == r;
      case NoLevel =>
      case NoOrder =>
    } else {
      assert (a + b)[1..] == a[1..] + b;
      RemoveAppendRight(a[1..], b, p, id);
      match Remove(b, p, id)
      case Edited(r) =>
        assert [a[0]] + (a[1..] + r) == a + r;
      case NoLevel =>
      case NoOrder =>
    }
  }

  lemma {:induction false} RemoveAppendLeft(a: seq<Level>, b: seq<Level>, p: Price, id: OrderId)
    requires p !in Prices(b)
    ensures Remove(a + b, p, id) == AppendEdit(Remove(a, p, id), b)
  {
    if |a| == 0 {
      assert a + b == b;
      RemoveOutcome(b, p, id);
    } else {
      assert (a + b)[1..] == a[1..] + b;
      if a[0].price == p {
        if |a[0].orders| > 1 && id in a[0].orders {
          assert [Level(p, a[0].orders - {id})] + (a + b)[1..]
              == ([Level(p, a[0].orders - {id})] + a[1..]) + b;
        }
      } else {
        RemoveAppendLeft(a[1..], b, p, id);
        match Remove(a[1..], p, id)
        case Edited(r) =>
          assert [a[0]] + (r + b) == ([a[0]] + r) + b;
        case NoLevel =>
        case NoOrder =>
      }
    }
  }

  lemma {:induction false} SetSizeAppendRight(a: seq<Level>, b: seq<Level>, p: Price, id: OrderId, size: int)
    requires p !in Prices(a)
    ensures SetSize(a + b, p, id, size) == PrependEdit(a, SetSize(b, p, id, size))
  {
    if |a| == 0 {
      assert a + b == b;
      match SetSize(b, p, id, size)
      case Edited(r) =>
        assert a + r == r;
      case NoLevel =>
      case NoOrder =>
    } else {
      assert (a + b)[1..] == a[1..] + b;
      SetSizeAppendRight(a[1..], b, p, id, size);
      match SetSize(b, p, id, size)
      case Edited(r) =>
        assert [a[0]] + (a[1..] + r) == a + r;
      case NoLevel =>
      case NoOrder =>
    }
  }

  lemma {:induction false} SetSizeAppendLeft(a: seq<Level>, b: seq<Level>, p: Price, id: OrderId, size: int)
    requires p !in Prices(b)
    ensures SetSize(a + b, p, id, size) == AppendEdit(SetSize(a, p, id, size), b)
  {
    if |a| == 0 {
      assert a + b == b;
      SetSizeOutcome(b, p, id, size);
    } else {
      assert (a + b)[1..] == a[1..] + b;
      if a[0].price == p {
        if id in a[0].orders {
          var x := Level(p, Resized(a[0].orders, id, size));
          assert [x] + (a + b)[1..] == ([x] + a[1..]) + b;
        }
      } else {
        SetSizeAppendLeft(a[1..], b, p, id, size);
        match SetSize(a[1..], p, id, size)
        case Edited(r) =>
          assert [a[0]] + (r + b) == ([a[0]] + r) + b;
        case NoLevel =>
        case NoOrder =>
      }
    }
  }

  /** In an ordered sequence, the level right after `x` holds the next larger
      price, and there is none when `x` is last. */
  lemma NextAbove(a: seq<Level>, x: Level, b: seq<Level>)
    requires Ordered(a + [x] + b)
    ensures |b| > 0 ==> b[0].price in Prices(a + [x] + b) && x.price < b[0].price
    ensures |b| > 0 ==> forall q :: q in Prices(a + [x] + b) && x.price < q ==> b[0].price <= q
    ensures |b| == 0 ==> forall q :: q in Prices(a + [x] + b) ==> q <= x.price
  {
    var s := a + [x] + b;
    assert s[|a|] == x;
    if |b| > 0 {
      assert s[|a| + 1] == b[0];
      PriceIn(s, |a| + 1);
    }
    forall q | q in Prices(s)
      ensures q <= x.price || (|b| > 0 && b[0].price <= q)
    {
      var i := PriceIndex(s, q);
      if i > |a| + 1 {
        assert s[|a| + 1].price < s[i].price;
      }
    }
  }

  /** The mirror image of NextAbove: the level right before `x` holds the
      next smaller price. */
  lemma PrevBelow(a: seq<Level>, x: Level, b: seq<Level>)
    requires Ordered(a + [x] + b)
    ensures |a| > 0 ==> a[|a| - 1].price in Prices(a + [x] + b) && a[|a| - 1].price < x.price
    ensures |a| > 0 ==> forall q :: q in Prices(a + [x] + b) && q < x.price ==> q <= a[|a| - 1].price
    ensures |a| == 0 ==> forall q :: q in Prices(a + [x] + b) ==> x.price <= q
  {
    var s := a + [x] + b;
    assert s[|a|] == x;
    if |a| > 0 {
      assert s[|a| - 1] == a[|a| - 1];
      PriceIn(s, |a| - 1);
    }
    forall q | q in Prices(s)
      ensures x.price <= q || (|a| > 0 && q <= a[|a| - 1].price)
    {
      var i := PriceIndex(s, q);
      if i < |a| - 1 {
        assert s[i].price < s[|a| - 1].price;
      }
    }
  }

  /** A price of the middle part of an ordered sequence occurs nowhere else. */
  lemma OrderedMiddle(a: seq<Level>, m: seq<Level>, b: seq<Level>, p: Price)
    requires Ordered(a + m + b) && p in Prices(m)
    ensures Ordered(m) && p !in Prices(a) && p !in Prices(b)
  {
    var s := a + m + b;
    var k := PriceIndex(m, p);
    assert s[|a| + k] == m[k];
    forall i, j | 0 <= i < j < |m|
      ensures m[i].price < m[j].price
    {
      assert s[|a| + i] == m[i] && s[|a| + j] == m[j];
    }
    forall q | q in Prices(a)
      ensures q < p
    {
      var i := PriceIndex(a, q);
      assert s[i] == a[i];
    }
    forall q | q in Prices(b)
      ensures p < q
    {
      var j := PriceIndex(b, q);
      assert s[|a| + |m| + j] == b[j];
    }
  }

  /** The orders of a price found only in the middle part. */
  lemma OrdersAtMiddle(a: seq<Level>, m: seq<Level>, b: seq<Level>, p: Price)
    requires p !in Prices(a) && p in Prices(m)
    ensures OrdersAt(a + m + b, p) == OrdersAt(m, p)
  {
    assert a + m + b == a + (m + b);
    OrdersAtAppend(a, m + b, p);
    OrdersAtAppend(m, b, p);
  }

  /** A size change at a price found only in the middle part edits that part. */
  lemma SetSizeMiddle(a: seq<Level>, m: seq<Level>, b: seq<Level>, p: Price, id: OrderId, size: int, m': seq<Level>)
    requires p !in Prices(a) && p !in Prices(b)
    requires SetSize(m, p, id, size) == Edited(m')
    ensures SetSize(a + m + b, p, id, size) == Edited(a + m' + b)
  {
    assert a + m + b == a + (m + b);
    assert a + m' + b == a + (m' + b);
    SetSizeAppendRight(a, m + b, p, id, size);
    SetSizeAppendLeft(m, b, p, id, size);
  }

  /** A removal at a price found only in the middle part edits that part. */
  lemma RemoveMiddle(a: seq<Level>, m: seq<Level>, b: seq<Level>, p: Price, id: OrderId, m': seq<Level>)
    requires p !in Prices(a) && p !in Prices(b)
    requires Remove(m, p, id) == Edited(m')
    ensures Remove(a + m + b, p, id) == Edited(a + m' + b)
  {
    assert a + m + b == a + (m + b);
    assert a + m' + b == a + (m' + b);
    RemoveAppendRight(a, m + b, p, id);
    RemoveAppendLeft(m, b, p, id);
  }

  /** Same prices at the same positions: order is kept. */
  lemma SamePricesOrdered(s: seq<Level>, r: seq<Level>)
    requires Ordered(s) && |r| == |s|
    requires forall i :: 0 <= i < |s| ==> r[i].price == s[i].price
    ensures Ordered(r)
  {
  }
}
