/** The second red-black tree, `red_black_tree_2.py`, written after the
    textbook (CLRS) procedures: RB-INSERT with RB-INSERT-FIXUP, RB-DELETE with
    RB-DELETE-FIXUP, and successor and predecessor by parent links.

    Parent links are modelled by a zipper: a position in the tree is the
    subtree there plus the list of frames on the way down from the root, the
    innermost frame last. A frame records the direction taken, the node it was
    taken from (colour, price, orders) and that node's other child. Walking up
    to `x.parent` is dropping the last frame. */
module ClrsTree {
  import opened Orders
  import PL = PriceLevels
  import opened RB = RedBlackTree

  // ---------------------------------------------------------------------------
  // Positions

  datatype Frame = Frame(dir: Dir, color: Color, price: Price, orders: OrderMap, sibling: Tree)

  /** The node a frame was taken from, with `sub` back in the child slot. */
  function Plug(fr: Frame, sub: Tree): (n: Tree)
    ensures n.Node? && n.color == fr.color && n.price == fr.price && n.orders == fr.orders
    ensures Child(n, fr.dir) == sub && Child(n, Flip(fr.dir)) == fr.sibling
  {
    if fr.dir == Left then Node(fr.color, sub, fr.price, fr.orders, fr.sibling)
    else Node(fr.color, fr.sibling, fr.price, fr.orders, sub)
  }

  /** The whole tree, rebuilt from the subtree `f` at the end of `path`. */
  function Zip(f: Tree, path: seq<Frame>): Tree
    decreases |path|
  {
    if |path| == 0 then f
    else Zip(Plug(path[|path| - 1], f), path[..|path| - 1])
  }

  function FrameLevel(fr: Frame): PL.Level {
    PL.Level(fr.price, fr.orders)
  }

  /** The levels that come before the subtree at the end of `path`. */
  function LeftPart(path: seq<Frame>): seq<PL.Level>
    decreases |path|
  {
    if |path| == 0 then []
    else
      var fr := path[|path| - 1];
      LeftPart(path[..|path| - 1])
      + (if fr.dir == Right then Levels(fr.sibling) + [FrameLevel(fr)] else [])
  }

  /** The levels that come after the subtree at the end of `path`. */
  function RightPart(path: seq<Frame>): seq<PL.Level>
    decreases |path|
  {
    if |path| == 0 then []
    else
      var fr := path[|path| - 1];
      (if fr.dir == Left then [FrameLevel(fr)] + Levels(fr.sibling) else [])
      + RightPart(path[..|path| - 1])
  }

  // ---------------------------------------------------------------------------
  // Search, update, minimum and maximum

  /** `search_tree_helper`: exact equality first, then left on smaller prices. */
  function Search(t: Tree, p: Price): (n: Tree)
    ensures n.Node? ==> n.price == p
  {
    match t
    case Leaf => Leaf
    case Node(_, l, q, _, r) =>
      if p == q then t else if p < q then Search(l, p) else Search(r, p)
  }

  /** The descent of `search_tree_helper`, keeping the path: the position of
      the node it returns (or of the empty slot where it stops). */
  function Locate(t: Tree, p: Price, path: seq<Frame>): (res: (seq<Frame>, Tree))
    ensures Zip(res.1, res.0) == Zip(t, path)
    ensures res.1 == Search(t, p)
  {
    match t
    case Leaf => (path, t)
    case Node(c, l, q, os, r) =>
      if p == q then (path, t)
      else if p < q then Locate(l, p, path + [Frame(Left, c, q, os, r)])
      else Locate(r, p, path + [Frame(Right, c, q, os, l)])
  }

  /** `update`: RuntimeError when no node has the price, KeyError when the node
      lacks the id, otherwise that order's size is set in place. */
  function Update(t: Tree, o: Order): (r: Outcome<Tree>)
    ensures r.Raise? ==> r.error == RuntimeError || r.error == KeyError
  {
    var (path, n) := Locate(t, o.price, []);
    if n.Leaf? then Raise(RuntimeError)
    else if o.orderId !in n.orders then Raise(KeyError)
    else Ok(Zip(n.(orders := PL.Resized(n.orders, o.orderId, o.size)), path))
  }

  /** `successor(x)` for the node `x` at the end of `path`: the leftmost node of
      its right subtree, else the first ancestor reached from the left. The
      result is the price of that node. */
  function Successor(path: seq<Frame>, x: Tree): Option<Price>
    requires x.Node?
  {
    if x.right.Node? then Some(Minimum(x.right)) else ClimbFromRight(path)
  }

  function ClimbFromRight(path: seq<Frame>): Option<Price>
    decreases |path|
  {
    if |path| == 0 then None
    else if path[|path| - 1].dir == Right then ClimbFromRight(path[..|path| - 1])
    else Some(path[|path| - 1].price)
  }

  /** `predecessor(x)`: the mirror image of Successor. */
  function Predecessor(path: seq<Frame>, x: Tree): Option<Price>
    requires x.Node?
  {
    if x.left.Node? then Some(Maximum(x.left)) else ClimbFromLeft(path)
  }

  function ClimbFromLeft(path: seq<Frame>): Option<Price>
    decreases |path|
  {
    if |path| == 0 then None
    else if path[|path| - 1].dir == Left then ClimbFromLeft(path[..|path| - 1])
    else Some(path[|path| - 1].price)
  }

  // ---------------------------------------------------------------------------
  // Insertion

  /** `insert`. A new price under the root, or an existing price, returns
      before `fix_insert` (the root keeps its colour). Otherwise the fix-up
      loop runs and ends by blackening the root, except that a red root with a
      red child reached by the loop makes `k.parent.parent.right` fail on None. */
  function Insert(t: Tree, o: Order): (r: Outcome<Tree>)
    ensures r.Raise? ==> r.error == AttributeError
    ensures r.Ok? ==> r.value.Node?
  {
    if t.Leaf? then Ok(Node(Black, Leaf, o.price, map[o.orderId := o], Leaf))
    else
      var (t', st) := Ins(t, o);
      var side := if o.price < t.price then Left else Right;
      if Search(t, o.price).Node? || Child(t, side).Leaf? then Ok(t')
      else if st.RedRedBelow? then Raise(AttributeError)
      else Ok(Blacken(t'))
  }

  // ---------------------------------------------------------------------------
  // Deletion

  /** The descent of `delete_node_helper`: it goes right on `<=` and keeps the
      last node whose price is equal, so the position is that of the deepest
      match on the path. */
  function Descend(t: Tree, p: Price, path: seq<Frame>): (res: Option<(seq<Frame>, Tree)>)
    ensures res.Some? ==> res.value.1.Node? && res.value.1.price == p
    ensures res.Some? ==> Zip(res.value.1, res.value.0) == Zip(t, path)
  {
    match t
    case Leaf => None
    case Node(c, l, q, os, r) =>
      if q <= p then
        match Descend(r, p, path + [Frame(Right, c, q, os, l)])
        case Some(found) => Some(found)
        case None => if q == p then Some((path, t)) else None
      else Descend(l, p, path + [Frame(Left, c, q, os, r)])
  }

  /** The position of the leftmost node of `t`, `minimum(t)`. */
  function MinPath(t: Tree, path: seq<Frame>): (res: (seq<Frame>, Tree))
    requires t.Node?
    ensures res.1.Node? && res.1.left.Leaf?
    ensures Zip(res.1, res.0) == Zip(t, path)
    ensures |res.0| >= |path| && res.0[..|path|] == path
    ensures forall i :: |path| <= i < |res.0| ==> res.0[i].dir == Left
  {
    if t.left.Leaf? then (path, t)
    else MinPath(t.left, path + [Frame(Left, t.color, t.price, t.orders, t.right)])
  }

  /** Case 1 of `delete_fix`: a red sibling is rotated above the parent, which
      turns red; the sibling's near child becomes the new sibling. Other
      siblings leave the position as it is. */
  function RotateSibling(up: seq<Frame>, fr: Frame): (res: (seq<Frame>, Frame))
    requires fr.sibling.Node?
    ensures fr.sibling.color == Red ==> |res.0| == |up| + 1 && res.1.color == Red
    ensures fr.sibling.color == Black ==> res == (up, fr)
    ensures res.1.dir == fr.dir
  {
    var s := fr.sibling;
    if s.color == Red then
      (up + [Frame(fr.dir, Black, s.price, s.orders, Child(s, Flip(fr.dir)))],
       Frame(fr.dir, Red, fr.price, fr.orders, Child(s, fr.dir)))
    else (up, fr)
  }

  /** `delete_fix` for the non-None node `x` at the end of `path`. While `x` is
      a black non-root: a red sibling is rotated above the parent first
      (case 1); two black nephews recolour the sibling and move up (case 2);
      otherwise one or two rotations end the loop at the root (cases 3, 4).
      Finally `x` is blackened. A None sibling or nephew is dereferenced
      without a check: AttributeError. */
  function DeleteFix(path: seq<Frame>, x: Tree): (r: Outcome<Tree>)
    requires x.Node?
    ensures r.Raise? ==> r.error == AttributeError
    decreases 2 * |path| + (if x.color == Black then 1 else 0)
  {
    if |path| == 0 || x.color == Red then Ok(Zip(x.(color := Black), path))
    else
      var fr := path[|path| - 1];
      var up := path[..|path| - 1];
      if fr.sibling.Leaf? then Raise(AttributeError)
      else
        var (up', fr') := RotateSibling(up, fr);
        var s := fr'.sibling;
        if s.Leaf? || s.left.Leaf? || s.right.Leaf? then Raise(AttributeError)
        else if s.left.color == Black && s.right.color == Black then
          // case 2
          DeleteFix(up', Plug(fr'.(sibling := s.(color := Red)), x))
        else
          Ok(Blacken(Zip(RotateAtParent(fr', x), up')))
  }

  /** Cases 3 and 4 of `delete_fix` at the parent of `x` (frame `fr`), whose
      sibling has two children and a red nephew: make the far nephew red by a
      rotation at the sibling if needed, then rotate at the parent. */
  function RotateAtParent(fr: Frame, x: Tree): (r: Tree)
    requires fr.sibling.Node? && fr.sibling.left.Node? && fr.sibling.right.Node?
    ensures r.Node? && Levels(r) == Levels(Plug(fr, x))
  {
    var s := fr.sibling;
    var d := fr.dir;
    // case 3: the far nephew is black, so the near one is red
    var s' :=
      if Child(s, Flip(d)).color == Black then
        if d == Left then RotateRight(s.(color := Red, left := s.left.(color := Black))).value
        else RotateLeft(s.(color := Red, right := s.right.(color := Black))).value
      else s;
    assert Levels(s') == Levels(s);
    // case 4
    var s'' := if d == Left then s'.(color := fr.color, right := Blacken(s'.right))
               else s'.(color := fr.color, left := Blacken(s'.left));
    assert Levels(s'') == Levels(s');
    var p := Plug(fr.(color := Black, sibling := s''), x);
    assert Levels(p) == Levels(Plug(fr, x));
    if d == Left then RotateLeft(p).value else RotateRight(p).value
  }

  /** `delete` (through `delete_node_helper`). An absent price changes nothing
      and raises nothing; the source only prints a line. A node with several orders loses `id` (KeyError if
      it lacks it). Otherwise the node is spliced out: a missing child lets the
      other child take its place; two children bring up the successor `y` with
      the node's colour. When the spliced node (or `y`) was black, `delete_fix`
      is called on the node that moved into its place; when that is None, the
      loop guard and the final `if x is not None` make the call a no-op, so
      `DeleteFix` runs only from a node. */
  function Delete(t: Tree, o: Order): (r: Outcome<Tree>)
    ensures r.Raise? ==> r.error == KeyError || r.error == AttributeError
  {
    match Descend(t, o.price, [])
    case None => Ok(t)
    case Some((path, z)) =>
      if |z.orders| > 1 then
        if o.orderId in z.orders then Ok(Zip(z.(orders := z.orders - {o.orderId}), path))
        else Raise(KeyError)
      else if z.left.Leaf? || z.right.Leaf? then
        var x := if z.left.Leaf? then z.right else z.left;
        if z.color == Black && x.Node? then DeleteFix(path, x) else Ok(Zip(x, path))
      else
        var (frames, y) := MinPath(z.right, []);
        var x := y.right;
        var xpath := path + [Frame(Right, z.color, y.price, y.orders, z.left)] + frames;
        if y.color == Black && x.Node? then DeleteFix(xpath, x) else Ok(Zip(x, xpath))
  }

  // ---------------------------------------------------------------------------
  // Lemmas: positions

  /** The levels of a rebuilt tree: before, the subtree's own, after. */
  lemma {:induction false} ZipLevels(f: Tree, path: seq<Frame>)
    ensures Levels(Zip(f, path)) == LeftPart(path) + Levels(f) + RightPart(path)
    decreases |path|
  {
    if |path| > 0 {
      var fr := path[|path| - 1];
      var up := path[..|path| - 1];
      ZipLevels(Plug(fr, f), up);
    }
  }

  lemma {:induction false} ZipAppend(f: Tree, a: seq<Frame>, b: seq<Frame>)
    ensures Zip(f, a + b) == Zip(Zip(f, b), a)
    decreases |b|
  {
    if |b| == 0 {
      assert a + b == a;
    } else {
      assert (a + b)[..|a + b| - 1] == a + b[..|b| - 1];
      ZipAppend(Plug(b[|b| - 1], f), a, b[..|b| - 1]);
    }
  }

  /** Replacing a subtree by one with the same levels keeps the whole tree's levels. */
  lemma ZipSameLevels(f: Tree, g: Tree, path: seq<Frame>)
    requires Levels(f) == Levels(g)
    ensures Levels(Zip(f, path)) == Levels(Zip(g, path))
  {
    ZipLevels(f, path);
    ZipLevels(g, path);
  }

  lemma {:induction false} ClimbFromRightHead(path: seq<Frame>)
    ensures ClimbFromRight(path).None? <==> |RightPart(path)| == 0
    ensures ClimbFromRight(path).Some? ==> ClimbFromRight(path).value == RightPart(path)[0].price
    decreases |path|
  {
    if |path| > 0 {
      ClimbFromRightHead(path[..|path| - 1]);
    }
  }

  lemma {:induction false} ClimbFromLeftLast(path: seq<Frame>)
    ensures ClimbFromLeft(path).None? <==> |LeftPart(path)| == 0
    ensures ClimbFromLeft(path).Some? ==>
              ClimbFromLeft(path).value == LeftPart(path)[|LeftPart(path)| - 1].price
    decreases |path|
  {
    if |path| > 0 {
      ClimbFromLeftLast(path[..|path| - 1]);
    }
  }

  // ---------------------------------------------------------------------------
  // Lemmas: search, update, successor, predecessor

  /** Same answer as `find` of the other tree: the two descents agree. */
  lemma {:induction false} SearchIsFind(t: Tree, p: Price)
    ensures Search(t, p) == Find(t, p)
  {
    if t.Node? && t.price != p {
      SearchIsFind(t.left, p);
      SearchIsFind(t.right, p);
    }
  }

  /** `search_tree_helper` returns a node exactly when the price is present, and
      that node holds the price's orders. */
  lemma SearchSpec(t: Tree, p: Price)
    requires SearchTree(t)
    ensures Search(t, p).Node? <==> p in PL.Prices(Levels(t))
    ensures Search(t, p).Node? ==> Search(t, p).orders == PL.OrdersAt(Levels(t), p)
  {
    SearchIsFind(t, p);
    FindLevel(t, p);
  }

  /** Editing the level at the node of a position is editing that level in the
      whole sequence. */
  lemma FocusLevel(path: seq<Frame>, n: Tree)
    requires n.Node? && SearchTree(Zip(n, path))
    ensures Levels(Zip(n, path)) == LeftPart(path) + Levels(n) + RightPart(path)
    ensures SearchTree(n)
    ensures n.price !in PL.Prices(LeftPart(path)) && n.price !in PL.Prices(RightPart(path))
    ensures PL.OrdersAt(Levels(Zip(n, path)), n.price) == n.orders
  {
    ZipLevels(n, path);
    var a, m, b := LeftPart(path), Levels(n), RightPart(path);
    NodePrices(n);
    PL.OrderedMiddle(a, m, b, n.price);
    OrdersAtHere(n);
    PL.OrdersAtMiddle(a, m, b, n.price);
  }

  /** `update` fails with RuntimeError exactly when the price is absent and with
      KeyError exactly when its node lacks the id; otherwise it is the
      sorted-list size change. */
  lemma UpdateSpec(t: Tree, o: Order)
    requires SearchTree(t)
    ensures Update(t, o) == Raise(RuntimeError) <==> o.price !in PL.Prices(Levels(t))
    ensures Update(t, o) == Raise(KeyError)
        <==> o.price in PL.Prices(Levels(t)) && o.orderId !in PL.OrdersAt(Levels(t), o.price)
    ensures Update(t, o).Ok? ==>
              PL.SetSize(Levels(t), o.price, o.orderId, o.size) == PL.Edited(Levels(Update(t, o).value))
  {
    SearchSpec(t, o.price);
    var (path, n) := Locate(t, o.price, []);
    if n.Node? {
      FocusLevel(path, n);
      if o.orderId in n.orders {
        var n' := n.(orders := PL.Resized(n.orders, o.orderId, o.size));
        UpdateAtFocus(path, n, n', o);
      }
    }
  }

  lemma UpdateAtFocus(path: seq<Frame>, n: Tree, n': Tree, o: Order)
    requires n.Node? && SearchTree(Zip(n, path)) && n.price == o.price && o.orderId in n.orders
    requires n' == n.(orders := PL.Resized(n.orders, o.orderId, o.size))
    ensures PL.SetSize(Levels(Zip(n, path)), o.price, o.orderId, o.size) == PL.Edited(Levels(Zip(n', path)))
  {
    FocusLevel(path, n);
    ZipLevels(n', path);
    SetSizeStepHere(n, o.orderId, o.size);
    assert SetSize(n, n.price, o.orderId, o.size) == PL.Edited(n');
    PL.SetSizeMiddle(LeftPart(path), Levels(n), RightPart(path), o.price, o.orderId, o.size, Levels(n'));
  }

  /** `successor` returns the next larger price of the tree, or None when `x`
      holds the largest. */
  lemma SuccessorIsNext(path: seq<Frame>, x: Tree)
    requires x.Node? && SearchTree(Zip(x, path))
    ensures Successor(path, x).None? <==> forall q :: q in PL.Prices(Levels(Zip(x, path))) ==> q <= x.price
    ensures Successor(path, x).Some? ==>
              var q := Successor(path, x).value;
              q in PL.Prices(Levels(Zip(x, path))) && x.price < q
              && forall r :: r in PL.Prices(Levels(Zip(x, path))) && x.price < r ==> q <= r
  {
    ZipLevels(x, path);
    var a := LeftPart(path) + Levels(x.left);
    var b := Levels(x.right) + RightPart(path);
    var xl := PL.Level(x.price, x.orders);
    assert Levels(Zip(x, path)) == a + [xl] + b;
    if x.right.Node? {
      MinimumFirst(x.right);
      assert |Levels(x.right)| > 0;
      assert b[0] == Levels(x.right)[0];
    } else {
      assert b == RightPart(path);
      ClimbFromRightHead(path);
    }
    NextOf(Levels(Zip(x, path)), a, xl, b, Successor(path, x));
  }

  /** The price after `x` in an ordered sequence is its next larger price. */
  lemma NextOf(s: seq<PL.Level>, a: seq<PL.Level>, x: PL.Level, b: seq<PL.Level>, next: Option<Price>)
    requires PL.Ordered(s) && s == a + [x] + b
    requires next.None? <==> |b| == 0
    requires next.Some? ==> |b| > 0 && next.value == b[0].price
    ensures next.None? <==> forall q :: q in PL.Prices(s) ==> q <= x.price
    ensures next.Some? ==>
              next.value in PL.Prices(s) && x.price < next.value
              && forall r :: r in PL.Prices(s) && x.price < r ==> next.value <= r
  {
    PL.NextAbove(a, x, b);
    if |b| > 0 {
      assert b[0].price in PL.Prices(s) && x.price < b[0].price;
    }
  }

  /** `predecessor` returns the next smaller price of the tree, or None when
      `x` holds the smallest. */
  lemma PredecessorIsPrev(path: seq<Frame>, x: Tree)
    requires x.Node? && SearchTree(Zip(x, path))
    ensures Predecessor(path, x).None? <==> forall q :: q in PL.Prices(Levels(Zip(x, path))) ==> x.price <= q
    ensures Predecessor(path, x).Some? ==>
              var q := Predecessor(path, x).value;
              q in PL.Prices(Levels(Zip(x, path))) && q < x.price
              && forall r :: r in PL.Prices(Levels(Zip(x, path))) && r < x.price ==> r <= q
  {
    ZipLevels(x, path);
    var a := LeftPart(path) + Levels(x.left);
    var b := Levels(x.right) + RightPart(path);
    var xl := PL.Level(x.price, x.orders);
    assert Levels(Zip(x, path)) == a + [xl] + b;
    if x.left.Node? {
      MaximumLast(x.left);
      assert |Levels(x.left)| > 0;
      assert a[|a| - 1] == Levels(x.left)[|Levels(x.left)| - 1];
    } else {
      ClimbFromLeftLast(path);
      assert a == LeftPart(path);
    }
    PrevOf(Levels(Zip(x, path)), a, xl, b, Predecessor(path, x));
  }

  /** The price before `x` in an ordered sequence is its next smaller price. */
  lemma PrevOf(s: seq<PL.Level>, a: seq<PL.Level>, x: PL.Level, b: seq<PL.Level>, prev: Option<Price>)
    requires PL.Ordered(s) && s == a + [x] + b
    requires prev.None? <==> |a| == 0
    requires prev.Some? ==> |a| > 0 && prev.value == a[|a| - 1].price
    ensures prev.None? <==> forall q :: q in PL.Prices(s) ==> x.price <= q
    ensures prev.Some? ==>
              prev.value in PL.Prices(s) && prev.value < x.price
              && forall r :: r in PL.Prices(s) && r < x.price ==> r <= prev.value
  {
    PL.PrevBelow(a, x, b);
    if |a| > 0 {
      assert a[|a| - 1].price in PL.Prices(s) && a[|a| - 1].price < x.price;
    }
  }

  // ---------------------------------------------------------------------------
  // Lemmas: insertion

  /** When the descent meets the price, the loop returns at once: the orders
      are merged and no link or colour changes. */
  lemma {:induction false} InsFound(t: Tree, o: Order)
    requires Search(t, o.price).Node?
    ensures Ins(t, o).1 == Settled
    ensures Skeleton(Ins(t, o).0) == Skeleton(t)
  {
    if o.price < t.price {
      InsFound(t.left, o);
    } else if o.price > t.price {
      InsFound(t.right, o);
    }
  }

  /** Insertion produces the levels of the sorted-list insertion. */
  lemma InsertLevels(t: Tree, o: Order)
    requires SearchTree(t)
    ensures Insert(t, o).Ok? ==> Levels(Insert(t, o).value) == PL.Insert(Levels(t), o)
    ensures Insert(t, o).Ok? ==> SearchTree(Insert(t, o).value)
  {
    InsLevels(t, o);
    PL.InsertOrdered(Levels(t), o);
  }

  /** An existing price changes no link or colour. */
  lemma InsertExisting(t: Tree, o: Order)
    requires Search(t, o.price).Node?
    ensures Insert(t, o).Ok?
    ensures Skeleton(Insert(t, o).value) == Skeleton(t)
  {
    InsFound(t, o);
  }

  /** On a red-black tree with a black root (or an empty one), insertion always
      completes and gives a red-black tree with a black root. */
  lemma InsertRedBlack(t: Tree, o: Order)
    requires RedBlack(t) && !IsRed(t)
    ensures Insert(t, o).Ok?
    ensures RedBlack(Insert(t, o).value) && !IsRed(Insert(t, o).value)
  {
    if t.Node? {
      InsRedBlack(t, o);
      var side := if o.price < t.price then Left else Right;
      if Search(t, o.price).Node? {
        InsFound(t, o);
      } else if Child(t, side).Leaf? {
        assert Ins(Child(t, side), o).1 == RedTop;
      }
    }
  }

  // ---------------------------------------------------------------------------
  // Lemmas: deletion

  /** Without an order on prices, the descent finds a price exactly when some
      node on the path has it; with it, exactly when the tree has it. */
  lemma {:induction false} DescendFinds(t: Tree, p: Price, path: seq<Frame>)
    requires SearchTree(t)
    ensures Descend(t, p, path).Some? <==> p in PL.Prices(Levels(t))
  {
    if t.Node? {
      NodeOrder(t);
      NodePrices(t);
      if t.price <= p {
        DescendFinds(t.right, p, path + [Frame(Right, t.color, t.price, t.orders, t.left)]);
      } else {
        DescendFinds(t.left, p, path + [Frame(Left, t.color, t.price, t.orders, t.right)]);
      }
    }
  }

  /** Every frame of a leftward descent is to the left: nothing comes before. */
  lemma {:induction false} LeftFramesNoLeftPart(path: seq<Frame>)
    requires forall i :: 0 <= i < |path| ==> path[i].dir == Left
    ensures LeftPart(path) == []
    decreases |path|
  {
    if |path| > 0 {
      LeftFramesNoLeftPart(path[..|path| - 1]);
    }
  }

  /** The successor splice: `y`, the leftmost node of `r`, comes first, then
      the levels of `r` once `y` is replaced by `y.right`. */
  lemma MinPathSplice(r: Tree)
    requires r.Node?
    ensures var (frames, y) := MinPath(r, []);
      Levels(r) == [PL.Level(y.price, y.orders)] + Levels(Zip(y.right, frames))
  {
    var res := MinPath(r, []);
    assert Zip(r, []) == r;
    LeftFramesNoLeftPart(res.0);
    SpliceFirst(r, res.1, res.0);
  }

  /** A leftmost node reached by left turns only comes first. */
  lemma SpliceFirst(r: Tree, y: Tree, frames: seq<Frame>)
    requires y.Node? && y.left.Leaf? && LeftPart(frames) == [] && Zip(y, frames) == r
    ensures Levels(r) == [PL.Level(y.price, y.orders)] + Levels(Zip(y.right, frames))
  {
    var x, rest, after := PL.Level(y.price, y.orders), Levels(y.right), RightPart(frames);
    ZipLevels(y, frames);
    assert Levels(y) == [x] + rest;
    assert Levels(r) == [x] + rest + after;
    ZipLevels(y.right, frames);
    assert Levels(Zip(y.right, frames)) == rest + after;
    Assoc([x], rest, after);
  }

  /** `delete_fix` only recolours and rotates: the levels do not change. */
  lemma {:induction false} DeleteFixLevels(path: seq<Frame>, x: Tree)
    requires x.Node?
    ensures DeleteFix(path, x).Ok? ==> Levels(DeleteFix(path, x).value) == Levels(Zip(x, path))
    decreases 2 * |path| + (if x.color == Black then 1 else 0)
  {
    if |path| == 0 || x.color == Red {
      ZipSameLevels(x.(color := Black), x, path);
    } else {
      var fr := path[|path| - 1];
      var up := path[..|path| - 1];
      assert path == up + [fr];
      if fr.sibling.Node? {
        var (up', fr') := RotateSibling(up, fr);
        SiblingRotationLevels(up, fr, x);
        var s := fr'.sibling;
        if !(s.Leaf? || s.left.Leaf? || s.right.Leaf?) {
          if s.left.color == Black && s.right.color == Black {
            var x' := Plug(fr'.(sibling := s.(color := Red)), x);
            DeleteFixLevels(up', x');
            ZipSameLevels(x', Plug(fr', x), up');
          } else {
            ZipSameLevels(RotateAtParent(fr', x), Plug(fr', x), up');
          }
        }
      }
    }
  }

  lemma OneFrame(f: Tree, fr: Frame)
    ensures Zip(f, [fr]) == Plug(fr, f)
  {
    assert [fr][..0] == [];
  }

  /** Case 1 of `delete_fix` keeps the levels. */
  lemma SiblingRotationLevels(up: seq<Frame>, fr: Frame, x: Tree)
    requires fr.sibling.Node?
    ensures var (up', fr') := RotateSibling(up, fr);
      Levels(Zip(Plug(fr', x), up')) == Levels(Zip(x, up + [fr]))
  {
    var s := fr.sibling;
    ZipAppend(x, up, [fr]);
    OneFrame(x, fr);
    if s.color == Red {
      var (up', fr') := RotateSibling(up, fr);
      var top := up'[|up'| - 1];
      assert up' == up + [top];
      ZipAppend(Plug(fr', x), up, [top]);
      OneFrame(Plug(fr', x), top);
      RotationKeepsLevels(fr, x);
      ZipSameLevels(Plug(top, Plug(fr', x)), Plug(fr, x), up);
    }
  }

  /** The rotation of case 1 at one node keeps its levels. */
  lemma RotationKeepsLevels(fr: Frame, x: Tree)
    requires fr.sibling.Node?
    ensures var s := fr.sibling;
      var top := Frame(fr.dir, Black, s.price, s.orders, Child(s, Flip(fr.dir)));
      var fr' := Frame(fr.dir, Red, fr.price, fr.orders, Child(s, fr.dir));
      Levels(Plug(top, Plug(fr', x))) == Levels(Plug(fr, x))
  {
    var s := fr.sibling;
    var X, S := FrameLevel(fr), PL.Level(s.price, s.orders);
    var a, b, c := Levels(x), Levels(s.left), Levels(s.right);
    assert Levels(s) == b + [S] + c;
    if fr.dir == Left {
      Regroup5(a, [X], b, [S], c);
    } else {
      Regroup5(b, [S], c, [X], a);
    }
  }

  lemma Regroup5(a: seq<PL.Level>, x: seq<PL.Level>, b: seq<PL.Level>, y: seq<PL.Level>, c: seq<PL.Level>)
    ensures (a + x + b) + y + c == a + x + (b + y + c)
  {
  }

  /** The tree once the node at `path` is spliced out: what `delete` builds
      before `delete_fix`, with the same levels as the other tree's Unlink. */
  lemma SpliceLevels(path: seq<Frame>, z: Tree)
    requires z.Node? && z.left.Node? && z.right.Node?
    ensures var (frames, y) := MinPath(z.right, []);
      var xpath := path + [Frame(Right, z.color, y.price, y.orders, z.left)] + frames;
      Levels(Zip(y.right, xpath)) == Levels(Zip(Unlink(z), path))
  {
    var (frames, y) := MinPath(z.right, []);
    var ytop := Frame(Right, z.color, y.price, y.orders, z.left);
    MinPathSplice(z.right);
    ZipAppend(y.right, path + [ytop], frames);
    ZipAppend(Zip(y.right, frames), path, [ytop]);
    OneFrame(Zip(y.right, frames), ytop);
    var n := Plug(ytop, Zip(y.right, frames));
    assert Levels(n) == Levels(Unlink(z));
    ZipSameLevels(n, Unlink(z), path);
  }

  /** `delete` of a present price is the sorted-list removal (when it does not
      fail) and leaves a search tree; of an absent price it changes nothing; a
      level of several orders without the id gives KeyError. */
  lemma DeleteSpec(t: Tree, o: Order)
    requires SearchTree(t)
    ensures o.price !in PL.Prices(Levels(t)) ==> Delete(t, o) == Ok(t)
    ensures Delete(t, o) == Raise(KeyError)
        <==> o.price in PL.Prices(Levels(t)) && |PL.OrdersAt(Levels(t), o.price)| > 1
             && o.orderId !in PL.OrdersAt(Levels(t), o.price)
    ensures o.price in PL.Prices(Levels(t)) && Delete(t, o).Ok? ==>
              PL.Remove(Levels(t), o.price, o.orderId) == PL.Edited(Levels(Delete(t, o).value))
    ensures Delete(t, o).Ok? ==> SearchTree(Delete(t, o).value)
  {
    DescendFinds(t, o.price, []);
    if Descend(t, o.price, []).Some? {
      var (path, z) := Descend(t, o.price, []).value;
      DeleteAt(t, o, path, z);
      if Delete(t, o).Ok? {
        PL.RemoveContents(Levels(t), o.price, o.orderId, o.price);
      }
    }
  }

  /** DeleteSpec once the descent has found the node `z` at `path`. */
  lemma DeleteAt(t: Tree, o: Order, path: seq<Frame>, z: Tree)
    requires SearchTree(t) && Descend(t, o.price, []) == Some((path, z))
    ensures PL.OrdersAt(Levels(t), o.price) == z.orders
    ensures Delete(t, o) == Raise(KeyError) <==> |z.orders| > 1 && o.orderId !in z.orders
    ensures Delete(t, o).Ok? ==>
              PL.Remove(Levels(t), o.price, o.orderId) == PL.Edited(Levels(Delete(t, o).value))
  {
    DeleteKeyError(t, o, path, z);
    FocusLevel(path, z);
    var e := RemoveOrder(z, o.price, o.orderId);
    RemoveStepHere(z, o.orderId);
    if e.Edited? {
      RemoveAtFocus(path, z, e.value, o);
      if |z.orders| <= 1 && Delete(t, o).Ok? {
        DeleteSpliced(t, o, path, z);
      }
    }
  }

  /** Only a level of several orders that lacks the id gives KeyError; the
      splicing branches can fail only in `delete_fix`, with AttributeError. */
  lemma DeleteKeyError(t: Tree, o: Order, path: seq<Frame>, z: Tree)
    requires Descend(t, o.price, []) == Some((path, z))
    ensures Delete(t, o) == Raise(KeyError) <==> |z.orders| > 1 && o.orderId !in z.orders
  {
    if |z.orders| <= 1 {
      assert Delete(t, o).Ok? || Delete(t, o).error == AttributeError;
    }
  }

  lemma RemoveAtFocus(path: seq<Frame>, z: Tree, z': Tree, o: Order)
    requires z.Node? && SearchTree(Zip(z, path)) && z.price == o.price
    requires RemoveOrder(z, o.price, o.orderId) == PL.Edited(z')
    ensures PL.Remove(Levels(Zip(z, path)), o.price, o.orderId) == PL.Edited(Levels(Zip(z', path)))
  {
    FocusLevel(path, z);
    ZipLevels(z', path);
    RemoveStepHere(z, o.orderId);
    PL.RemoveMiddle(LeftPart(path), Levels(z), RightPart(path), o.price, o.orderId, Levels(z'));
  }

  /** When a single-order node is spliced out, the result has the levels of
      the tree with that node unlinked. */
  lemma DeleteSpliced(t: Tree, o: Order, path: seq<Frame>, z: Tree)
    requires Descend(t, o.price, []) == Some((path, z)) && |z.orders| <= 1
    requires Delete(t, o).Ok?
    ensures Levels(Delete(t, o).value) == Levels(Zip(Unlink(z), path))
  {
    if z.left.Leaf? || z.right.Leaf? {
      var x := if z.left.Leaf? then z.right else z.left;
      assert Levels(x) == Levels(Unlink(z));
      ZipSameLevels(x, Unlink(z), path);
      if z.color == Black && x.Node? {
        DeleteFixLevels(path, x);
      }
    } else {
      var (frames, y) := MinPath(z.right, []);
      var xpath := path + [Frame(Right, z.color, y.price, y.orders, z.left)] + frames;
      SpliceLevels(path, z);
      if y.color == Black && y.right.Node? {
        DeleteFixLevels(xpath, y.right);
      }
    }
  }

  /** `delete_fix` reads the sibling's colour without a None check: a black
      leaf under a black parent with no other child makes `delete` fail after
      it has already unlinked the node. `UncheckedSiblingReachable` reaches the
      same failure from the empty tree. */
  lemma DeleteFixUncheckedSibling()
    ensures var t := Single(Black, Single(Black, Leaf, 5, Single(Black, Leaf, 7, Leaf)), 10, Leaf);
      Delete(t, Sample(5)) == Raise(AttributeError)
  {
    var seven := Single(Black, Leaf, 7, Leaf);
    var five := Single(Black, Leaf, 5, seven);
    var t := Single(Black, five, 10, Leaf);
    var path := [Frame(Left, Black, 10, t.orders, Leaf)];
    assert Descend(seven, 5, path + [Frame(Right, Black, 5, five.orders, Leaf)]) == None;
    assert Descend(five, 5, path) == Some((path, five));
    assert Descend(t, 5, []) == Some((path, five));
  }

  /** An operation of a sample run: insert or delete the order `Sample(p)`. */
  datatype Op = Put(p: Price) | Take(p: Price)

  /** The order of a sample run at price `p`; all share the id `o` and size 1. */
  function Sample(p: Price): Order {
    Order("o", "1", "T", p, 1, Bid)
  }

  /** A node holding just `Sample(p)`. */
  function Single(c: Color, l: Tree, p: Price, r: Tree): Tree {
    Node(c, l, p, map["o" := Sample(p)], r)
  }

  /** The outcome of one operation of a sample run. */
  function Apply(t: Tree, op: Op): Outcome<Tree> {
    match op
    case Put(p) => Insert(t, Sample(p))
    case Take(p) => Delete(t, Sample(p))
  }

  /** The operations applied one after another, stopping at the first error. */
  function Replay(t: Tree, ops: seq<Op>): (r: Outcome<Tree>)
    ensures ops == [] ==> r == Ok(t)
    decreases |ops|
  {
    if ops == [] then Ok(t)
    else
      match Apply(t, ops[0])
      case Ok(t') => Replay(t', ops[1..])
      case Raise(e) => Raise(e)
  }

  /** The trees of the sample run: `Stage(k)` is the tree after its first `k`
      operations. */
  function Stage(k: nat): (t: Tree)
    ensures 4 <= k ==> t.Node? && t.left.Node? && t.right.Node?
    decreases k
  {
    if k == 0 then Leaf
    else if k == 1 then Single(Black, Leaf, 1, Leaf)
    else if k == 2 then Single(Black, Leaf, 1, Single(Red, Leaf, 2, Leaf))
    else if k == 3 then Single(Black, Single(Red, Leaf, 1, Leaf), 2, Single(Red, Leaf, 3, Leaf))
    else if k == 4 then Single(Black, Single(Black, Leaf, 1, Leaf),
                               2, Single(Black, Leaf, 3, Single(Red, Leaf, 4, Leaf)))
    else if k == 5 then Single(Black, Single(Black, Leaf, 1, Leaf),
                               2, Single(Black, Single(Red, Leaf, 3, Leaf),
                                         4, Single(Red, Leaf, 5, Leaf)))
    else if k == 6 then Single(Black, Single(Black, Leaf, 1, Leaf),
                               2, Single(Red, Single(Black, Leaf, 3, Leaf),
                                         4, Single(Black, Leaf, 5, Single(Red, Leaf, 6, Leaf))))
    else if k == 7 then Single(Black, Single(Black, Leaf, 1, Leaf),
                               2, Single(Red, Single(Black, Leaf, 3, Leaf),
                                         4, Single(Black, Single(Red, Leaf, 5, Leaf),
                                                   6, Single(Red, Leaf, 7, Leaf))))
    else if k == 8 then Single(Black, Single(Red, Single(Black, Leaf, 1, Leaf),
                                      2, Single(Black, Leaf, 3, Leaf)),
                               4, Single(Red, Single(Black, Leaf, 5, Leaf),
                                         6, Single(Black, Leaf, 7, Single(Red, Leaf, 8, Leaf))))
    else if k == 9 then Single(Black, Single(Red, Single(Black, Leaf, 1, Leaf),
                                      2, Single(Black, Leaf, 3, Leaf)),
                               4, Single(Red, Single(Black, Leaf, 5, Leaf),
                                         6, Single(Black, Single(Red, Leaf, 7, Leaf),
                                                   8, Single(Red, Leaf, 9, Leaf))))
    else if k == 10 then Single(Black, Single(Black, Single(Black, Leaf, 1, Leaf),
                                       2, Single(Black, Leaf, 3, Leaf)),
                                4, Single(Black, Single(Black, Leaf, 5, Leaf),
                                          6, Single(Red, Single(Black, Leaf, 7, Leaf),
                                                    8, Single(Black, Leaf,
                                                              9, Single(Red, Leaf, 10, Leaf)))))
    // the deletions cut off the leaves 5 and 1
    else if k == 11 then var s := Stage(10); s.(right := s.right.(left := Leaf))
    else var s := Stage(11); s.(left := s.left.(left := Leaf))
  }

  /** The first four insertions of the sample run: a new root, a child of the
      root without fix-up, the rotation at the root for 3 and the recolouring
      for 4. */
  lemma RunInsertsOneToFour()
    ensures Insert(Stage(0), Sample(1)) == Ok(Stage(1))
    ensures Insert(Stage(1), Sample(2)) == Ok(Stage(2))
    ensures Insert(Stage(2), Sample(3)) == Ok(Stage(3))
    ensures Insert(Stage(3), Sample(4)) == Ok(Stage(4))
  {
  }

  /** Insertions 5 and 6: a rotation below the root, then a recolouring. */
  lemma RunInsertsFiveSix()
    ensures Insert(Stage(4), Sample(5)) == Ok(Stage(5))
    ensures Insert(Stage(5), Sample(6)) == Ok(Stage(6))
  {
    var t4, t5 := Stage(4), Stage(5);
    assert Ins(t4.right.right, Sample(5))
        == (Single(Red, Leaf, 4, Single(Red, Leaf, 5, Leaf)), RedRedBelow(Right));
    assert Ins(t4.right, Sample(5)) == (t5.right, Settled);
    assert Ins(t5.right.right, Sample(6))
        == (Single(Red, Leaf, 5, Single(Red, Leaf, 6, Leaf)), RedRedBelow(Right));
    assert Ins(t5.right, Sample(6)) == (Stage(6).right, RedTop);
  }

  /** Insertion 7 rotates below a red node. */
  lemma RunInsertSeven()
    ensures Insert(Stage(6), Sample(7)) == Ok(Stage(7))
  {
    var t := Stage(6);
    assert Ins(t.right.right.right, Sample(7))
        == (Single(Red, Leaf, 6, Single(Red, Leaf, 7, Leaf)), RedRedBelow(Right));
    assert Ins(t.right.right, Sample(7)) == (Stage(7).right.right, Settled);
    assert Ins(t.right, Sample(7)) == (Stage(7).right, Settled);
  }

  /** Insertion 8 recolours and then rotates at the root. */
  lemma RunInsertEight()
    ensures Insert(Stage(7), Sample(8)) == Ok(Stage(8))
  {
    var t, o := Stage(7), Sample(8);
    var six := t.right.right;
    var seven := Single(Red, Leaf, 7, Single(Red, Leaf, 8, Leaf));
    assert Ins(six.right, o) == (seven, RedRedBelow(Right));
    var six' := Single(Red, Single(Black, Leaf, 5, Leaf), 6, seven.(color := Black));
    assert Ins(six, o) == (six', RedTop);
    assert Ins(t.right, o) == (t.right.(right := six'), RedRedBelow(Right));
    assert Ins(t, o) == (Stage(8), Settled);
  }

  /** Insertion 9 rotates below a red node, as 7 did. */
  lemma RunInsertNine()
    ensures Insert(Stage(8), Sample(9)) == Ok(Stage(9))
  {
    var t := Stage(8);
    assert Ins(t.right.right.right, Sample(9))
        == (Single(Red, Leaf, 8, Single(Red, Leaf, 9, Leaf)), RedRedBelow(Right));
    assert Ins(t.right.right, Sample(9)) == (Stage(9).right.right, Settled);
    assert Ins(t.right, Sample(9)) == (Stage(9).right, Settled);
  }

  /** Insertion 10 recolours twice and leaves every node above level 3 black. */
  lemma RunInsertTen()
    ensures Insert(Stage(9), Sample(10)) == Ok(Stage(10))
  {
    var t, t10 := Stage(9), Stage(10);
    assert Ins(t.right.right.right, Sample(10))
        == (Single(Red, Leaf, 9, Single(Red, Leaf, 10, Leaf)), RedRedBelow(Right));
    var eight := t10.right.right;
    assert Ins(t.right.right, Sample(10)) == (eight, RedTop);
    assert Ins(t.right, Sample(10)) == (t10.right.(color := Red), RedRedBelow(Right));
    assert Ins(t, Sample(10)) == (t10.(color := Red), RedTop);
  }

  /** A single-order node without children is simply cut off: `x` is None, so
      no fix-up runs, whatever the node's colour. */
  lemma DeleteLoneLeaf(t: Tree, o: Order, path: seq<Frame>, z: Tree)
    requires Descend(t, o.price, []) == Some((path, z))
    requires |z.orders| == 1 && z.left.Leaf? && z.right.Leaf?
    ensures Delete(t, o) == Ok(Zip(Leaf, path))
  {
  }

  /** A black single-order node whose only child is black, beside a black
      sibling with no child on the near side, makes `delete_fix` read a field
      of None. */
  lemma DeleteBesideLeftlessSibling(t: Tree, o: Order, path: seq<Frame>, z: Tree)
    requires Descend(t, o.price, []) == Some((path, z))
    requires |z.orders| == 1 && z.color == Black && z.left.Leaf? && z.right.Node? && z.right.color == Black
    requires |path| > 0 && path[|path| - 1].dir == Left
    requires path[|path| - 1].sibling.Node? && path[|path| - 1].sibling.color == Black
    requires path[|path| - 1].sibling.left.Leaf?
    ensures Delete(t, o) == Raise(AttributeError)
  {
    var fr := path[|path| - 1];
    assert RotateSibling(path[..|path| - 1], fr) == (path[..|path| - 1], fr);
  }

  /** The descent to a grandchild on sides `d1` then `d2` that holds the price,
      past two nodes that do not. */
  lemma DescendTwo(t: Tree, p: Price, d1: Dir, d2: Dir)
    requires t.Node? && Child(t, d1).Node? && Child(Child(t, d1), d2).Node?
    requires t.price != p && (d1 == Right <==> t.price < p)
    requires Child(t, d1).price != p && (d2 == Right <==> Child(t, d1).price < p)
    requires Child(Child(t, d1), d2).price == p && Child(Child(t, d1), d2).right.Leaf?
    ensures var c := Child(t, d1);
      Descend(t, p, []) == Some(([Frame(d1, t.color, t.price, t.orders, Child(t, Flip(d1))),
                                  Frame(d2, c.color, c.price, c.orders, Child(c, Flip(d2)))],
                                 Child(c, d2)))
  {
    var c := Child(t, d1);
    var a := Frame(d1, t.color, t.price, t.orders, Child(t, Flip(d1)));
    var b := Frame(d2, c.color, c.price, c.orders, Child(c, Flip(d2)));
    assert [] + [a] == [a] && [a] + [b] == [a, b];
    assert Descend(Child(c, d2), p, [a, b]) == Some(([a, b], Child(c, d2)));
  }

  /** Rebuilding through a path of two frames. */
  lemma ZipTwo(f: Tree, a: Frame, b: Frame)
    ensures Zip(f, [a, b]) == Plug(a, Plug(b, f))
  {
    assert [a, b][..1] == [a] && [a][..0] == [];
    assert Zip(Plug(b, f), [a]) == Zip(Plug(a, Plug(b, f)), []);
  }

  /** Deleting a single-order leaf one level down, on side `d`: the leaf is
      cut off and nothing else changes. */
  lemma DeleteChildLeaf(t: Tree, o: Order, d: Dir)
    requires t.Node? && Child(t, d).Node? && t.price != o.price && (d == Right <==> t.price < o.price)
    requires Child(t, d).price == o.price && |Child(t, d).orders| == 1
    requires Child(t, d).left.Leaf? && Child(t, d).right.Leaf?
    ensures Delete(t, o) == Ok(Plug(Frame(d, t.color, t.price, t.orders, Child(t, Flip(d))), Leaf))
  {
    var a := Frame(d, t.color, t.price, t.orders, Child(t, Flip(d)));
    assert [] + [a] == [a];
    assert Descend(Child(t, d), o.price, [a]) == Some(([a], Child(t, d)));
    assert Descend(t, o.price, []) == Some(([a], Child(t, d)));
    DeleteLoneLeaf(t, o, [a], Child(t, d));
    OneFrame(Leaf, a);
  }

  /** Deleting a single-order leaf two levels down, on sides `d1` then `d2`:
      the leaf is cut off and nothing else changes. */
  lemma DeleteGrandchildLeaf(t: Tree, o: Order, d1: Dir, d2: Dir)
    requires t.Node? && Child(t, d1).Node? && Child(Child(t, d1), d2).Node?
    requires t.price != o.price && (d1 == Right <==> t.price < o.price)
    requires Child(t, d1).price != o.price && (d2 == Right <==> Child(t, d1).price < o.price)
    requires Child(Child(t, d1), d2).price == o.price && |Child(Child(t, d1), d2).orders| == 1
    requires Child(Child(t, d1), d2).left.Leaf? && Child(Child(t, d1), d2).right.Leaf?
    ensures var c := Child(t, d1);
      Delete(t, o) == Ok(Plug(Frame(d1, t.color, t.price, t.orders, Child(t, Flip(d1))),
                              Plug(Frame(d2, c.color, c.price, c.orders, Child(c, Flip(d2))), Leaf)))
  {
    var c := Child(t, d1);
    var a := Frame(d1, t.color, t.price, t.orders, Child(t, Flip(d1)));
    var b := Frame(d2, c.color, c.price, c.orders, Child(c, Flip(d2)));
    DescendTwo(t, o.price, d1, d2);
    DeleteLoneLeaf(t, o, [a, b], Child(c, d2));
    ZipTwo(Leaf, a, b);
  }

  /** Deleting 5, a black leaf: right at 4, left at 6; no fix-up runs. */
  lemma RunDeleteFive(k: nat)
    requires k == 10
    ensures Delete(Stage(k), Sample(5)) == Ok(Stage(k + 1))
  {
    var t := Stage(k);
    assert Stage(k + 1) == t.(right := t.right.(left := Leaf));
    DeleteGrandchildLeaf(t, Sample(5), Right, Left);
  }

  /** Deleting 1, a black leaf: left at 4 and at 2; no fix-up runs. */
  lemma RunDeleteOne(k: nat)
    requires k == 11
    ensures Delete(Stage(k), Sample(1)) == Ok(Stage(k + 1))
  {
    var t := Stage(k);
    assert t == Stage(k - 1).(right := Stage(k - 1).right.(left := Leaf));
    assert Stage(k + 1) == t.(left := t.left.(left := Leaf));
    DeleteGrandchildLeaf(t, Sample(1), Left, Left);
  }

  /** Deleting 2, whose only child 3 is black: `delete_fix` runs from 3 and
      reads the left child of its sibling 6, which is None. */
  lemma RunDeleteTwo(k: nat)
    requires k == 12
    ensures Delete(Stage(k), Sample(2)) == Raise(AttributeError)
  {
    var t := Stage(k);
    assert t == Stage(k - 1).(left := Stage(k - 1).left.(left := Leaf));
    assert Stage(k - 1) == Stage(k - 2).(right := Stage(k - 2).right.(left := Leaf));
    var path := [Frame(Left, Black, 4, t.orders, t.right)];
    var z := t.left;
    assert Descend(z.right, 2, path + [Frame(Right, Black, 2, z.orders, z.left)]) == None;
    assert Descend(z, 2, path) == Some((path, z));
    assert Descend(t, 2, []) == Some((path, z));
    DeleteBesideLeftlessSibling(t, Sample(2), path, z);
  }

  /** The operations of the sample run. */
  const SampleRun: seq<Op> := [Put(1), Put(2), Put(3), Put(4), Put(5), Put(6), Put(7), Put(8),
                               Put(9), Put(10), Take(5), Take(1), Take(2)]

  /** Each of the first twelve operations of the sample run moves from one stage
      to the next. */
  lemma RunStep(k: nat)
    requires 1 <= k <= 12
    ensures Apply(Stage(k - 1), SampleRun[k - 1]) == Ok(Stage(k))
  {
    if k <= 4 {
      RunInsertsOneToFour();
    } else if k <= 6 {
      RunInsertsFiveSix();
    } else if k == 7 {
      RunInsertSeven();
    } else if k == 8 {
      RunInsertEight();
    } else if k == 9 {
      RunInsertNine();
    } else if k == 10 {
      RunInsertTen();
    } else if k == 11 {
      RunDeleteFive(10);
    } else {
      RunDeleteOne(11);
    }
  }

  /** One operation of a run that succeeds hands the rest of the run its tree. */
  lemma ReplayStep(t: Tree, ops: seq<Op>, t': Tree)
    requires |ops| > 0 && Apply(t, ops[0]) == Ok(t')
    ensures Replay(t, ops) == Replay(t', ops[1..])
  {
  }

  /** A run whose first `k` operations succeed continues from their tree. */
  lemma {:induction false} ReplayPrefix(t: Tree, ops: seq<Op>, k: nat, t': Tree)
    requires k <= |ops| && Replay(t, ops[..k]) == Ok(t')
    ensures Replay(t, ops) == Replay(t', ops[k..])
    decreases k
  {
    if k > 0 {
      match Apply(t, ops[0])
      case Ok(u) =>
        assert ops[..k][1..] == ops[1..][..k - 1];
        ReplayPrefix(u, ops[1..], k - 1, t');
        assert ops[1..][k - 1..] == ops[k..];
      case Raise(_) =>
    }
  }

  /** The unchecked sibling is reached from an empty tree: inserting the prices
      1 to 10 in order and deleting 5 and 1 (black leaves, whose fix-up runs on
      None and does nothing) leaves a black 2 with one black child beside a black sibling
      with no left child; deleting 2 then fails with AttributeError. */
  lemma UncheckedSiblingReachable()
    ensures Replay(Leaf, SampleRun) == Raise(AttributeError)
  {
    RunPrefix(12);
    RunDeleteTwo(12);
    ReplayPrefix(Leaf, SampleRun, 12, Stage(12));
  }

  /** The first `k` operations of the sample run lead from the empty tree to
      `Stage(k)`. */
  lemma RunPrefix(k: nat)
    requires k <= 12
    ensures Replay(Leaf, SampleRun[..k]) == Ok(Stage(k))
  {
    var i := k;
    while i > 0
      invariant 0 <= i <= k
      invariant Replay(Stage(i), SampleRun[i..k]) == Ok(Stage(k))
    {
      RunStep(i);
      ReplayStep(Stage(i - 1), SampleRun[i - 1..k], Stage(i));
      assert SampleRun[i - 1..k][1..] == SampleRun[i..k];
      i := i - 1;
    }
    assert SampleRun[0..k] == SampleRun[..k];
  }

  /** The tree after the ten insertions keeps the red-black rules. */
  lemma StageTenRedBlack(k: nat)
    requires k == 10
    ensures RedBlack(Stage(k))
  {
    var t := Stage(k);
    assert BlackBalanced(t.left) && BlackHeight(t.left) == 2;
    assert BlackBalanced(t.right.right) && BlackHeight(t.right.right) == 1;
  }

  /** After 5 is cut off, its parent 6 has no black node on the left and one
      on the right. */
  lemma StageElevenUnbalanced(k: nat)
    requires k == 11
    ensures !BlackBalanced(Stage(k))
  {
    var t := Stage(k);
    assert t == Stage(k - 1).(right := Stage(k - 1).right.(left := Leaf));
    assert BlackHeight(t.right.left) == 0 && BlackHeight(t.right.right) == 1;
  }

  /** The lost balance is reached from an empty tree as well: after the ten
      insertions of the sample run the tree is red-black, and deleting the
      black leaf 5 leaves its parent 6 with no black node on the left and one
      on the right. */
  lemma BlackLeafUnbalanceReachable(k: nat)
    requires k == 10
    ensures Replay(Leaf, SampleRun[..k]) == Ok(Stage(k)) && RedBlack(Stage(k))
    ensures Delete(Stage(k), Sample(5)) == Ok(Stage(k + 1)) && !BlackBalanced(Stage(k + 1))
  {
    RunPrefix(k);
    StageTenRedBlack(k);
    RunDeleteFive(k);
    StageElevenUnbalanced(k + 1);
  }

  /** With None for the textbook's sentinel, removing a black leaf leaves `x`
      None, and `delete_fix(None)` stops at its loop guard without repairing
      anything: a red-black tree loses its balance. */
  lemma DeleteBlackLeafUnbalances(five: Tree, fifteen: Tree, t: Tree)
    requires five == Single(Black, Leaf, 5, Leaf) && fifteen == Single(Black, Leaf, 15, Leaf)
    requires t == Single(Black, five, 10, fifteen)
    ensures RedBlack(t) && Delete(t, Sample(5)) == Ok(Single(Black, Leaf, 10, fifteen))
      && !BlackBalanced(Delete(t, Sample(5)).value)
  {
    ThreeBlacksRedBlack(five, fifteen, t);
    DeleteLeftLeaf(five, fifteen, t);
    assert BlackHeight(fifteen) == 1;
  }

  /** Three black nodes, a root and two leaves, keep the red-black rules. */
  lemma ThreeBlacksRedBlack(five: Tree, fifteen: Tree, t: Tree)
    requires five == Single(Black, Leaf, 5, Leaf) && fifteen == Single(Black, Leaf, 15, Leaf)
    requires t == Single(Black, five, 10, fifteen)
    ensures RedBlack(t)
  {
    assert RedBlack(five) && RedBlack(fifteen);
  }

  /** Deleting the left leaf 5 of the three-node tree cuts it off. */
  lemma DeleteLeftLeaf(five: Tree, fifteen: Tree, t: Tree)
    requires five == Single(Black, Leaf, 5, Leaf) && fifteen == Single(Black, Leaf, 15, Leaf)
    requires t == Single(Black, five, 10, fifteen)
    ensures Delete(t, Sample(5)) == Ok(Single(Black, Leaf, 10, fifteen))
  {
    DeleteChildLeaf(t, Sample(5), Left);
  }
}
