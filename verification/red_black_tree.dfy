/** The red-black price tree of `red_black_tree.py`.

    Each node holds one price and the orders resting at that price. The tree is
    an immutable value here: an operation returns the new tree instead of
    relinking nodes, and parent links are not represented (they are implied by
    the position in the value). The insertion fix-up is the bottom-up loop of
    the source, expressed as a recursion that reports to each ancestor what the
    loop would see when it arrives there (see `Pending`). */
module RedBlackTree {
  import opened Orders
  import opened Text
  import PL = PriceLevels

  datatype Color = Red | Black

  datatype Tree =
    | Leaf
    | Node(color: Color, left: Tree, price: Price, orders: OrderMap, right: Tree)

  datatype Dir = Left | Right

  function Flip(d: Dir): Dir {
    if d == Left then Right else Left
  }

  function Child(t: Tree, d: Dir): Tree
    requires t.Node?
  {
    if d == Left then t.left else t.right
  }

  // ---------------------------------------------------------------------------
  // Abstraction and invariants

  /** The price levels of the tree, read in order. */
  function Levels(t: Tree): seq<PL.Level> {
    match t
    case Leaf => []
    case Node(_, l, p, os, r) => Levels(l) + [PL.Level(p, os)] + Levels(r)
  }

  /** Binary-search-tree order: prices strictly increase in order. */
  ghost predicate SearchTree(t: Tree) {
    PL.Ordered(Levels(t))
  }

  predicate IsRed(t: Tree) {
    t.Node? && t.color == Red
  }

  /** No red node has a red child. */
  predicate NoRedRed(t: Tree) {
    match t
    case Leaf => true
    case Node(c, l, _, _, r) =>
      NoRedRed(l) && NoRedRed(r) && (c == Red ==> !IsRed(l) && !IsRed(r))
  }

  /** Black nodes on the leftmost path; equal to every path's count when the
      tree is BlackBalanced. */
  function BlackHeight(t: Tree): nat {
    match t
    case Leaf => 0
    case Node(c, l, _, _, _) => BlackHeight(l) + (if c == Black then 1 else 0)
  }

  /** Every path from a node down to a leaf crosses the same number of black nodes. */
  predicate BlackBalanced(t: Tree) {
    match t
    case Leaf => true
    case Node(_, l, _, _, r) =>
      BlackBalanced(l) && BlackBalanced(r) && BlackHeight(l) == BlackHeight(r)
  }

  /** The red-black rules, without a demand on the root's colour (the source
      can leave a red root). */
  predicate RedBlack(t: Tree) {
    NoRedRed(t) && BlackBalanced(t)
  }

  /** The tree's links and colours, with the orders forgotten. */
  function Skeleton(t: Tree): Tree {
    match t
    case Leaf => Leaf
    case Node(c, l, p, _, r) => Node(c, Skeleton(l), p, map[], Skeleton(r))
  }

  function Blacken(t: Tree): (r: Tree)
    ensures Levels(r) == Levels(t)
    ensures t.Node? ==> r.Node? && r.color == Black
  {
    if t.Node? then t.(color := Black) else t
  }

  // ---------------------------------------------------------------------------
  // Rotations

  /** `__rotate_left`: the right child becomes the subtree root. Raises when
      there is no right child, and `parent.parent` of None is an AttributeError. */
  function RotateLeft(t: Tree): (r: Outcome<Tree>)
    ensures r.Ok? <==> t.Node? && t.right.Node?
    ensures r.Raise? ==> r.error == (if t.Leaf? then AttributeError else RuntimeError)
    ensures r.Ok? ==> Levels(r.value) == Levels(t)
    ensures r.Ok? ==>
              r.value.Node? && r.value.left.Node?
              && r.value.color == t.right.color && r.value.left.color == t.color
  {
    if t.Leaf? then Raise(AttributeError)
    else if t.right.Leaf? then Raise(RuntimeError)
    else
      var x := t.right;
      Ok(Node(x.color, Node(t.color, t.left, t.price, t.orders, x.left), x.price, x.orders, x.right))
  }

  /** `__rotate_right`: the mirror image of RotateLeft. */
  function RotateRight(t: Tree): (r: Outcome<Tree>)
    ensures r.Ok? <==> t.Node? && t.left.Node?
    ensures r.Raise? ==> r.error == (if t.Leaf? then AttributeError else RuntimeError)
    ensures r.Ok? ==> Levels(r.value) == Levels(t)
    ensures r.Ok? ==>
              r.value.Node? && r.value.right.Node?
              && r.value.color == t.left.color && r.value.right.color == t.color
  {
    if t.Leaf? then Raise(AttributeError)
    else if t.left.Leaf? then Raise(RuntimeError)
    else
      var x := t.left;
      Ok(Node(x.color, x.left, x.price, x.orders, Node(t.color, x.right, t.price, t.orders, t.right)))
  }

  // ---------------------------------------------------------------------------
  // Insertion

  /** What the fix-up loop of `insert` sees when it reaches a node, reported by
      the subtree that was changed:
      - Settled: the loop has already returned;
      - RedTop: the changed subtree has a red root that may clash with its parent
        (a fresh node, or a grandparent recoloured red in insertion case 2);
      - RedRedBelow(d): this red subtree root has a red child on side `d`, to be
        repaired by the grandparent one level up. */
  datatype Pending = Settled | RedTop | RedRedBelow(dir: Dir)

  /** Repair at a black-uncle grandparent `g` whose red child on side `d` has
      a red child on side `dd`: insertion case 5 (inner grandchild, rotate the
      parent first) then case 6 (rotate the grandparent, swap colours). */
  function Restructure(g: Tree, d: Dir, dd: Dir): (r: Tree)
    requires g.Node? && Child(g, d).Node? && Child(Child(g, d), dd).Node?
    ensures r.Node? && Levels(r) == Levels(g)
  {
    if d == Left then
      var g' := if dd == Right then g.(left := RotateLeft(g.left).value) else g;
      assert Levels(g') == Levels(g);
      var t := RotateRight(g').value;
      t.(color := Black, right := t.right.(color := Red))
    else
      var g' := if dd == Left then g.(right := RotateRight(g.right).value) else g;
      assert Levels(g') == Levels(g);
      var t := RotateLeft(g').value;
      t.(color := Black, left := t.left.(color := Red))
  }

  /** One step of the fix-up loop at node `n`, whose child on side `d` was
      changed and reported `st`. */
  function FixUp(n: Tree, d: Dir, st: Pending): (res: (Tree, Pending))
    requires n.Node?
    requires st.RedTop? ==> Child(n, d).Node?
    requires st.RedRedBelow? ==> Child(n, d).Node? && Child(Child(n, d), st.dir).Node?
    ensures res.0.Node? && Levels(res.0) == Levels(n)
    ensures res.1.RedRedBelow? ==> Child(res.0, res.1.dir).Node?
  {
    match st
    case Settled => (n, Settled)
    case RedTop =>
      // case 1: black parent; otherwise the parent is red and its child red
      if n.color == Black then (n, Settled) else (n, RedRedBelow(d))
    case RedRedBelow(dd) =>
      if IsRed(Child(n, Flip(d))) then
        // case 2: red uncle, recolour and continue from the grandparent
        (Node(Red, Blacken(n.left), n.price, n.orders, Blacken(n.right)), RedTop)
      else
        (Restructure(n, d, dd), Settled)
  }

  /** The descent of `insert` and the fix-up on the way back: an order at an
      existing price joins that node's orders; otherwise a red node is added
      at a leaf. The second component is what the loop reports above the root. */
  function Ins(t: Tree, o: Order): (res: (Tree, Pending))
    ensures res.0.Node?
    ensures res.1.RedRedBelow? ==> res.0.Node? && Child(res.0, res.1.dir).Node?
  {
    match t
    case Leaf => (Node(Red, Leaf, o.price, map[o.orderId := o], Leaf), RedTop)
    case Node(c, l, p, os, r) =>
      if o.price < p then
        var (l', st) := Ins(l, o);
        FixUp(Node(c, l', p, os, r), Left, st)
      else if o.price > p then
        var (r', st) := Ins(r, o);
        FixUp(Node(c, l, p, os, r'), Right, st)
      else
        (Node(c, l, p, os[o.orderId := o], r), Settled)
  }

  /** `RedBlackTree.insert`: only a red root with a red child is blackened
      (case 4); a red root left by case 2 or 3 stays red. */
  function Insert(t: Tree, o: Order): Tree {
    var (t', st) := Ins(t, o);
    if st.RedRedBelow? then Blacken(t') else t'
  }

  // ---------------------------------------------------------------------------
  // Lookup

  /** `find`: the node with the price, or Leaf for None. */
  function Find(t: Tree, p: Price): (n: Tree)
    ensures n.Node? ==> n.price == p
  {
    match t
    case Leaf => Leaf
    case Node(_, l, q, _, r) =>
      if q == p then t else if q < p then Find(r, p) else Find(l, p)
  }

  /** `get_minimum`: the price of the leftmost node, or 0 for an empty tree. */
  function Minimum(t: Tree): Price {
    match t
    case Leaf => 0
    case Node(_, l, p, _, _) => if l.Leaf? then p else Minimum(l)
  }

  /** `get_maximum`: the price of the rightmost node, or 0 for an empty tree. */
  function Maximum(t: Tree): Price {
    match t
    case Leaf => 0
    case Node(_, _, p, _, r) => if r.Leaf? then p else Maximum(r)
  }

  // ---------------------------------------------------------------------------
  // Editing the orders at a price

  function LevelsOf(e: PL.Edit<Tree>): PL.Edit<seq<PL.Level>> {
    match e
    case Edited(t) => PL.Edited(Levels(t))
    case NoLevel => PL.NoLevel
    case NoOrder => PL.NoOrder
  }

  function WithLeft(n: Tree, e: PL.Edit<Tree>): PL.Edit<Tree>
    requires n.Node?
  {
    match e
    case Edited(l) => PL.Edited(n.(left := l))
    case NoLevel => PL.NoLevel
    case NoOrder => PL.NoOrder
  }

  function WithRight(n: Tree, e: PL.Edit<Tree>): PL.Edit<Tree>
    requires n.Node?
  {
    match e
    case Edited(r) => PL.Edited(n.(right := r))
    case NoLevel => PL.NoLevel
    case NoOrder => PL.NoOrder
  }

  /** The size change of `update` at the node `find` reaches: NoLevel when there
      is none, NoOrder when it lacks the id. */
  function SetSize(t: Tree, p: Price, id: OrderId, size: int): PL.Edit<Tree> {
    match t
    case Leaf => PL.NoLevel
    case Node(c, l, q, os, r) =>
      if q == p then
        if id in os then PL.Edited(Node(c, l, q, PL.Resized(os, id, size), r)) else PL.NoOrder
      else if q < p then WithRight(t, SetSize(r, p, id, size))
      else WithLeft(t, SetSize(l, p, id, size))
  }

  /** The leftmost node's level and the subtree without it: the successor
      `minimal_node(right)` spliced out by `__transplant(minimal, minimal.right)`. */
  function DetachMin(t: Tree): (res: (PL.Level, Tree))
    requires t.Node?
    ensures [res.0] + Levels(res.1) == Levels(t)
  {
    if t.left.Leaf? then (PL.Level(t.price, t.orders), t.right)
    else
      var (m, l') := DetachMin(t.left);
      (m, t.(left := l'))
  }

  /** The node removal of `delete`: a missing child lets the other take the
      node's place; otherwise the successor takes the node's place and colour.
      No colours are repaired. */
  function Unlink(n: Tree): (r: Tree)
    requires n.Node?
    ensures Levels(r) == Levels(n.left) + Levels(n.right)
  {
    if n.left.Leaf? then n.right
    else if n.right.Leaf? then n.left
    else
      var (m, r') := DetachMin(n.right);
      Node(n.color, n.left, m.price, m.orders, r')
  }

  /** The structural part of `delete` at the node `find` reaches: a node with
      several orders loses `id` (NoOrder models the KeyError of `del`), a node
      with at most one order is unlinked whatever id it holds. */
  function RemoveOrder(t: Tree, p: Price, id: OrderId): PL.Edit<Tree> {
    match t
    case Leaf => PL.NoLevel
    case Node(c, l, q, os, r) =>
      if q == p then
        if |os| > 1 then
          if id in os then PL.Edited(Node(c, l, q, os - {id}, r)) else PL.NoOrder
        else PL.Edited(Unlink(t))
      else if q < p then WithRight(t, RemoveOrder(r, p, id))
      else WithLeft(t, RemoveOrder(l, p, id))
  }

  // ---------------------------------------------------------------------------
  // The public operations of RedBlackTree

  /** `RedBlackTree.update`. */
  function Update(t: Tree, o: Order): (r: Outcome<Tree>)
    ensures r.Raise? ==> r.error.NodeNotFoundInTree? || r.error.OrderNotFoundInNodeOrders?
  {
    match SetSize(t, o.price, o.orderId, o.size)
    case Edited(t') => Ok(t')
    case NoLevel =>
      Raise(NodeNotFoundInTree("Cannot update size of nonexistent order: " + o.orderId
                               + " with price: " + IntToString(o.price)))
    case NoOrder =>
      Raise(OrderNotFoundInNodeOrders("Cannot update size of nonexistent order: " + o.orderId
                                      + " with price " + IntToString(o.price)))
  }

  /** `RedBlackTree.delete`. */
  function Delete(t: Tree, o: Order): (r: Outcome<Tree>)
    ensures r.Raise? ==> r.error.NodeNotFoundInTree? || r.error == KeyError
  {
    match RemoveOrder(t, o.price, o.orderId)
    case Edited(t') => Ok(t')
    case NoLevel =>
      Raise(NodeNotFoundInTree("Cannot remove nonexistent order: " + o.orderId
                               + " with price: " + IntToString(o.price)))
    case NoOrder => Raise(KeyError)
  }

  // ---------------------------------------------------------------------------
  // Lemmas: search order

  lemma NodeOrder(t: Tree)
    requires t.Node? && SearchTree(t)
    ensures SearchTree(t.left) && SearchTree(t.right)
    ensures forall q :: q in PL.Prices(Levels(t.left)) ==> q < t.price
    ensures forall q :: q in PL.Prices(Levels(t.right)) ==> t.price < q
  {
    PL.OrderedSplit(Levels(t.left), PL.Level(t.price, t.orders), Levels(t.right));
  }

  lemma NodePrices(t: Tree)
    requires t.Node?
    ensures PL.Prices(Levels(t)) == PL.Prices(Levels(t.left)) + {t.price} + PL.Prices(Levels(t.right))
  {
    var x := PL.Level(t.price, t.orders);
    PL.PricesAppend(Levels(t.left) + [x], Levels(t.right));
    PL.PricesAppend(Levels(t.left), [x]);
    assert PL.Prices([x]) == {t.price} by {
      assert [x][1..] == [];
    }
  }

  /** Every price up to and including a node's lies below those of its right subtree. */
  lemma LeftOfNode(t: Tree)
    requires t.Node? && SearchTree(t)
    ensures forall q :: q in PL.Prices(Levels(t.left) + [PL.Level(t.price, t.orders)]) ==> q <= t.price
  {
    NodeOrder(t);
    var x := PL.Level(t.price, t.orders);
    PL.PricesAppend(Levels(t.left), [x]);
    assert PL.Prices([x]) == {t.price} by {
      assert [x][1..] == [];
    }
  }

  /** The levels of a node, grouped as the left subtree then the rest. */
  lemma LevelsRightGrouped(t: Tree)
    requires t.Node?
    ensures Levels(t) == Levels(t.left) + ([PL.Level(t.price, t.orders)] + Levels(t.right))
  {
  }

  // ---------------------------------------------------------------------------
  // Lemmas: insertion

  /** Insertion produces exactly the levels of the sorted-list insertion. */
  lemma {:induction false} InsLevels(t: Tree, o: Order)
    requires SearchTree(t)
    ensures Levels(Ins(t, o).0) == PL.Insert(Levels(t), o)
  {
    if t.Node? {
      NodeOrder(t);
      if o.price < t.price {
        InsLevels(t.left, o);
        InsStepLeft(t, o);
      } else if o.price > t.price {
        InsLevels(t.right, o);
        InsStepRight(t, o);
      } else {
        InsStepHere(t, o);
      }
    }
  }

  lemma InsStepLeft(t: Tree, o: Order)
    requires t.Node? && o.price < t.price
    requires Levels(Ins(t.left, o).0) == PL.Insert(Levels(t.left), o)
    ensures Levels(Ins(t, o).0) == PL.Insert(Levels(t), o)
  {
    var x := PL.Level(t.price, t.orders);
    var rest := [x] + Levels(t.right);
    InsLeftShape(t, o);
    Assoc(Levels(Ins(t.left, o).0), [x], Levels(t.right));
    assert rest[0].price == t.price;
    PL.InsertAppendLeft(Levels(t.left), rest, o);
    LevelsRightGrouped(t);
  }

  /** Descending left keeps the node and its right subtree after the new left part. */
  lemma InsLeftShape(t: Tree, o: Order)
    requires t.Node? && o.price < t.price
    ensures Levels(Ins(t, o).0) == Levels(Ins(t.left, o).0) + [PL.Level(t.price, t.orders)] + Levels(t.right)
  {
    var res := Ins(t.left, o);
    var n := t.(left := res.0);
    assert Child(n, Left) == res.0;
    InsLeftUnfold(t, o);
    var f := FixUp(n, Left, res.1);
    assert Levels(f.0) == Levels(n);
  }

  lemma InsLeftUnfold(t: Tree, o: Order)
    requires t.Node? && o.price < t.price
    ensures Ins(t, o).0 == FixUp(t.(left := Ins(t.left, o).0), Left, Ins(t.left, o).1).0
  {
  }

  lemma Assoc(a: seq<PL.Level>, b: seq<PL.Level>, c: seq<PL.Level>)
    ensures a + b + c == a + (b + c)
  {
  }

  lemma InsStepRight(t: Tree, o: Order)
    requires t.Node? && SearchTree(t) && o.price > t.price
    requires Levels(Ins(t.right, o).0) == PL.Insert(Levels(t.right), o)
    ensures Levels(Ins(t, o).0) == PL.Insert(Levels(t), o)
  {
    var x := PL.Level(t.price, t.orders);
    var (r', st) := Ins(t.right, o);
    assert Ins(t, o) == FixUp(t.(right := r'), Right, st);
    assert Levels(Ins(t, o).0) == Levels(t.(right := r'));
    assert Levels(t.(right := r')) == (Levels(t.left) + [x]) + Levels(r');
    LeftOfNode(t);
    PL.InsertAppendRight(Levels(t.left) + [x], Levels(t.right), o);
  }

  lemma InsStepHere(t: Tree, o: Order)
    requires t.Node? && SearchTree(t) && o.price == t.price
    ensures Levels(Ins(t, o).0) == PL.Insert(Levels(t), o)
  {
    var x := PL.Level(t.price, t.orders);
    NodeOrder(t);
    LevelsRightGrouped(t);
    PL.InsertAppendRight(Levels(t.left), [x] + Levels(t.right), o);
    assert ([x] + Levels(t.right))[1..] == Levels(t.right);
  }

  lemma InsertLevels(t: Tree, o: Order)
    requires SearchTree(t)
    ensures Levels(Insert(t, o)) == PL.Insert(Levels(t), o)
    ensures SearchTree(Insert(t, o))
    ensures PL.Prices(Levels(Insert(t, o))) == PL.Prices(Levels(t)) + {o.price}
  {
    InsLevels(t, o);
    PL.InsertOrdered(Levels(t), o);
  }

  /** What a report says about the subtree `t'` that replaced `t`: black
      height never changes, and
      - Settled: the rules hold and the root keeps its colour;
      - RedTop: the rules hold and the root is red;
      - RedRedBelow(d): `t` was red, `t'` is red with a red child on side `d`,
        and that is the only violation. */
  predicate Reports(t: Tree, t': Tree, st: Pending) {
    BlackBalanced(t') && BlackHeight(t') == BlackHeight(t)
    && (st.Settled? ==> NoRedRed(t') && t.Node? && t'.Node? && t'.color == t.color)
    && (st.RedTop? ==> NoRedRed(t') && IsRed(t'))
    && (st.RedRedBelow? ==>
          IsRed(t) && IsRed(t') && IsRed(Child(t', st.dir)) && NoRedRed(Child(t', st.dir))
          && NoRedRed(Child(t', Flip(st.dir))) && !IsRed(Child(t', Flip(st.dir))))
  }

  /** The invariant the fix-up loop keeps, one level at a time. */
  lemma {:induction false} InsRedBlack(t: Tree, o: Order)
    requires RedBlack(t)
    ensures Reports(t, Ins(t, o).0, Ins(t, o).1)
  {
    match t
    case Leaf =>
    case Node(c, l, p, os, r) =>
      if o.price < p {
        InsRedBlack(l, o);
        var (l', st) := Ins(l, o);
        FixUpRedBlack(t, Left, l', st);
      } else if o.price > p {
        InsRedBlack(r, o);
        var (r', st) := Ins(r, o);
        FixUpRedBlack(t, Right, r', st);
      }
  }

  function Replace(t: Tree, d: Dir, c: Tree): (n: Tree)
    requires t.Node?
    ensures n.Node? && Child(n, d) == c && Child(n, Flip(d)) == Child(t, Flip(d))
  {
    if d == Left then t.(left := c) else t.(right := c)
  }

  /** FixUp at node `t` after its child on side `d` became `c'` with report `st`. */
  lemma FixUpRedBlack(t: Tree, d: Dir, c': Tree, st: Pending)
    requires t.Node? && RedBlack(t)
    requires st.RedTop? ==> c'.Node?
    requires st.RedRedBelow? ==> c'.Node? && Child(c', st.dir).Node?
    requires Reports(Child(t, d), c', st)
    ensures Reports(t, FixUp(Replace(t, d, c'), d, st).0, FixUp(Replace(t, d, c'), d, st).1)
  {
    var n := Replace(t, d, c');
    match st
    case Settled =>
    case RedTop =>
    case RedRedBelow(dd) =>
      if IsRed(Child(n, Flip(d))) {
        RecolourRedBlack(t, d, c');
      } else {
        RestructureRedBlack(n, d, dd);
      }
  }

  lemma RecolourRedBlack(t: Tree, d: Dir, c': Tree)
    requires t.Node? && RedBlack(t) && IsRed(c')
    requires IsRed(Child(t, d)) && IsRed(Child(t, Flip(d)))
    requires BlackBalanced(c') && BlackHeight(c') == BlackHeight(Child(t, d))
    requires NoRedRed(c'.left) && NoRedRed(c'.right)
    ensures var n := Replace(t, d, c');
      var t' := Node(Red, Blacken(n.left), n.price, n.orders, Blacken(n.right));
      NoRedRed(t') && IsRed(t') && BlackBalanced(t') && BlackHeight(t') == BlackHeight(t)
  {
    var u := Child(t, Flip(d));
    assert NoRedRed(u) && BlackBalanced(u);
    assert BlackHeight(u) == BlackHeight(Child(t, d));
    BlackenRed(c');
    BlackenRed(u);
    if d == Left {
      assert Replace(t, d, c') == t.(left := c');
    } else {
      assert Replace(t, d, c') == t.(right := c');
    }
  }

  lemma BlackenRed(x: Tree)
    requires IsRed(x) && BlackBalanced(x) && NoRedRed(x.left) && NoRedRed(x.right)
    ensures NoRedRed(Blacken(x)) && BlackBalanced(Blacken(x))
    ensures BlackHeight(Blacken(x)) == BlackHeight(x) + 1
  {
  }

  lemma RestructureRedBlack(g: Tree, d: Dir, dd: Dir)
    requires g.Node? && g.color == Black
    requires Child(g, d).Node? && Child(Child(g, d), dd).Node?
    requires var p := Child(g, d); var u := Child(g, Flip(d));
      IsRed(p) && IsRed(Child(p, dd)) && NoRedRed(Child(p, dd))
      && NoRedRed(Child(p, Flip(dd))) && !IsRed(Child(p, Flip(dd)))
      && BlackBalanced(p) && NoRedRed(u) && !IsRed(u) && BlackBalanced(u)
      && BlackHeight(p) == BlackHeight(u)
    ensures var t := Restructure(g, d, dd);
      NoRedRed(t) && BlackBalanced(t) && t.color == Black && BlackHeight(t) == BlackHeight(g)
  {
  }

  /** `insert` keeps the red-black rules. */
  lemma InsertRedBlack(t: Tree, o: Order)
    requires RedBlack(t)
    ensures RedBlack(Insert(t, o))
  {
    InsRedBlack(t, o);
  }

  /** An order at a price already in the tree changes no link or colour. */
  lemma {:induction false} InsertExistingPrice(t: Tree, o: Order)
    requires SearchTree(t) && o.price in PL.Prices(Levels(t))
    ensures Ins(t, o).1 == Settled
    ensures Skeleton(Insert(t, o)) == Skeleton(t)
  {
    match t
    case Node(c, l, p, os, r) =>
      NodeOrder(t);
      NodePrices(t);
      if o.price < p {
        InsertExistingPrice(l, o);
      } else if o.price > p {
        InsertExistingPrice(r, o);
      }
  }

  // ---------------------------------------------------------------------------
  // Lemmas: lookup

  lemma OrdersAtRight(t: Tree, p: Price)
    requires t.Node? && SearchTree(t) && t.price < p
    ensures PL.OrdersAt(Levels(t), p) == PL.OrdersAt(Levels(t.right), p)
  {
    LeftOfNode(t);
    PL.OrdersAtAppend(Levels(t.left) + [PL.Level(t.price, t.orders)], Levels(t.right), p);
  }

  lemma OrdersAtLeft(t: Tree, p: Price)
    requires t.Node? && SearchTree(t) && p < t.price
    ensures PL.OrdersAt(Levels(t), p) == PL.OrdersAt(Levels(t.left), p)
  {
    NodeOrder(t);
    var rest := [PL.Level(t.price, t.orders)] + Levels(t.right);
    LevelsRightGrouped(t);
    PL.OrdersAtAppend(Levels(t.left), rest, p);
    if p !in PL.Prices(Levels(t.left)) {
      PL.AbsentPrice(Levels(t.left), p);
      assert rest[1..] == Levels(t.right);
      PL.AbsentPrice(Levels(t.right), p);
    }
  }

  lemma OrdersAtHere(t: Tree)
    requires t.Node? && SearchTree(t)
    ensures PL.OrdersAt(Levels(t), t.price) == t.orders
  {
    NodeOrder(t);
    LevelsRightGrouped(t);
    PL.OrdersAtAppend(Levels(t.left), [PL.Level(t.price, t.orders)] + Levels(t.right), t.price);
  }

  /** `find` reaches a node exactly for the prices in the tree, holding that
      price's orders. */
  lemma {:induction false} FindLevel(t: Tree, p: Price)
    requires SearchTree(t)
    ensures Find(t, p).Node? <==> p in PL.Prices(Levels(t))
    ensures Find(t, p).Node? ==> Find(t, p).orders == PL.OrdersAt(Levels(t), p)
  {
    if t.Node? {
      NodeOrder(t);
      NodePrices(t);
      if t.price < p {
        FindLevel(t.right, p);
        OrdersAtRight(t, p);
      } else if p < t.price {
        FindLevel(t.left, p);
        OrdersAtLeft(t, p);
      } else {
        OrdersAtHere(t);
      }
    }
  }

  /** `get_minimum` is the least price of a non-empty tree and 0 otherwise. */
  lemma {:induction false} MinimumLeast(t: Tree)
    requires SearchTree(t)
    ensures t.Leaf? ==> Minimum(t) == 0
    ensures t.Node? ==> Minimum(t) in PL.Prices(Levels(t))
    ensures t.Node? ==> forall q :: q in PL.Prices(Levels(t)) ==> Minimum(t) <= q
  {
    if t.Node? {
      NodeOrder(t);
      NodePrices(t);
      if t.left.Node? {
        MinimumLeast(t.left);
      }
    }
  }

  /** `get_maximum` is the greatest price of a non-empty tree and 0 otherwise. */
  lemma {:induction false} MaximumGreatest(t: Tree)
    requires SearchTree(t)
    ensures t.Leaf? ==> Maximum(t) == 0
    ensures t.Node? ==> Maximum(t) in PL.Prices(Levels(t))
    ensures t.Node? ==> forall q :: q in PL.Prices(Levels(t)) ==> q <= Maximum(t)
  {
    if t.Node? {
      NodeOrder(t);
      NodePrices(t);
      if t.right.Node? {
        MaximumGreatest(t.right);
      }
    }
  }

  /** The leftmost node holds the first level. */
  lemma {:induction false} MinimumFirst(t: Tree)
    requires t.Node?
    ensures Minimum(t) == Levels(t)[0].price
  {
    if t.left.Node? {
      MinimumFirst(t.left);
    }
  }

  /** The rightmost node holds the last level. */
  lemma {:induction false} MaximumLast(t: Tree)
    requires t.Node?
    ensures Maximum(t) == Levels(t)[|Levels(t)| - 1].price
  {
    if t.right.Node? {
      MaximumLast(t.right);
    }
  }

  // ---------------------------------------------------------------------------
  // Lemmas: editing

  /** The tree size change is the sorted-list size change. */
  lemma {:induction false} SetSizeLevels(t: Tree, p: Price, id: OrderId, size: int)
    requires SearchTree(t)
    ensures LevelsOf(SetSize(t, p, id, size)) == PL.SetSize(Levels(t), p, id, size)
  {
    if t.Node? {
      NodeOrder(t);
      var x := PL.Level(t.price, t.orders);
      if t.price < p {
        SetSizeLevels(t.right, p, id, size);
        LeftOfNode(t);
        PL.SetSizeAppendRight(Levels(t.left) + [x], Levels(t.right), p, id, size);
      } else if p < t.price {
        SetSizeLevels(t.left, p, id, size);
        SetSizeStepLeft(t, p, id, size);
      } else {
        SetSizeStepHere(t, id, size);
      }
    }
  }

  lemma SetSizeStepLeft(t: Tree, p: Price, id: OrderId, size: int)
    requires t.Node? && SearchTree(t) && p < t.price
    requires LevelsOf(SetSize(t.left, p, id, size)) == PL.SetSize(Levels(t.left), p, id, size)
    ensures LevelsOf(SetSize(t, p, id, size)) == PL.SetSize(Levels(t), p, id, size)
  {
    NodeOrder(t);
    NodePrices(t);
    var rest := [PL.Level(t.price, t.orders)] + Levels(t.right);
    PL.PricesAppend([PL.Level(t.price, t.orders)], Levels(t.right));
    assert PL.Prices([PL.Level(t.price, t.orders)]) == {t.price} by {
      assert [PL.Level(t.price, t.orders)][1..] == [];
    }
    LevelsRightGrouped(t);
    PL.SetSizeAppendLeft(Levels(t.left), rest, p, id, size);
    match SetSize(t.left, p, id, size)
    case Edited(l') =>
      assert Levels(t.(left := l')) == Levels(l') + rest;
    case NoLevel =>
    case NoOrder =>
  }

  lemma SetSizeStepHere(t: Tree, id: OrderId, size: int)
    requires t.Node? && SearchTree(t)
    ensures LevelsOf(SetSize(t, t.price, id, size)) == PL.SetSize(Levels(t), t.price, id, size)
  {
    NodeOrder(t);
    var x := PL.Level(t.price, t.orders);
    LevelsRightGrouped(t);
    PL.SetSizeAppendRight(Levels(t.left), [x] + Levels(t.right), t.price, id, size);
    assert ([x] + Levels(t.right))[1..] == Levels(t.right);
    if id in t.orders {
      var y := PL.Level(t.price, PL.Resized(t.orders, id, size));
      assert Levels(t.(orders := PL.Resized(t.orders, id, size)))
          == Levels(t.left) + ([y] + Levels(t.right));
    }
  }

  /** A size change moves no link and no colour. */
  lemma {:induction false} SetSizeSkeleton(t: Tree, p: Price, id: OrderId, size: int)
    requires SetSize(t, p, id, size).Edited?
    ensures Skeleton(SetSize(t, p, id, size).value) == Skeleton(t)
  {
    if t.price < p {
      SetSizeSkeleton(t.right, p, id, size);
    } else if p < t.price {
      SetSizeSkeleton(t.left, p, id, size);
    }
  }

  /** The tree removal is the sorted-list removal. */
  lemma {:induction false} RemoveOrderLevels(t: Tree, p: Price, id: OrderId)
    requires SearchTree(t)
    ensures LevelsOf(RemoveOrder(t, p, id)) == PL.Remove(Levels(t), p, id)
  {
    if t.Node? {
      NodeOrder(t);
      var x := PL.Level(t.price, t.orders);
      if t.price < p {
        RemoveOrderLevels(t.right, p, id);
        LeftOfNode(t);
        PL.RemoveAppendRight(Levels(t.left) + [x], Levels(t.right), p, id);
      } else if p < t.price {
        RemoveOrderLevels(t.left, p, id);
        RemoveStepLeft(t, p, id);
      } else {
        RemoveStepHere(t, id);
      }
    }
  }

  /** Removing one order from a node that keeps other orders moves no link and
      no colour. */
  lemma {:induction false} RemoveOrderSkeleton(t: Tree, p: Price, id: OrderId)
    requires RemoveOrder(t, p, id).Edited? && Find(t, p).Node? && |Find(t, p).orders| > 1
    ensures Skeleton(RemoveOrder(t, p, id).value) == Skeleton(t)
  {
    if t.price < p {
      RemoveOrderSkeleton(t.right, p, id);
    } else if p < t.price {
      RemoveOrderSkeleton(t.left, p, id);
    }
  }

  lemma RemoveStepLeft(t: Tree, p: Price, id: OrderId)
    requires t.Node? && SearchTree(t) && p < t.price
    requires LevelsOf(RemoveOrder(t.left, p, id)) == PL.Remove(Levels(t.left), p, id)
    ensures LevelsOf(RemoveOrder(t, p, id)) == PL.Remove(Levels(t), p, id)
  {
    NodeOrder(t);
    var rest := [PL.Level(t.price, t.orders)] + Levels(t.right);
    PL.PricesAppend([PL.Level(t.price, t.orders)], Levels(t.right));
    assert PL.Prices([PL.Level(t.price, t.orders)]) == {t.price} by {
      assert [PL.Level(t.price, t.orders)][1..] == [];
    }
    RemoveLeft(t, p, id);
  }

  /** RemoveStepLeft once `p` is known to lie outside the node and its right subtree. */
  lemma {:induction false} RemoveLeft(t: Tree, p: Price, id: OrderId)
    requires t.Node? && p < t.price
    requires p !in PL.Prices([PL.Level(t.price, t.orders)] + Levels(t.right))
    requires LevelsOf(RemoveOrder(t.left, p, id)) == PL.Remove(Levels(t.left), p, id)
    ensures LevelsOf(RemoveOrder(t, p, id)) == PL.Remove(Levels(t), p, id)
  {
    var rest := [PL.Level(t.price, t.orders)] + Levels(t.right);
    LevelsRightGrouped(t);
    PL.RemoveAppendLeft(Levels(t.left), rest, p, id);
    assert RemoveOrder(t, p, id) == WithLeft(t, RemoveOrder(t.left, p, id));
    match RemoveOrder(t.left, p, id)
    case Edited(l') =>
      assert Levels(t.(left := l')) == Levels(l') + rest;
    case NoLevel =>
    case NoOrder =>
  }

  lemma RemoveStepHere(t: Tree, id: OrderId)
    requires t.Node? && SearchTree(t)
    ensures LevelsOf(RemoveOrder(t, t.price, id)) == PL.Remove(Levels(t), t.price, id)
  {
    NodeOrder(t);
    RemoveHere(t, id);
  }

  /** RemoveStepHere with only the fact about the left part that it needs. */
  lemma {:induction false} RemoveHere(t: Tree, id: OrderId)
    requires t.Node? && t.price !in PL.Prices(Levels(t.left))
    ensures LevelsOf(RemoveOrder(t, t.price, id)) == PL.Remove(Levels(t), t.price, id)
  {
    var x := PL.Level(t.price, t.orders);
    var l, r := Levels(t.left), Levels(t.right);
    LevelsRightGrouped(t);
    PL.RemoveAppendRight(l, [x] + r, t.price, id);
    RemoveAtHead(x, r, id);
    var e := RemoveOrder(t, t.price, id);
    if |t.orders| > 1 && id in t.orders {
      var y := PL.Level(t.price, t.orders - {id});
      assert e == PL.Edited(t.(orders := t.orders - {id}));
      assert Levels(e.value) == l + ([y] + r);
    } else if |t.orders| > 1 {
      assert e == PL.NoOrder;
    } else {
      assert e == PL.Edited(Unlink(t));
    }
  }

  /** Removal at the first level of a sequence. */
  lemma RemoveAtHead(x: PL.Level, r: seq<PL.Level>, id: OrderId)
    ensures PL.Remove([x] + r, x.price, id)
        == if |x.orders| > 1 then
             if id in x.orders then PL.Edited([PL.Level(x.price, x.orders - {id})] + r) else PL.NoOrder
           else PL.Edited(r)
  {
    assert ([x] + r)[0] == x && ([x] + r)[1..] == r;
  }

  /** `update` succeeds exactly when the price is in the tree and its node holds
      the id; then only that order's size changes and no link or colour moves. */
  lemma UpdateSpec(t: Tree, o: Order)
    requires SearchTree(t)
    ensures Update(t, o).Raise? && Update(t, o).error.NodeNotFoundInTree? <==> o.price !in PL.Prices(Levels(t))
    ensures Update(t, o).Ok? <==> o.price in PL.Prices(Levels(t)) && o.orderId in PL.OrdersAt(Levels(t), o.price)
    ensures Update(t, o).Ok? ==> Skeleton(Update(t, o).value) == Skeleton(t)
    ensures Update(t, o).Ok? ==>
              forall q :: PL.OrdersAt(Levels(Update(t, o).value), q)
                == if q == o.price then PL.Resized(PL.OrdersAt(Levels(t), q), o.orderId, o.size)
                   else PL.OrdersAt(Levels(t), q)
  {
    SetSizeLevels(t, o.price, o.orderId, o.size);
    PL.SetSizeOutcome(Levels(t), o.price, o.orderId, o.size);
    if Update(t, o).Ok? {
      SetSizeSkeleton(t, o.price, o.orderId, o.size);
      forall q
        ensures PL.OrdersAt(Levels(Update(t, o).value), q)
             == if q == o.price then PL.Resized(PL.OrdersAt(Levels(t), q), o.orderId, o.size)
                else PL.OrdersAt(Levels(t), q)
      {
        PL.SetSizeContents(Levels(t), o.price, o.orderId, o.size, q);
      }
    }
  }

  /** `delete` fails with NodeNotFoundInTree exactly when the price is absent and
      with KeyError exactly when a level of several orders lacks the id;
      otherwise the levels are those of the sorted-list removal, and a level
      that keeps other orders leaves every link and colour in place. */
  lemma DeleteSpec(t: Tree, o: Order)
    requires SearchTree(t)
    ensures Delete(t, o).Raise? && Delete(t, o).error.NodeNotFoundInTree? <==> o.price !in PL.Prices(Levels(t))
    ensures Delete(t, o) == Raise(KeyError)
        <==> o.price in PL.Prices(Levels(t)) && |PL.OrdersAt(Levels(t), o.price)| > 1
             && o.orderId !in PL.OrdersAt(Levels(t), o.price)
    ensures Delete(t, o).Ok? ==> PL.Remove(Levels(t), o.price, o.orderId) == PL.Edited(Levels(Delete(t, o).value))
    ensures Delete(t, o).Ok? ==> SearchTree(Delete(t, o).value)
    ensures Delete(t, o).Ok? && |PL.OrdersAt(Levels(t), o.price)| > 1 ==>
              Skeleton(Delete(t, o).value) == Skeleton(t)
  {
    RemoveOrderLevels(t, o.price, o.orderId);
    PL.RemoveOutcome(Levels(t), o.price, o.orderId);
    if Delete(t, o).Ok? {
      PL.RemoveContents(Levels(t), o.price, o.orderId, o.price);
      FindLevel(t, o.price);
      if |PL.OrdersAt(Levels(t), o.price)| > 1 {
        RemoveOrderSkeleton(t, o.price, o.orderId);
      }
    }
  }
}
