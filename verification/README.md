# Order book, bracket matcher and resolving engine, modelled in Dafny

This project models three interview exercises.

- **Order book.** Order lines look like `timestamp|id|action|ticker|side|price|size`. They are
  validated and dispatched to a per-ticker book that keeps bids and asks in red-black trees keyed
  by price. Three trees are modelled, all over one immutable `Tree` datatype:
  - `red_black_tree.py` (module `RedBlackTree`);
  - the copy embedded in `_tree_implementation/tree_order_book.py` (module `TreeOrderBook`), which
    differs in `update` and `remove`;
  - the CLRS-style `red_black_tree_2.py` (module `ClrsTree`). Its parent-pointer walks are
    modelled with a zipper: a path of `Frame`s from the root down to a focused subtree.
- **Bracket matcher.** `MatchingBracketValidator`, module `Brackets`.
- **Resolving engine.** `RegularResolvingEngine`, module `ResolvingEngine`.

Supporting modules:

- `Orders`: the `Order` record and one `Error` datatype for every exception the code raises.
- `Text`: digit strings.
- `PriceLevels`: the reference definition every tree is measured against. It is the in-order
  sequence of price levels (price plus the orders at that price), with sorted-list versions of
  insert, remove and resize.
- `Validators`: the six validators and the four factory chains.
- `ProcessOrder`: both `process_order` dispatchers.

Every tree operation is related to its `PriceLevels` counterpart through `Levels(t)`, the
in-order sequence of a tree's levels. Book operations return `Outcome<Book>`: either the new book
or the exception raised. Anything that does not catch an exception ends the run.

Observations the proofs bring out (stated as lemmas in the model):

- In `red_black_tree_2.py`, `delete_node_helper` calls `delete_fix(x)` whenever the spliced node
  was black, even when its replacement `x` is `None`. The loop of `delete_fix` then stops at once
  on its `x is not None` guard, so no repair happens. Removing a black leaf therefore leaves a tree whose black heights
  differ (`ClrsTree.DeleteBlackLeafUnbalances`). Inserting 1 to 10 in order and then deleting
  5 is enough (`ClrsTree.BlackLeafUnbalanceReachable`).
- `delete_fix` dereferences a sibling that can be `None`, which raises AttributeError
  (`ClrsTree.DeleteFixUncheckedSibling`). Insert 1 to 10 in order, then delete 5, 1 and 2:
  the last delete raises (`ClrsTree.UncheckedSiblingReachable`).
- The embedded tree's `remove` cannot remove a node that holds one order and has two children.
  It reads `.red` from a node that has no such attribute (`TreeOrderBook.TreeRemoveAgrees`).
- `cancel` leaves the id in the book's id map. A second cancel of the same id removes whatever
  order now holds that price alone (`TreeOrderBook.StaleCancelRemovesAnotherOrder`).
- The order-id pattern `^[a-zA-Z0-9]+$` accepts an id followed by one newline
  (`Validators.OrderIdFormats`).
- The older dispatcher treats every action other than `c` and `u` as an add
  (`ProcessOrder.UnknownActionAdded`).
- The resolving engine has no cycle detection. A cycle ends in Python's RecursionError
  (`ResolvingEngine.CycleExhaustsDepth`).
- The bracket validator keeps its stack between calls. An unmatched opener from one call makes
  the next call's answer depend on it (`Brackets.LeftoverOpenerCarries`).

## Model

Paths are relative to the repository root.

| member | source | states |
|---|---|---|
| RedBlackTree.RotateLeft | interview_2022_03_28/order_processing/_tree_implementation/red_black_tree.py:267-291 | A left rotation keeps the in-order levels, and each node keeps its colour. It fails when there is no right child: AttributeError on a missing node, RuntimeError otherwise. |
| RedBlackTree.RotateRight | interview_2022_03_28/order_processing/_tree_implementation/red_black_tree.py:293-317 | A right rotation keeps the in-order levels, and each node keeps its colour. It fails when there is no left child: AttributeError on a missing node, RuntimeError otherwise. |
| RedBlackTree.InsertLevels | interview_2022_03_28/order_processing/_tree_implementation/red_black_tree.py:41-111 | On a search tree, insert yields exactly the sorted-list insertion of the order. The result is again a search tree, and its prices are the old prices plus the order's price. |
| RedBlackTree.InsertRedBlack | interview_2022_03_28/order_processing/_tree_implementation/red_black_tree.py:63-111 | Insert fix-up keeps the red-black rules: no red node has a red child, and black heights are equal. |
| RedBlackTree.InsertExistingPrice | interview_2022_03_28/order_processing/_tree_implementation/red_black_tree.py:46-54 | Inserting at a price already present only adds the order to that node. Links and colours are unchanged. |
| RedBlackTree.FindLevel | interview_2022_03_28/order_processing/_tree_implementation/red_black_tree.py:364-371 | `find` returns a node exactly when the price is in the tree. The node holds exactly the orders at that price. |
| RedBlackTree.MinimumLeast | interview_2022_03_28/order_processing/_tree_implementation/red_black_tree.py:240-246 | `get_minimum` is 0 on an empty tree. Otherwise it is a price in the tree, and no smaller price is present. |
| RedBlackTree.MaximumGreatest | interview_2022_03_28/order_processing/_tree_implementation/red_black_tree.py:248-254 | `get_maximum` is 0 on an empty tree. Otherwise it is a price in the tree, and no larger price is present. |
| RedBlackTree.UpdateSpec | interview_2022_03_28/order_processing/_tree_implementation/red_black_tree.py:114-126 | Update raises NodeNotFoundInTree exactly when the price is absent. It succeeds exactly when the id rests at that price. It then changes only that order's size and keeps links and colours. |
| RedBlackTree.DeleteSpec | interview_2022_03_28/order_processing/_tree_implementation/red_black_tree.py:128-238 | Delete raises NodeNotFoundInTree exactly when the price is absent. It raises KeyError exactly when a multi-order level lacks the id. Otherwise it equals the sorted-list removal and leaves a search tree. A level that keeps other orders loses only the id, and every link and colour stays in place. |
| RedBlackTree.Unlink | interview_2022_03_28/order_processing/_tree_implementation/red_black_tree.py:218-238 | Splicing a node out, through its only child or through its in-order successor, keeps the other levels in order. |
| TreeOrderBook.TreeRemoveAgrees | interview_2022_03_28/order_processing/_tree_implementation/tree_order_book.py:126-156 | The embedded `remove` ends in AttributeError exactly when it must splice a single-order node with two children. On every other tree it behaves like `RedBlackTree.delete`. |
| TreeOrderBook.TreeRemoveLevels | interview_2022_03_28/order_processing/_tree_implementation/tree_order_book.py:126-141 | A missing price gives RuntimeError, and a multi-order level without the id gives KeyError. A success equals the sorted-list removal. |
| TreeOrderBook.TreeUpdateLevels | interview_2022_03_28/order_processing/_tree_implementation/tree_order_book.py:119-124 | A missing price gives RuntimeError, and a missing id gives KeyError. A success equals the sorted-list resize. |
| TreeOrderBook.EmptyValid | interview_2022_03_28/order_processing/_tree_implementation/tree_order_book.py:293-297 | A new book satisfies the book invariant and holds no levels. |
| TreeOrderBook.AddOrderSpec | interview_2022_03_28/order_processing/_tree_implementation/tree_order_book.py:298-316 | Zero size raises InvalidOrderSizeZero, and a known id raises DuplicatedOrderId; nothing else fails. A success records the id, adds the ticker, inserts into exactly the order's side and keeps the invariant. |
| TreeOrderBook.UpdateSpec | interview_2022_03_28/order_processing/_tree_implementation/tree_order_book.py:318-327 | An unknown id raises OrderDoesNotExist. A known id succeeds exactly when its order still rests. The size then changes in the id map and in the one tree holding it, and the invariant holds. |
| TreeOrderBook.CancelSpec | interview_2022_03_28/order_processing/_tree_implementation/tree_order_book.py:329-337 | An unknown id raises OrderDoesNotExist. Each tree failure is characterised exactly. A success removes the order from its side only, keeps the id map and keeps the invariant. |
| TreeOrderBook.BestPricesSpec | interview_2022_03_28/order_processing/_tree_implementation/tree_order_book.py:339-347 | The best ask is the least ask price and the best bid the greatest bid price. Each is 0 when that side is empty. |
| TreeOrderBook.CancelSoleOrder | interview_2022_03_28/order_processing/_tree_implementation/tree_order_book.py:298-337 | Cancelling the only order empties its tree. Its id still cannot be reused. |
| TreeOrderBook.StaleCancelRemovesAnotherOrder | interview_2022_03_28/order_processing/_tree_implementation/tree_order_book.py:329-337 | Cancelling an id a second time removes a different order that later took its price. |
| ClrsTree.Locate | interview_2022_03_28/order_processing/_tree_implementation/red_black_tree_2.py:43-49 | The search ends at the node with the price or at a leaf, and the path back up rebuilds the tree. |
| ClrsTree.SearchSpec | interview_2022_03_28/order_processing/_tree_implementation/red_black_tree_2.py:43-49 | `search` finds a node exactly when the price is present. That node holds the orders at that price. |
| ClrsTree.InsertLevels | interview_2022_03_28/order_processing/_tree_implementation/red_black_tree_2.py:303-334 | A successful insert equals the sorted-list insertion and leaves a search tree. |
| ClrsTree.InsertRedBlack | interview_2022_03_28/order_processing/_tree_implementation/red_black_tree_2.py:162-195 | On a red-black tree with a black root, insert succeeds and keeps the red-black rules and the black root. |
| ClrsTree.InsertExisting | interview_2022_03_28/order_processing/_tree_implementation/red_black_tree_2.py:309-317 | An existing price only gains the order. Links and colours are unchanged. |
| ClrsTree.UpdateSpec | interview_2022_03_28/order_processing/_tree_implementation/red_black_tree_2.py:342-347 | A missing price gives RuntimeError, and a missing id gives KeyError. A success equals the sorted-list resize. |
| ClrsTree.SuccessorIsNext | interview_2022_03_28/order_processing/_tree_implementation/red_black_tree_2.py:250-258 | `successor` gives the least price above the node, or none exactly when the node's price is the greatest. |
| ClrsTree.PredecessorIsPrev | interview_2022_03_28/order_processing/_tree_implementation/red_black_tree_2.py:260-269 | `predecessor` gives the greatest price below the node, or none exactly when the node's price is the least. |
| ClrsTree.MinPathSplice | interview_2022_03_28/order_processing/_tree_implementation/red_black_tree_2.py:218-221 | `minimum` reaches the leftmost node. Splicing it out by its right child leaves the remaining levels in order. |
| ClrsTree.DeleteFixLevels | interview_2022_03_28/order_processing/_tree_implementation/red_black_tree_2.py:52-101 | Every recolouring and rotation of `delete_fix` keeps the in-order levels of the whole tree. |
| ClrsTree.DeleteSpec | interview_2022_03_28/order_processing/_tree_implementation/red_black_tree_2.py:115-159 | A missing price leaves the tree as it was. A multi-order level without the id raises KeyError, and only that does. A successful removal equals the sorted-list removal and leaves a search tree. |
| ClrsTree.DeleteFixUncheckedSibling | interview_2022_03_28/order_processing/_tree_implementation/red_black_tree_2.py:52-62 | A tree on which `delete_fix` reads a field of a missing sibling, so delete raises AttributeError. |
| ClrsTree.DeleteBlackLeafUnbalances | interview_2022_03_28/order_processing/_tree_implementation/red_black_tree_2.py:134-159 | A valid red-black tree from which deleting a black leaf skips the fix-up and breaks black balance. |
| ClrsTree.BlackLeafUnbalanceReachable | interview_2022_03_28/order_processing/_tree_implementation/red_black_tree_2.py:115-159 | The same loss of balance is reached from an empty tree. Inserting 1 to 10 in order gives a red-black tree, and deleting the black leaf 5 leaves it unbalanced. |
| ClrsTree.UncheckedSiblingReachable | interview_2022_03_28/order_processing/_tree_implementation/red_black_tree_2.py:52-159 | The missing-sibling failure is reached from an empty tree. Insert 1 to 10 in order, delete 5 and 1, then delete 2: the run ends in AttributeError. |
| Validators.Split | interview_2022_03_28/order_processing/validators/_concrete_validators.py:34-35 | Splitting on `|` yields at least one field, and no field contains the separator. |
| Validators.SplitJoin | interview_2022_03_28/order_processing/validators/_concrete_validators.py:34-35 | Splitting the joined fields gives the fields back. |
| Validators.JoinSplit | interview_2022_03_28/order_processing/validators/_concrete_validators.py:34-35 | Joining the split fields gives the line back. |
| Validators.Examine | interview_2022_03_28/order_processing/validators/_concrete_validators.py:26-115 | One validator raises IndexError exactly when the line has fewer fields than it reads. Each of its diagnostics is an `ERROR: ` line. |
| Validators.RunWithinFields | interview_2022_03_28/order_processing/validators/_concrete_validators.py:8-23 | A chain whose validators all read existing fields never raises. It accepts exactly when every validator accepts. |
| Validators.CountsFirstNeverRaises | interview_2022_03_28/order_processing/validators/_concrete_validators.py:26-41 | A chain that starts with a field-count check covering every later read never raises. |
| Validators.ActionChainSpec | interview_2022_03_28/order_processing/validators/validator_factory.py:12-15 | The action chain accepts exactly the lines with at least three fields whose third field is `a`, `u` or `c`. |
| Validators.CancelChainSpec | interview_2022_03_28/order_processing/validators/validator_factory.py:18-25 | The cancel chain accepts exactly a digit timestamp and a well-formed id. |
| Validators.UpdateChainSpec | interview_2022_03_28/order_processing/validators/validator_factory.py:28-37 | The update chain also demands a fourth field that is a positive decimal. |
| Validators.AddChainSpec | interview_2022_03_28/order_processing/validators/validator_factory.py:40-51 | The add chain accepts exactly seven or more fields with a digit timestamp, a well-formed id, side `B` or `S` and a positive size. |
| Validators.SizeFormats | interview_2022_03_28/order_processing/validators/_concrete_validators.py:86-103 | Empty, lettered, zero and negative sizes are refused; `1` and `10` are accepted. |
| Validators.OrderIdFormats | interview_2022_03_28/order_processing/validators/_concrete_validators.py:70-83 | Ids with `#` and the empty id are refused. Letters and digits are accepted, even with one trailing newline. |
| ProcessOrder.RejectedLineChangesNothing | interview_2022_03_28/order_processing/process_order.py:13-27 | A line some chain rejects leaves the book as it was and writes exactly one `ERROR: ` diagnostic. |
| ProcessOrder.AdmittedLineCallsBook | interview_2022_03_28/order_processing/process_order.py:30-78 | An admitted line calls exactly the book operation its action names, with the parsed fields. An add with more than seven fields, or an unreadable price, raises ValueError. |
| ProcessOrder.AdmittedAddSide | interview_2022_03_28/order_processing/process_order.py:62-64 | An admitted add's side code maps `B` to a bid and `S` to an ask. |
| ProcessOrder.UnknownIdLogged | interview_2022_03_28/order_processing/process_order.py:30-54 | Cancelling or updating an unknown id logs the book's message and changes nothing. |
| ProcessOrder.ProcessOrderKeepsValid | interview_2022_03_28/order_processing/process_order.py:13-78 | Every line that does not raise preserves the book invariant. |
| ProcessOrder.ListedLinesRejected | interview_2022_03_28/order_processing/_tree_implementation/tests/test_tree_process_order_invalid_input.py:9-50 | All 40 malformed lines of the invalid-input list are rejected before they reach the book. |
| ProcessOrder.ListedLinesAgainstRestingOrderRejected | interview_2022_03_28/order_processing/_tree_implementation/tests/test_tree_process_order_invalid_input.py:110-129 | All 15 distinct malformed cancels and updates sent while `bid1` rests are rejected before they reach the book. |
| ProcessOrder.UnknownActionRejected | interview_2022_03_28/order_processing/validators/_concrete_validators.py:44-53 | A line with action `x` is logged as an unknown action, and the book is unchanged. |
| ProcessOrder.LegacyProcessOrderKeepsValid | interview_2022_03_28/process_order.py:6-46 | Every line the older dispatcher handles without raising preserves the book invariant. |
| ProcessOrder.LegacyShortLine | interview_2022_03_28/process_order.py:6-9 | The older dispatcher raises IndexError on lines with fewer than three fields. |
| ProcessOrder.LegacyOtherActionsAdd | interview_2022_03_28/process_order.py:26-46 | In the older dispatcher, any other action is an add. Lines that are not exactly seven fields raise ValueError. A bad side is logged without a book change. Otherwise the order is added. |
| ProcessOrder.UnknownActionAdded | interview_2022_03_28/process_order.py:26-46 | The older dispatcher adds a line whose action is `x`. |
| Brackets.PairingSpec | interview_2022_12_20/matching_brackets_validator.py:5-7 | The dictionary's keys are exactly the closers. Each closer maps to its opener, and the last definition wins. |
| Brackets.UsualPairing | interview_2022_12_20/test_matching_brackets_validator.py:82-86 | The three bracket definitions of the tests give the closing-to-opening dictionary (built at matching_brackets_validator.py:6) `)→(`, `]→[`, `}→{`. |
| Brackets.Scan | interview_2022_12_20/matching_brackets_validator.py:9-19 | A true answer leaves an empty stack, and the only exception is KeyError. |
| Brackets.ScanIsBalanced | interview_2022_12_20/matching_brackets_validator.py:9-19 | From a stack of openers, the answer is true exactly when stack plus text is a well-nested bracket word. |
| Brackets.FreshMatchesWellNested | interview_2022_12_20/matching_brackets_validator.py:5-19 | A fresh validator answers true exactly on well-nested texts. |
| Brackets.BracketsNeverRaise | interview_2022_12_20/matching_brackets_validator.py:9-19 | A text made only of brackets never raises. |
| Brackets.NonOpenerIsCloser | interview_2022_12_20/matching_brackets_validator.py:13-17 | A non-opener on an empty stack answers false. On a non-empty stack, a character that is not a key raises KeyError. |
| Brackets.LeftoverOpenerCarries | interview_2022_12_20/matching_brackets_validator.py:5-19 | An unmatched `(` stays on the stack, so a later `)` alone is answered true. |
| Brackets.CrossedPairsRejected | interview_2022_12_20/test_matching_brackets_validator.py:70-79 | `([)]` and `[(])` are rejected, and `[()]` is accepted. |
| ResolvingEngine.Register | interview_2022_03_03/resolving_engines/_concrete_engines.py:11-13 | Registering makes the resolver the one for each of its outputs. Every other signal keeps its resolver. |
| ResolvingEngine.RegisterKeepsRegistered | interview_2022_03_03/resolving_engines/_concrete_engines.py:11-13 | Registration keeps every signal pointing to a resolver that declares it. |
| ResolvingEngine.ResolveSpec | interview_2022_03_03/resolving_engines/_concrete_engines.py:15-34 | A known signal returns the known values unchanged. A signal with no resolver fails with a message that names it. A success never loses a known value. |
| ResolvingEngine.InputsResolved | interview_2022_03_03/resolving_engines/_concrete_engines.py:28-30 | After a successful input pass, every input is known. |
| ResolvingEngine.KnownInputsNotRecomputed | interview_2022_03_03/resolving_engines/_concrete_engines.py:18-19 | The input pass gives the same result as a pass over just the inputs unknown at the start, because a known input is skipped at its turn. When every input is known, the known values come back unchanged. |
| ResolvingEngine.ResolvedIsKnown | interview_2022_03_03/resolving_engines/_concrete_engines.py:15-34 | With resolvers that produce what they declare, a successful resolve knows the requested signal. |
| ResolvingEngine.AcyclicWithinDepth | interview_2022_03_03/resolving_engines/_concrete_engines.py:15-34 | Without cycles, a recursion budget above the signal's rank never runs out. |
| ResolvingEngine.ChainResolves | interview_2022_03_03/resolving_engines/tests/test_regular_resolving_engine.py:84-95 | A three-step chain from A = 0 gives B = 1, C = 11 and D = 111. |
| ResolvingEngine.CycleExhaustsDepth | interview_2022_03_03/resolving_engines/_concrete_engines.py:28-30 | Two resolvers that need each other exhaust any recursion budget. |

## Left out

- Prices are exact integers. The source stores floats and `find` compares them with `math.isclose`.
  The messages of NodeNotFoundInTree and OrderNotFoundInNodeOrders therefore show a price as
  `10` where Python's f-string on a float shows `10.0`.
- `float(price)` and `int(size)` in the older dispatcher are parameters, because they parse text the model does not describe.
- `str.isdigit` is restricted to ASCII digits. Unicode digits are not modelled.
- Logging is a list of the lines `log_err` would write. Output streams are not modelled.
- The state left behind by an uncaught exception is not modelled. The run simply ends with the error.
- The older dispatcher uses `DatabaseOrderBook`. It is run here against the tree book, which has the same interface; the database book is not part of this model.
- The draft `interview_2022_03_28/order_processing/tree_order_book.py` is not part of this model. Only `_tree_implementation/tree_order_book.py` is used.
- The traversals `preorder`, `inorder` and `postorder` of `red_black_tree_2.py` only print prices; the in-order sequence itself is `Levels`. `get_root` only returns the root.
- Debug printing of the trees is left out: `print_tree`, `__print_helper` and `tree_show.py` do I/O only. So is the "Cannot find price in the tree" line that `delete_node_helper` of `red_black_tree_2.py` prints before it returns on a missing price; `ClrsTree.Delete` only returns the tree unchanged.
- `find_brother` is folded into the insert fix-up.
- `__transplant` and `transplant` are folded into `Unlink`, `DetachMin` and the zipper's rebuild.
- The embedded tree's `get_minimum` and `get_maximum` (through `minimal_node` and `maximal_node`) and the `get_minimum` and `get_maximum` of `red_black_tree_2.py` are the same walks as `RedBlackTree.Minimum` and `RedBlackTree.Maximum`, and are not restated.
- ClrsTree.Successor: returns the successor's price rather than the node.
- ClrsTree.Predecessor: returns the predecessor's price rather than the node.
- ClrsTree.DeleteSpec: does not claim that delete keeps the red-black rules. `ClrsTree.DeleteBlackLeafUnbalances` shows it does not.
- ClrsTree.InsertRedBlack: requires a black root, which `insert` itself always leaves.
- RedBlackTree.InsertRedBlack: is stated without a rule on the root's colour, because `red_black_tree.py` can leave a red root.
- ResolvingEngine.Resolve: Python's recursion limit is a `depth` budget, and running out of it is `RecursionError`.
- The resolvers' `run` bodies are opaque functions from known values to new values. A failing resolver is `None`.
- The abstract base classes (`OrderBook`, `ResolvingEngine`, `Resolver`, the validator base) carry no behaviour and are not modelled apart from their concrete classes.
