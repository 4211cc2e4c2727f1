/** The two line dispatchers of the order book: `order_processing/process_order.py`,
    which validates each line with the chains before calling the book, and
    the older `process_order.py`, which only splits the line.

    Both run against the tree book. A step returns the new book and the
    diagnostics written to the error stream; a book error (OrderBookError)
    is written as `ERROR: <message>` and leaves the book as it was, while any
    other exception ends the run (Raise). Converting the price field with
    `float` is a parameter: None stands for the ValueError of text Python
    cannot read. */
module ProcessOrder {
  import opened Orders
  import opened Text
  import opened Validators
  import opened TreeOrderBook
  import PL = PriceLevels
  import RB = RedBlackTree

  type PriceParser = string -> Option<Price>
  type IntParser = string -> Option<int>

  datatype Step = Step(book: Book, log: seq<string>)

  /** The `try: ... except OrderBookError as err: log_err("ERROR: " + str(err))`
      around every book call. */
  function Guarded(b: Book, r: Outcome<Book>): Outcome<Step> {
    match r
    case Ok(b') => Ok(Step(b', []))
    case Raise(e) => if e.IsOrderBookError() then Ok(Step(b, [Diagnostic(e.message)])) else Raise(e)
  }

  /** `OrderType.BID if side == "B" else OrderType.ASK`. */
  function SideOf(code: string): Side {
    if code == "B" then Bid else Ask
  }

  /** The order the seven fields of an add line describe. */
  function OrderOf(f: seq<string>, price: Price, size: int): Order
    requires |f| >= 7
  {
    Order(f[1], f[0], f[3], price, size, SideOf(f[4]))
  }

  // ---------------------------------------------------------------------------
  // order_processing/process_order.py

  /** `process_order`: the action chain first; then the one handler field 2
      names (the chain admits only "a", "u" and "c"). */
  function ProcessOrder(b: Book, line: string, parsePrice: PriceParser): Outcome<Step> {
    match Run(ActionChain, line)
    case Raise(e) => Raise(e)
    case Ok(Rejected(d)) => Ok(Step(b, [d]))
    case Ok(Accepted) =>
      ActionChainSpec(line);
      var action := Split(line)[2];
      if action == "c" then HandleCancel(b, line)
      else if action == "u" then HandleUpdate(b, line)
      else HandleAdd(b, line, parsePrice)
  }

  /** `_handle_cancel_action`. */
  function HandleCancel(b: Book, line: string): Outcome<Step> {
    match Run(CancelChain, line)
    case Raise(e) => Raise(e)
    case Ok(Rejected(d)) => Ok(Step(b, [d]))
    case Ok(Accepted) =>
      CancelChainSpec(line);
      Guarded(b, Cancel(b, Split(line)[1]))
  }

  /** `_handle_update_action`: field 3 is all digits once the chain accepts,
      so `int` reads it as its decimal value. */
  function HandleUpdate(b: Book, line: string): Outcome<Step> {
    match Run(UpdateChain, line)
    case Raise(e) => Raise(e)
    case Ok(Rejected(d)) => Ok(Step(b, [d]))
    case Ok(Accepted) =>
      UpdateChainSpec(line);
      var f := Split(line);
      Guarded(b, Update(b, f[1], DigitsValue(f[3])))
  }

  /** `_handle_add_action`: the seven-way unpack fails (ValueError) on longer
      lines, and so does `float` on an unreadable price; neither is caught. */
  function HandleAdd(b: Book, line: string, parsePrice: PriceParser): Outcome<Step> {
    match Run(AddChain, line)
    case Raise(e) => Raise(e)
    case Ok(Rejected(d)) => Ok(Step(b, [d]))
    case Ok(Accepted) =>
      AddChainSpec(line);
      var f := Split(line);
      if |f| != 7 then Raise(ValueError)
      else
        match parsePrice(f[5])
        case None => Raise(ValueError)
        case Some(p) => Guarded(b, AddOrder(b, OrderOf(f, p, DigitsValue(f[6]))))
  }

  // ---------------------------------------------------------------------------
  // process_order.py (the older dispatcher)

  /** The older `process_order`: fields 1 and 2 are read at once; "c" and "u"
      call the book; every other action is an add of exactly seven fields
      whose side must be "B" or "S". `int` is a parameter here because the
      size field is not checked first. */
  function LegacyProcessOrder(b: Book, line: string, parsePrice: PriceParser, parseInt: IntParser): Outcome<Step> {
    var f := Split(line);
    if |f| < 3 then Raise(IndexError)
    else if f[2] == "c" then Guarded(b, Cancel(b, f[1]))
    else if f[2] == "u" then
      if |f| < 4 then Raise(IndexError)
      else
        match parseInt(f[3])
        case None => Raise(ValueError)
        case Some(n) => Guarded(b, Update(b, f[1], n))
    else if |f| != 7 then Raise(ValueError)
    else if !IsSideCode(f[4]) then
      Ok(Step(b, [Diagnostic("Unknown transaction side: " + f[4] + ", not processing order!")]))
    else
      match parsePrice(f[5])
      case None => Raise(ValueError)
      case Some(p) =>
        match parseInt(f[6])
        case None => Raise(ValueError)
        case Some(n) => Guarded(b, AddOrder(b, OrderOf(f, p, n)))
  }

  // ---------------------------------------------------------------------------
  // What a line must look like to reach the book

  /** The line passes the action chain and the chain of its action. */
  predicate Admitted(f: seq<string>) {
    ActionLine(f)
    && (f[2] == "c" ==> CancelLine(f))
    && (f[2] == "u" ==> UpdateLine(f))
    && (f[2] == "a" ==> AddLine(f))
  }

  // ---------------------------------------------------------------------------
  // Lemmas: the validating dispatcher

  /** A line some chain rejects never reaches the book: the book is unchanged
      and exactly one diagnostic is written. */
  lemma RejectedLineChangesNothing(b: Book, line: string, parsePrice: PriceParser)
    requires !Admitted(Split(line))
    ensures var r := ProcessOrder(b, line, parsePrice);
      r.Ok? && r.value.book == b && |r.value.log| == 1 && "ERROR: " <= r.value.log[0]
  {
    ActionChainSpec(line);
    CancelChainSpec(line);
    UpdateChainSpec(line);
    AddChainSpec(line);
  }

  /** An admitted line makes exactly the book call its action names, with
      the id from field 1, the size from field 3 or 6, and for an add the
      order built from the seven fields; longer add lines and unreadable
      prices raise ValueError instead. */
  lemma AdmittedLineCallsBook(b: Book, line: string, parsePrice: PriceParser)
    requires Admitted(Split(line))
    ensures var f := Split(line);
      var r := ProcessOrder(b, line, parsePrice);
      && (f[2] == "c" ==> r == Guarded(b, Cancel(b, f[1])))
      && (f[2] == "u" ==> r == Guarded(b, Update(b, f[1], DigitsValue(f[3]))))
      && (f[2] == "a" && |f| > 7 ==> r == Raise(ValueError))
      && (f[2] == "a" && |f| == 7 && parsePrice(f[5]).None? ==> r == Raise(ValueError))
      && (f[2] == "a" && |f| == 7 && parsePrice(f[5]).Some? ==>
            r == Guarded(b, AddOrder(b, OrderOf(f, parsePrice(f[5]).value, DigitsValue(f[6])))))
  {
    ActionChainSpec(line);
    CancelChainSpec(line);
    UpdateChainSpec(line);
    AddChainSpec(line);
  }

  /** An admitted add line has side "B" or "S", so "S" is the only way to an ASK. */
  lemma AdmittedAddSide(line: string)
    requires Admitted(Split(line)) && Split(line)[2] == "a"
    ensures SideOf(Split(line)[4]) == Bid <==> Split(line)[4] == "B"
    ensures SideOf(Split(line)[4]) == Ask <==> Split(line)[4] == "S"
  {
  }

  /** A cancel or update of an unknown id is logged with the book's message
      and changes nothing. */
  lemma UnknownIdLogged(b: Book, line: string, parsePrice: PriceParser)
    requires Admitted(Split(line)) && Split(line)[1] !in b.ids
    ensures var f := Split(line);
      f[2] == "c" ==>
        ProcessOrder(b, line, parsePrice) == Ok(Step(b, [Diagnostic("Cannot cancel non existing order: " + f[1])]))
    ensures var f := Split(line);
      f[2] == "u" ==>
        ProcessOrder(b, line, parsePrice) == Ok(Step(b, [Diagnostic("Cannot update non existing order: " + f[1])]))
  {
    AdmittedLineCallsBook(b, line, parsePrice);
  }

  /** Every step that completes keeps the book invariant. */
  lemma ProcessOrderKeepsValid(b: Book, line: string, parsePrice: PriceParser)
    requires Valid(b)
    ensures ProcessOrder(b, line, parsePrice).Ok? ==> Valid(ProcessOrder(b, line, parsePrice).value.book)
  {
    var f := Split(line);
    if Admitted(f) {
      AdmittedLineCallsBook(b, line, parsePrice);
      if f[2] == "c" {
        CancelSpec(b, f[1]);
      } else if f[2] == "u" {
        UpdateSpec(b, f[1], DigitsValue(f[3]));
      } else if |f| == 7 && parsePrice(f[5]).Some? {
        AddOrderSpec(b, OrderOf(f, parsePrice(f[5]).value, DigitsValue(f[6])));
      }
    } else {
      RejectedLineChangesNothing(b, line, parsePrice);
    }
  }

  /** Every malformed line of the invalid-input tests, cut into its fields, is
      rejected (`SplitJoin` turns each back into its line). */
  lemma ListedLinesRejected()
    ensures !Admitted([""]) && !Admitted(["kugeakufgauk"]) && !Admitted(["123", "id1"])
    ensures !Admitted(["123", "id1", ""])
    ensures !Admitted(["123", "z42", "INCORRECT-ACTION", "ZZZZ", "B", "7.77777", "1"])
    ensures !Admitted(["123", "z42", "a", "ZZZZ", "INCORRECT-SIDE", "3.3", "71"])
    ensures !Admitted(["123", "z42", "a", "ZZZZ", "B", "3.3", ""])
    ensures !Admitted(["123", "z42", "a", "ZZZZ", "S", "3.3", ""])
    ensures !Admitted(["123", "z42", "a", "ZZZZ", "B", "3.3", "a"])
    ensures !Admitted(["123", "z42", "a", "ZZZZ", "S", "3.3", "a"])
    ensures !Admitted(["123", "z42", "a", "ZZZZ", "B", "3.3", "1a"])
    ensures !Admitted(["123", "z42", "a", "ZZZZ", "S", "3.3", "1a"])
    ensures !Admitted(["123", "z42", "a", "ZZZZ", "B", "3.3", "a1"])
    ensures !Admitted(["123", "z42", "a", "ZZZZ", "S", "3.3", "a1"])
    ensures !Admitted(["123", "z42", "a", "ZZZZ", "B", "3.3", "0"])
    ensures !Admitted(["123", "z42", "a", "ZZZZ", "S", "3.3", "0"])
    ensures !Admitted(["123", "z42", "a", "ZZZZ", "B", "3.3", "-1"])
    ensures !Admitted(["123", "z42", "a", "ZZZZ", "S", "3.3", "-1"])
    ensures !Admitted(["aaa", "z42", "a", "ZZZZ", "S", "3.3", "1"])
    ensures !Admitted(["1aa", "z42", "a", "ZZZZ", "S", "3.3", "1"])
    ensures !Admitted(["aa1", "z42", "a", "ZZZZ", "S", "3.3", "1"])
    ensures !Admitted(["1a1", "z42", "a", "ZZZZ", "S", "3.3", "1"])
    ensures !Admitted(["123", "#1", "a", "ZZZZ", "S", "3.3", "1"])
    ensures !Admitted(["123", "#id", "a", "ZZZZ", "S", "3.3", "1"])
    ensures !Admitted(["123", "1#", "a", "ZZZZ", "S", "3.3", "1"])
    ensures !Admitted(["123", "id#", "a", "ZZZZ", "S", "3.3", "1"])
    ensures !Admitted(["123", "1#2", "a", "ZZZZ", "S", "3.3", "1"])
    ensures !Admitted(["123", "i#d", "a", "ZZZZ", "S", "3.3", "1"]) && !Admitted(["123", "#1", "c"])
    ensures !Admitted(["123", "#id", "c"]) && !Admitted(["123", "1#", "c"])
    ensures !Admitted(["123", "id#", "c"]) && !Admitted(["123", "1#2", "c"])
    ensures !Admitted(["123", "i#d", "c"]) && !Admitted(["123", "#1", "u", "1"])
    ensures !Admitted(["123", "#id", "u", "1"]) && !Admitted(["123", "1#", "u", "1"])
    ensures !Admitted(["123", "id#", "u", "1"]) && !Admitted(["123", "1#2", "u", "1"])
    ensures !Admitted(["123", "i#d", "u", "1"])
  {
    ListedShapesRejected();
    ListedAddFieldsRejected();
    ListedCancelUpdateIdsRejected();
  }

  /** Lines too short, with an unknown action or side, or with a bad size. */
  lemma ListedShapesRejected()
    ensures !Admitted([""]) && !Admitted(["kugeakufgauk"]) && !Admitted(["123", "id1"])
    ensures !Admitted(["123", "id1", ""])
    ensures !Admitted(["123", "z42", "INCORRECT-ACTION", "ZZZZ", "B", "7.77777", "1"])
    ensures !Admitted(["123", "z42", "a", "ZZZZ", "INCORRECT-SIDE", "3.3", "71"])
    ensures !Admitted(["123", "z42", "a", "ZZZZ", "B", "3.3", ""])
    ensures !Admitted(["123", "z42", "a", "ZZZZ", "S", "3.3", ""])
    ensures !Admitted(["123", "z42", "a", "ZZZZ", "B", "3.3", "a"])
    ensures !Admitted(["123", "z42", "a", "ZZZZ", "S", "3.3", "a"])
    ensures !Admitted(["123", "z42", "a", "ZZZZ", "B", "3.3", "1a"])
    ensures !Admitted(["123", "z42", "a", "ZZZZ", "S", "3.3", "1a"])
    ensures !Admitted(["123", "z42", "a", "ZZZZ", "B", "3.3", "a1"])
    ensures !Admitted(["123", "z42", "a", "ZZZZ", "S", "3.3", "a1"])
    ensures !Admitted(["123", "z42", "a", "ZZZZ", "B", "3.3", "0"])
    ensures !Admitted(["123", "z42", "a", "ZZZZ", "S", "3.3", "0"])
    ensures !Admitted(["123", "z42", "a", "ZZZZ", "B", "3.3", "-1"])
    ensures !Admitted(["123", "z42", "a", "ZZZZ", "S", "3.3", "-1"])
  {
    SizeFormats();
  }

  /** Adds whose timestamp or id is malformed. */
  lemma ListedAddFieldsRejected()
    ensures !Admitted(["aaa", "z42", "a", "ZZZZ", "S", "3.3", "1"])
    ensures !Admitted(["1aa", "z42", "a", "ZZZZ", "S", "3.3", "1"])
    ensures !Admitted(["aa1", "z42", "a", "ZZZZ", "S", "3.3", "1"])
    ensures !Admitted(["1a1", "z42", "a", "ZZZZ", "S", "3.3", "1"])
    ensures !Admitted(["123", "#1", "a", "ZZZZ", "S", "3.3", "1"])
    ensures !Admitted(["123", "#id", "a", "ZZZZ", "S", "3.3", "1"])
    ensures !Admitted(["123", "1#", "a", "ZZZZ", "S", "3.3", "1"])
    ensures !Admitted(["123", "id#", "a", "ZZZZ", "S", "3.3", "1"])
    ensures !Admitted(["123", "1#2", "a", "ZZZZ", "S", "3.3", "1"])
    ensures !Admitted(["123", "i#d", "a", "ZZZZ", "S", "3.3", "1"])
  {
    OrderIdFormats();
    TimestampFormats();
  }

  /** Cancels and updates whose id is malformed. */
  lemma ListedCancelUpdateIdsRejected()
    ensures !Admitted(["123", "#1", "c"]) && !Admitted(["123", "#id", "c"])
    ensures !Admitted(["123", "1#", "c"]) && !Admitted(["123", "id#", "c"])
    ensures !Admitted(["123", "1#2", "c"]) && !Admitted(["123", "i#d", "c"])
    ensures !Admitted(["123", "#1", "u", "1"]) && !Admitted(["123", "#id", "u", "1"])
    ensures !Admitted(["123", "1#", "u", "1"]) && !Admitted(["123", "id#", "u", "1"])
    ensures !Admitted(["123", "1#2", "u", "1"]) && !Admitted(["123", "i#d", "u", "1"])
  {
    OrderIdFormats();
  }

  /** The malformed cancels and updates sent while an order `bid1` rests are
      rejected as well, so they cannot touch that order. */
  lemma ListedLinesAgainstRestingOrderRejected()
    ensures !Admitted(["aa", "bid1", "c"]) && !Admitted(["1a", "bid1", "c"])
    ensures !Admitted(["a1", "bid1", "c"]) && !Admitted(["1a1", "bid1", "c"])
    ensures !Admitted(["123", "bid1", "u"]) && !Admitted(["123", "bid1", "u", ""])
    ensures !Admitted(["123", "bid1", "u", "a"]) && !Admitted(["123", "bid1", "u", "1a"])
    ensures !Admitted(["123", "bid1", "u", "a1"]) && !Admitted(["123", "bid1", "u", "0"])
    ensures !Admitted(["123", "bid1", "u", "-1"]) && !Admitted(["aa", "bid1", "u", "1"])
    ensures !Admitted(["1a", "bid1", "u", "1"]) && !Admitted(["a1", "bid1", "u", "1"])
    ensures !Admitted(["1a1", "bid1", "u", "1"])
  {
    SizeFormats();
    OrderIdFormats();
    TimestampFormats();
  }

  // ---------------------------------------------------------------------------
  // Lemmas: the older dispatcher

  /** Fewer than three fields: IndexError before anything else. */
  lemma LegacyShortLine(b: Book, line: string, parsePrice: PriceParser, parseInt: IntParser)
    requires |Split(line)| < 3
    ensures LegacyProcessOrder(b, line, parsePrice, parseInt) == Raise(IndexError)
  {
  }

  /** Any action other than "c" and "u" is an add: a wrong side is logged and
      adds nothing, a line of other than seven fields raises ValueError. */
  lemma LegacyOtherActionsAdd(b: Book, line: string, parsePrice: PriceParser, parseInt: IntParser)
    requires |Split(line)| >= 3 && Split(line)[2] != "c" && Split(line)[2] != "u"
    ensures var f := Split(line);
      var r := LegacyProcessOrder(b, line, parsePrice, parseInt);
      && (|f| != 7 ==> r == Raise(ValueError))
      && (|f| == 7 && !IsSideCode(f[4]) ==> r.Ok? && r.value.book == b && |r.value.log| == 1)
      && (|f| == 7 && IsSideCode(f[4]) && parsePrice(f[5]).Some? && parseInt(f[6]).Some? ==>
            r == Guarded(b, AddOrder(b, OrderOf(f, parsePrice(f[5]).value, parseInt(f[6]).value))))
  {
  }

  /** Whatever line reaches it, the older dispatcher keeps the book's
      invariant whenever it returns. */
  lemma LegacyProcessOrderKeepsValid(b: Book, line: string, parsePrice: PriceParser, parseInt: IntParser)
    requires Valid(b)
    ensures LegacyProcessOrder(b, line, parsePrice, parseInt).Ok? ==>
              Valid(LegacyProcessOrder(b, line, parsePrice, parseInt).value.book)
  {
    var f := Split(line);
    if |f| >= 3 {
      if f[2] == "c" {
        CancelSpec(b, f[1]);
      } else if f[2] == "u" {
        if |f| >= 4 && parseInt(f[3]).Some? {
          UpdateSpec(b, f[1], parseInt(f[3]).value);
        }
      } else if |f| == 7 && parsePrice(f[5]).Some? && parseInt(f[6]).Some? {
        AddOrderSpec(b, OrderOf(f, parsePrice(f[5]).value, parseInt(f[6]).value));
      }
    }
  }

  /** The two dispatchers part ways on an unknown action: the validating one
      logs it and leaves the book alone, ... */
  lemma UnknownActionRejected(b: Book, parsePrice: PriceParser)
    ensures ProcessOrder(b, Join(["1", "z42", "x", "T", "B", "5", "1"]), parsePrice)
        == Ok(Step(b, [Diagnostic("Cannot process order, unknown action: x")]))
  {
    var f := ["1", "z42", "x", "T", "B", "5", "1"];
    SplitJoin(f);
    var line := Join(f);
    assert Examine(FieldCount(3), line) == Ok(None);
    assert !IsActionCode(f[2]) by {
      assert f[2] == "x" && "x"[0] != 'a' && "x"[0] != 'u' && "x"[0] != 'c';
    }
    assert Complaint(ActionCode, f, line) == Some("Cannot process order, unknown action: " + f[2]);
    assert "Cannot process order, unknown action: " + f[2] == "Cannot process order, unknown action: x";
    assert Examine(ActionCode, line) == Ok(Some(Diagnostic("Cannot process order, unknown action: x")));
  }

  /** ... while the older one adds the order. */
  lemma UnknownActionAdded(parsePrice: PriceParser, parseInt: IntParser)
    requires parsePrice("5") == Some(5) && parseInt("1") == Some(1)
    ensures var r := LegacyProcessOrder(Empty, Join(["1", "z42", "x", "T", "B", "5", "1"]), parsePrice, parseInt);
      r.Ok? && r.value.log == [] && BestBid(r.value.book, "T") == 5
  {
    var f := ["1", "z42", "x", "T", "B", "5", "1"];
    SplitJoin(f);
    var line := Join(f);
    assert Split(line) == f;
    assert f[2] != "c" && f[2] != "u" && |f| == 7 && IsSideCode(f[4]);
    var o := OrderOf(f, 5, 1);
    assert o == Order("z42", "1", "T", 5, 1, Bid);
    assert LegacyProcessOrder(Empty, line, parsePrice, parseInt) == Guarded(Empty, AddOrder(Empty, o));
    BidIntoEmpty(o);
  }

  /** A bid added to an empty book is that ticker's best bid. */
  lemma BidIntoEmpty(o: Order)
    requires o.size != 0 && o.side == Bid
    ensures AddOrder(Empty, o).Ok?
    ensures Guarded(Empty, AddOrder(Empty, o)).Ok?
    ensures Guarded(Empty, AddOrder(Empty, o)).value.log == []
    ensures BestBid(AddOrder(Empty, o).value, o.ticker) == o.price
  {
    var b := AddOrder(Empty, o);
    assert b.Ok?;
    assert b.value.tickers[o.ticker].bids == RB.Insert(RB.Leaf, o);
  }
}
