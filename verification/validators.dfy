/** The order-line validators of `validators/_concrete_validators.py` and the
    four chains `validators/validator_factory.py` assembles.

    A line is `timestamp|id|action|...`, cut into fields at every `|` as
    Python's `str.split("|")` does. A chain is a sequence of checks; the
    empty sequence is `NullOrderValidator`, which accepts. A check that
    rejects logs one diagnostic and stops the chain; a check that reads a
    field the line does not have raises IndexError. */
module Validators {
  import opened Orders
  import opened Text

  // ---------------------------------------------------------------------------
  // Fields

  const Separator: char := '|'

  /** `line.split("|")`: at least one field, none containing the separator. */
  function Split(line: string): (fields: seq<string>)
    ensures |fields| >= 1
    ensures forall i :: 0 <= i < |fields| ==> Separator !in fields[i]
    decreases |line|
  {
    if |line| == 0 then [""]
    else
      var rest := Split(line[1..]);
      if line[0] == Separator then [""] + rest
      else [[line[0]] + rest[0]] + rest[1..]
  }

  /** `"|".join(fields)`. */
  function Join(fields: seq<string>): string
    requires |fields| >= 1
    decreases |fields|
  {
    if |fields| == 1 then fields[0] else fields[0] + [Separator] + Join(fields[1..])
  }

  // ---------------------------------------------------------------------------
  // Field formats

  predicate IsAsciiLetterOrDigit(c: char) {
    'a' <= c <= 'z' || 'A' <= c <= 'Z' || IsDigit(c)
  }

  predicate IsAlnumRun(s: string) {
    |s| > 0 && forall i :: 0 <= i < |s| ==> IsAsciiLetterOrDigit(s[i])
  }

  /** `re.match("^[a-zA-Z0-9]+$", s)`: `$` also matches before a final newline. */
  predicate IsOrderIdFormat(s: string) {
    IsAlnumRun(s) || (|s| >= 2 && s[|s| - 1] == '\n' && IsAlnumRun(s[..|s| - 1]))
  }

  /** `s.isdigit()` and `int(s) >= 1`. */
  predicate IsPositiveSize(s: string) {
    IsDigits(s) && DigitsValue(s) >= 1
  }

  predicate IsActionCode(s: string) {
    s == "a" || s == "u" || s == "c"
  }

  predicate IsSideCode(s: string) {
    s == "B" || s == "S"
  }

  // ---------------------------------------------------------------------------
  // Checks and chains

  /** The six concrete validators. */
  datatype Check =
    | FieldCount(required: nat)   // NumOfOrderFieldsValidator
    | ActionCode                  // ActionValidator, field 2
    | Timestamp                   // TimestampValidator, field 0
    | OrderIdFormat               // OrderIdValidator, field 1
    | SizeAt(index: nat)          // SizeValidator
    | SideCode                    // SideValidator, field 4

  /** How many fields a check reads. */
  function Needs(c: Check): nat {
    match c
    case FieldCount(_) => 0
    case ActionCode => 3
    case Timestamp => 1
    case OrderIdFormat => 2
    case SizeAt(i) => i + 1
    case SideCode => 5
  }

  datatype Verdict = Accepted | Rejected(diagnostic: string)

  /** A line `log_err` writes. */
  function Diagnostic(text: string): (d: string)
    ensures "ERROR: " <= d && d[|"ERROR: "|..] == text
  {
    "ERROR: " + text
  }

  /** What one check's `is_valid` does with fields it can read, before it
      defers to the next link: None when the field passes, the text it logs
      (after `ERROR: `) when it does not. */
  function Complaint(c: Check, f: seq<string>, line: string): (d: Option<string>)
    requires Needs(c) <= |f|
  {
    match c
    case FieldCount(n) =>
      if |f| < n then
        Some("Order should have at least " + NatToString(n) + " fields, received: " + line)
      else None
    case ActionCode =>
      if IsActionCode(f[2]) then None
      else Some("Cannot process order, unknown action: " + f[2])
    case Timestamp =>
      if IsDigits(f[0]) then None
      else Some("Timestamp should be a unit unixstamp, received: " + f[0])
    case OrderIdFormat =>
      if IsOrderIdFormat(f[1]) then None
      else Some("Format of order id is incorrect, received: " + f[1])
    case SizeAt(i) =>
      if !IsDigits(f[i]) then Some("Size should be a number, received: " + f[i])
      else if DigitsValue(f[i]) < 1 then Some("Size should be positive, received: " + f[i])
      else None
    case SideCode =>
      if IsSideCode(f[4]) then None
      else Some("Unknown transaction side: " + f[4] + ", not processing order!")
  }

  /** One check on the fields of a line: IndexError exactly when it reads a
      missing field. */
  function ExamineOn(c: Check, f: seq<string>, line: string): (r: Outcome<Option<string>>)
    ensures r.Raise? <==> |f| < Needs(c)
    ensures r.Raise? ==> r.error == IndexError
    ensures r.Ok? && r.value.Some? ==> "ERROR: " <= r.value.value
  {
    if |f| < Needs(c) then Raise(IndexError)
    else match Complaint(c, f, line)
      case None => Ok(None)
      case Some(text) => Ok(Some(Diagnostic(text)))
  }

  /** `is_valid` of one validator: split the line, then check its fields. */
  function Examine(c: Check, line: string): (r: Outcome<Option<string>>)
    ensures r.Raise? <==> |Split(line)| < Needs(c)
    ensures r.Raise? ==> r.error == IndexError
    ensures r.Ok? && r.value.Some? ==> "ERROR: " <= r.value.value
  {
    ExamineOn(c, Split(line), line)
  }

  /** The chain on the fields of a line; `NullOrderValidator` at the end. */
  function RunOn(chain: seq<Check>, f: seq<string>, line: string): (r: Outcome<Verdict>)
    ensures r.Raise? ==> r.error == IndexError
    ensures r.Ok? && r.value.Rejected? ==> "ERROR: " <= r.value.diagnostic
    decreases |chain|
  {
    if |chain| == 0 then Ok(Accepted)
    else
      match ExamineOn(chain[0], f, line)
      case Raise(e) => Raise(e)
      case Ok(Some(d)) => Ok(Rejected(d))
      case Ok(None) => RunOn(chain[1..], f, line)
  }

  /** `is_valid` of the chain's first link. Every link splits the same line
      the same way, so the chain runs on one list of fields. */
  function Run(chain: seq<Check>, line: string): (r: Outcome<Verdict>)
    ensures r.Raise? ==> r.error == IndexError
    ensures r.Ok? && r.value.Rejected? ==> "ERROR: " <= r.value.diagnostic
  {
    RunOn(chain, Split(line), line)
  }

  /** `create_action_validator`. */
  const ActionChain: seq<Check> := [FieldCount(3), ActionCode]

  /** `create_cancel_validator`. */
  const CancelChain: seq<Check> := [FieldCount(3), Timestamp, OrderIdFormat]

  /** `create_update_validator`. */
  const UpdateChain: seq<Check> := [FieldCount(4), Timestamp, OrderIdFormat, SizeAt(3)]

  /** `create_add_validator`: ticker (field 3) and price (field 5) are not checked. */
  const AddChain: seq<Check> := [FieldCount(7), Timestamp, OrderIdFormat, SideCode, SizeAt(6)]

  // ---------------------------------------------------------------------------
  // What each chain accepts, stated field by field

  predicate ActionLine(f: seq<string>) {
    |f| >= 3 && IsActionCode(f[2])
  }

  predicate CancelLine(f: seq<string>) {
    |f| >= 3 && IsDigits(f[0]) && IsOrderIdFormat(f[1])
  }

  predicate UpdateLine(f: seq<string>) {
    |f| >= 4 && IsDigits(f[0]) && IsOrderIdFormat(f[1]) && IsPositiveSize(f[3])
  }

  predicate AddLine(f: seq<string>) {
    |f| >= 7 && IsDigits(f[0]) && IsOrderIdFormat(f[1]) && IsSideCode(f[4]) && IsPositiveSize(f[6])
  }

  /** A field-count check first, and no later check reads past that count. */
  predicate CountsFirst(chain: seq<Check>) {
    |chain| >= 1 && chain[0].FieldCount?
    && forall i :: 1 <= i < |chain| ==> !chain[i].FieldCount? && Needs(chain[i]) <= chain[0].required
  }

  // ---------------------------------------------------------------------------
  // Lemmas: splitting

  lemma {:induction false} SplitPrefix(a: string, t: string)
    requires Separator !in a
    ensures Split(a + t) == [a + Split(t)[0]] + Split(t)[1..]
    decreases |a|
  {
    if |a| > 0 {
      assert (a + t)[1..] == a[1..] + t;
      SplitPrefix(a[1..], t);
      assert [a[0]] + (a[1..] + Split(t)[0]) == a + Split(t)[0];
    } else {
      assert a + t == t;
      assert Split(t) == [Split(t)[0]] + Split(t)[1..];
      assert a + Split(t)[0] == Split(t)[0];
    }
  }

  /** Splitting a joined list of separator-free fields gives the fields back. */
  lemma {:induction false} SplitJoin(fields: seq<string>)
    requires |fields| >= 1
    requires forall i :: 0 <= i < |fields| ==> Separator !in fields[i]
    ensures Split(Join(fields)) == fields
    decreases |fields|
  {
    if |fields| == 1 {
      SplitPrefix(fields[0], "");
      assert fields[0] + "" == fields[0];
    } else {
      var rest := Join(fields[1..]);
      SplitJoin(fields[1..]);
      assert Join(fields) == fields[0] + ([Separator] + rest);
      SplitPrefix(fields[0], [Separator] + rest);
      assert ([Separator] + rest)[1..] == rest;
      assert fields[0] + "" == fields[0];
      assert fields == [fields[0]] + fields[1..];
    }
  }

  /** Joining the fields of a line gives the line back. */
  lemma {:induction false} JoinSplit(line: string)
    ensures Join(Split(line)) == line
    decreases |line|
  {
    if |line| > 0 {
      var rest := Split(line[1..]);
      JoinSplit(line[1..]);
      if line[0] != Separator {
        JoinPrepend(line[0], rest);
      } else {
        JoinAfterEmpty(rest);
      }
      assert line == [line[0]] + line[1..];
    }
  }

  /** A character put in front of the first field comes first in the join. */
  lemma JoinPrepend(c: char, fields: seq<string>)
    requires |fields| >= 1
    ensures Join([[c] + fields[0]] + fields[1..]) == [c] + Join(fields)
  {
    var g := [[c] + fields[0]] + fields[1..];
    assert g[0] == [c] + fields[0] && g[1..] == fields[1..];
    if |fields| > 1 {
      JoinLongerHead(c, g, fields);
    }
  }

  lemma JoinLongerHead(c: char, g: seq<string>, fields: seq<string>)
    requires |g| == |fields| > 1 && g[0] == [c] + fields[0] && g[1..] == fields[1..]
    ensures Join(g) == [c] + Join(fields)
  {
    var w, rest := fields[0], [Separator] + Join(fields[1..]);
    assert Join(g) == ([c] + w) + rest;
    assert Join(fields) == w + rest;
    StringAssoc([c], w, rest);
  }

  lemma StringAssoc(a: string, b: string, c: string)
    ensures (a + b) + c == a + (b + c)
  {
  }

  /** An empty first field joins to a leading separator. */
  lemma JoinAfterEmpty(fields: seq<string>)
    requires |fields| >= 1
    ensures Join([""] + fields) == [Separator] + Join(fields)
  {
    var g := [""] + fields;
    assert g[0] == "" && g[1..] == fields;
  }

  // ---------------------------------------------------------------------------
  // Lemmas: chains

  /** Checks that read only fields the line has never raise; the chain then
      accepts exactly when every check stays silent. */
  lemma {:induction false} RunWithinFields(chain: seq<Check>, f: seq<string>, line: string)
    requires forall i :: 0 <= i < |chain| ==> Needs(chain[i]) <= |f|
    ensures RunOn(chain, f, line).Ok?
    ensures RunOn(chain, f, line) == Ok(Accepted)
        <==> forall i :: 0 <= i < |chain| ==> ExamineOn(chain[i], f, line) == Ok(None)
    decreases |chain|
  {
    if |chain| > 0 {
      RunWithinFields(chain[1..], f, line);
      if ExamineOn(chain[0], f, line) == Ok(None) {
        forall i | 1 <= i < |chain|
          ensures ExamineOn(chain[i], f, line) == ExamineOn(chain[1..][i - 1], f, line)
        {
        }
      }
    }
  }

  /** A chain that counts the fields first never reads a missing field. */
  lemma CountsFirstNeverRaises(chain: seq<Check>, line: string)
    requires CountsFirst(chain)
    ensures Run(chain, line).Ok?
  {
    var f := Split(line);
    if |f| >= chain[0].required {
      RunWithinFields(chain, f, line);
    }
  }

  /** Every chain the factory builds counts the fields first. */
  lemma FactoryChainsCountFirst()
    ensures CountsFirst(ActionChain) && CountsFirst(CancelChain)
    ensures CountsFirst(UpdateChain) && CountsFirst(AddChain)
  {
  }

  /** The test one check applies to fields it can read. */
  predicate Passes(c: Check, f: seq<string>)
    requires Needs(c) <= |f|
  {
    match c
    case FieldCount(n) => |f| >= n
    case ActionCode => IsActionCode(f[2])
    case Timestamp => IsDigits(f[0])
    case OrderIdFormat => IsOrderIdFormat(f[1])
    case SizeAt(i) => IsPositiveSize(f[i])
    case SideCode => IsSideCode(f[4])
  }

  /** One more check in front of a chain: the fields are accepted exactly when
      they pass that check and the rest of the chain accepts them. */
  lemma RunCons(c: Check, rest: seq<Check>, f: seq<string>, line: string)
    requires Needs(c) <= |f|
    ensures RunOn([c] + rest, f, line) == Ok(Accepted)
        <==> Passes(c, f) && RunOn(rest, f, line) == Ok(Accepted)
  {
    assert ([c] + rest)[0] == c && ([c] + rest)[1..] == rest;
  }

  /** Fields too few for a chain's field count are rejected by that count. */
  lemma ShortLineRejected(chain: seq<Check>, f: seq<string>, line: string)
    requires |chain| > 0 && chain[0].FieldCount? && |f| < chain[0].required
    ensures RunOn(chain, f, line).Ok? && RunOn(chain, f, line).value.Rejected?
  {
  }

  /** Chains of two to five checks that can all read their fields accept
      exactly when every check passes. */
  lemma RunTwo(c0: Check, c1: Check, f: seq<string>, line: string)
    requires Needs(c0) <= |f| && Needs(c1) <= |f|
    ensures RunOn([c0, c1], f, line) == Ok(Accepted) <==> Passes(c0, f) && Passes(c1, f)
  {
    RunCons(c1, [], f, line);
    assert [c1] + [] == [c1];
    RunCons(c0, [c1], f, line);
    assert [c0] + [c1] == [c0, c1];
  }

  lemma RunThree(c0: Check, c1: Check, c2: Check, f: seq<string>, line: string)
    requires Needs(c0) <= |f| && Needs(c1) <= |f| && Needs(c2) <= |f|
    ensures RunOn([c0, c1, c2], f, line) == Ok(Accepted)
        <==> Passes(c0, f) && Passes(c1, f) && Passes(c2, f)
  {
    RunTwo(c1, c2, f, line);
    RunCons(c0, [c1, c2], f, line);
    assert [c0] + [c1, c2] == [c0, c1, c2];
  }

  lemma RunFour(c0: Check, c1: Check, c2: Check, c3: Check, f: seq<string>, line: string)
    requires Needs(c0) <= |f| && Needs(c1) <= |f| && Needs(c2) <= |f| && Needs(c3) <= |f|
    ensures RunOn([c0, c1, c2, c3], f, line) == Ok(Accepted)
        <==> Passes(c0, f) && Passes(c1, f) && Passes(c2, f) && Passes(c3, f)
  {
    RunThree(c1, c2, c3, f, line);
    RunCons(c0, [c1, c2, c3], f, line);
    assert [c0] + [c1, c2, c3] == [c0, c1, c2, c3];
  }

  lemma RunFive(c0: Check, c1: Check, c2: Check, c3: Check, c4: Check, f: seq<string>, line: string)
    requires Needs(c0) <= |f| && Needs(c1) <= |f| && Needs(c2) <= |f| && Needs(c3) <= |f|
    requires Needs(c4) <= |f|
    ensures RunOn([c0, c1, c2, c3, c4], f, line) == Ok(Accepted)
        <==> Passes(c0, f) && Passes(c1, f) && Passes(c2, f) && Passes(c3, f) && Passes(c4, f)
  {
    RunFour(c1, c2, c3, c4, f, line);
    RunCons(c0, [c1, c2, c3, c4], f, line);
    assert [c0] + [c1, c2, c3, c4] == [c0, c1, c2, c3, c4];
  }

  /** The action chain accepts exactly the lines with three fields and a known
      action code, and raises on none. */
  lemma ActionChainSpec(line: string)
    ensures Run(ActionChain, line).Ok?
    ensures Run(ActionChain, line) == Ok(Accepted) <==> ActionLine(Split(line))
  {
    CountsFirstNeverRaises(ActionChain, line);
    ActionChainOn(Split(line), line);
  }

  lemma ActionChainOn(f: seq<string>, line: string)
    ensures RunOn(ActionChain, f, line) == Ok(Accepted) <==> ActionLine(f)
  {
    if |f| >= 3 {
      RunTwo(FieldCount(3), ActionCode, f, line);
    } else {
      ShortLineRejected(ActionChain, f, line);
    }
  }

  lemma CancelChainSpec(line: string)
    ensures Run(CancelChain, line).Ok?
    ensures Run(CancelChain, line) == Ok(Accepted) <==> CancelLine(Split(line))
  {
    CountsFirstNeverRaises(CancelChain, line);
    CancelChainOn(Split(line), line);
  }

  lemma CancelChainOn(f: seq<string>, line: string)
    ensures RunOn(CancelChain, f, line) == Ok(Accepted) <==> CancelLine(f)
  {
    if |f| >= 3 {
      RunThree(FieldCount(3), Timestamp, OrderIdFormat, f, line);
    } else {
      ShortLineRejected(CancelChain, f, line);
    }
  }

  lemma UpdateChainSpec(line: string)
    ensures Run(UpdateChain, line).Ok?
    ensures Run(UpdateChain, line) == Ok(Accepted) <==> UpdateLine(Split(line))
  {
    CountsFirstNeverRaises(UpdateChain, line);
    UpdateChainOn(Split(line), line);
  }

  lemma UpdateChainOn(f: seq<string>, line: string)
    ensures RunOn(UpdateChain, f, line) == Ok(Accepted) <==> UpdateLine(f)
  {
    if |f| >= 4 {
      RunFour(FieldCount(4), Timestamp, OrderIdFormat, SizeAt(3), f, line);
    } else {
      ShortLineRejected(UpdateChain, f, line);
    }
  }

  lemma AddChainSpec(line: string)
    ensures Run(AddChain, line).Ok?
    ensures Run(AddChain, line) == Ok(Accepted) <==> AddLine(Split(line))
  {
    CountsFirstNeverRaises(AddChain, line);
    AddChainOn(Split(line), line);
  }

  lemma AddChainOn(f: seq<string>, line: string)
    ensures RunOn(AddChain, f, line) == Ok(Accepted) <==> AddLine(f)
  {
    if |f| >= 7 {
      RunFive(FieldCount(7), Timestamp, OrderIdFormat, SideCode, SizeAt(6), f, line);
    } else {
      ShortLineRejected(AddChain, f, line);
    }
  }

  /** The size check rejects the empty field, letters, zero and a sign, and
      accepts 1. */
  lemma SizeFormats()
    ensures !IsPositiveSize("") && !IsPositiveSize("a") && !IsPositiveSize("1a")
    ensures !IsPositiveSize("a1") && !IsPositiveSize("0") && !IsPositiveSize("-1")
    ensures IsPositiveSize("1") && IsPositiveSize("10")
  {
    assert !IsDigit('a') && !IsDigit('-');
    assert DigitsValue("0") == 0;
    assert DigitsValue("1") == 1;
    assert DigitsValue("10") == 10 by {
      assert "10"[..1] == "1";
    }
  }

  /** The order id check rejects `#` anywhere and accepts letters and digits,
      and, through `$`, one trailing newline. */
  lemma OrderIdFormats()
    ensures !IsOrderIdFormat("") && !IsOrderIdFormat("#1") && !IsOrderIdFormat("i#d")
    ensures !IsOrderIdFormat("id#") && !IsOrderIdFormat("#id") && !IsOrderIdFormat("1#")
    ensures !IsOrderIdFormat("1#2") && !IsOrderIdFormat("\n")
    ensures IsOrderIdFormat("bid1") && IsOrderIdFormat("z42") && IsOrderIdFormat("z42\n")
  {
    assert !IsAsciiLetterOrDigit('#') && !IsAsciiLetterOrDigit('\n');
    assert "#1"[0] == '#' && "i#d"[1] == '#' && "id#"[2] == '#' && "\n"[0] == '\n';
    assert "#id"[0] == '#' && "1#"[1] == '#' && "1#2"[1] == '#';
    assert "z42\n"[..3] == "z42";
  }

  /** The timestamp check `isdigit` rejects any letter in the field. */
  lemma TimestampFormats()
    ensures !IsDigits("aa") && !IsDigits("1a") && !IsDigits("a1") && !IsDigits("1a1")
    ensures !IsDigits("aaa") && !IsDigits("1aa") && !IsDigits("aa1")
    ensures IsDigits("123")
  {
    assert !IsDigit('a');
    assert "1a"[1] == 'a' && "a1"[0] == 'a' && "1a1"[1] == 'a';
    assert "aa"[0] == 'a' && "aaa"[0] == 'a' && "1aa"[1] == 'a' && "aa1"[0] == 'a';
  }
}
