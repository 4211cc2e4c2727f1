/** `MatchingBracketValidator` of `interview_2022_12_20`: a stack-based
    bracket matcher configured by a list of `BracketsDefinition` pairs.

    The stack belongs to the instance and is never cleared, so one call
    starts from whatever openers the previous call left behind; the
    instance is therefore a value that each call returns anew. Python walks
    a string one character at a time, so the character `ch` is the
    one-character string `[ch]` when it meets the definitions. */
module Brackets {
  import opened Orders

  datatype Definition = Definition(opening: string, closing: string)

  /** The instance: the closer-to-opener dictionary and the stack of openers
      still waiting for their closer, innermost last. */
  datatype Validator = Validator(closingToOpening: map<string, string>, stack: string)

  /** `{b.closing: b.opening for b in bracket_definitions}`, one definition
      at a time. */
  function Pairing(defs: seq<Definition>): map<string, string>
    decreases |defs|
  {
    if |defs| == 0 then map[]
    else
      var last := defs[|defs| - 1];
      Pairing(defs[..|defs| - 1])[last.closing := last.opening]
  }

  /** `MatchingBracketValidator(bracket_definitions)`: an empty stack. */
  function New(defs: seq<Definition>): Validator {
    Validator(Pairing(defs), "")
  }

  /** `_is_opening_bracket`: the character is one of the dictionary's values. */
  predicate IsOpener(m: map<string, string>, ch: char) {
    [ch] in m.Values
  }

  /** The character closes `open`: it is no opener (openers are tested first),
      and the dictionary pairs it with `open`. */
  predicate Closes(m: map<string, string>, ch: char, open: char) {
    !IsOpener(m, ch) && [ch] in m && m[[ch]] == [open]
  }

  /** The loop of `do_brackets_match` from a given stack: the answer and the
      stack it leaves. A closer that meets an empty stack answers False; one
      that meets the wrong opener answers False after the pop; a character
      that is neither opener nor key fails the dictionary lookup (KeyError)
      once the stack is non-empty. */
  function Scan(m: map<string, string>, stack: string, txt: string): (r: Outcome<(bool, string)>)
    ensures r.Ok? && r.value.0 ==> r.value.1 == ""
    ensures r.Raise? ==> r.error == KeyError
    decreases |txt|
  {
    if |txt| == 0 then Ok((|stack| == 0, stack))
    else
      var ch := txt[0];
      if IsOpener(m, ch) then Scan(m, stack + [ch], txt[1..])
      else if |stack| == 0 then Ok((false, stack))
      else
        var top := stack[|stack| - 1];
        var rest := stack[..|stack| - 1];
        if [ch] !in m then Raise(KeyError)
        else if [top] != m[[ch]] then Ok((false, rest))
        else Scan(m, rest, txt[1..])
  }

  /** `do_brackets_match`: the answer and the instance as the call leaves it. */
  function DoBracketsMatch(v: Validator, txt: string): (r: Outcome<(bool, Validator)>)
    ensures r.Ok? ==> r.value.1.closingToOpening == v.closingToOpening
  {
    match Scan(v.closingToOpening, v.stack, txt)
    case Raise(e) => Raise(e)
    case Ok((answer, stack)) => Ok((answer, v.(stack := stack)))
  }

  // ---------------------------------------------------------------------------
  // The reference: well-nested strings

  /** The grammar D ::= empty | o D c D, where `c` closes `o`. */
  predicate Balanced(m: map<string, string>, s: string)
    decreases |s|, 1
  {
    |s| == 0 || exists k :: 1 <= k < |s| && Wraps(m, s, k)
  }

  /** `s` is `o D c D` with its `c` at index `k`. */
  predicate Wraps(m: map<string, string>, s: string, k: int)
    requires 1 <= k < |s|
    decreases |s|, 0
  {
    IsOpener(m, s[0]) && Closes(m, s[k], s[0]) && Balanced(m, s[1..k]) && Balanced(m, s[k + 1..])
  }

  predicate AllOpeners(m: map<string, string>, s: string) {
    forall i :: 0 <= i < |s| ==> IsOpener(m, s[i])
  }

  /** Every character is an opener or a key of the dictionary. */
  predicate BracketsOnly(m: map<string, string>, s: string) {
    forall i :: 0 <= i < |s| ==> IsOpener(m, s[i]) || [s[i]] in m
  }

  // ---------------------------------------------------------------------------
  // Lemmas

  /** Every closer is a key of the dictionary, nothing else is, and of two
      definitions sharing a closer the later one wins. */
  lemma {:induction false} PairingSpec(defs: seq<Definition>)
    ensures forall i :: 0 <= i < |defs| ==> defs[i].closing in Pairing(defs)
    ensures forall k :: k in Pairing(defs) ==> exists i :: 0 <= i < |defs| && defs[i].closing == k
    ensures forall i :: 0 <= i < |defs| && (forall j :: i < j < |defs| ==> defs[j].closing != defs[i].closing) ==>
      Pairing(defs)[defs[i].closing] == defs[i].opening
    decreases |defs|
  {
    if |defs| > 0 {
      var init := defs[..|defs| - 1];
      var last := defs[|defs| - 1];
      PairingSpec(init);
      var m := Pairing(defs);
      assert m == Pairing(init)[last.closing := last.opening];
      forall i | 0 <= i < |defs|
        ensures defs[i].closing in m
      {
        if i < |defs| - 1 {
          assert init[i] == defs[i];
        }
      }
      forall k | k in m
        ensures exists i :: 0 <= i < |defs| && defs[i].closing == k
      {
        if k != last.closing {
          var i :| 0 <= i < |init| && init[i].closing == k;
          assert defs[i] == init[i];
        }
      }
      forall i | 0 <= i < |defs| && (forall j :: i < j < |defs| ==> defs[j].closing != defs[i].closing)
        ensures m[defs[i].closing] == defs[i].opening
      {
        if i < |defs| - 1 {
          assert init[i] == defs[i];
          assert defs[|defs| - 1].closing != defs[i].closing;
          assert forall j :: i < j < |init| ==> init[j] == defs[j];
        }
      }
    }
  }

  /** A non-empty well-nested string ends with a closer. */
  lemma {:induction false} BalancedEndsClosed(m: map<string, string>, s: string)
    requires Balanced(m, s) && |s| > 0
    ensures !IsOpener(m, s[|s| - 1])
    decreases |s|
  {
    var k :| 1 <= k < |s| && Wraps(m, s, k);
    if k + 1 < |s| {
      BalancedEndsClosed(m, s[k + 1..]);
      assert s[k + 1..][|s[k + 1..]| - 1] == s[|s| - 1];
    }
  }

  /** A non-empty well-nested string starts with an opener. */
  lemma BalancedStartsOpen(m: map<string, string>, s: string)
    requires Balanced(m, s) && |s| > 0
    ensures IsOpener(m, s[0])
  {
    var k :| 1 <= k < |s| && Wraps(m, s, k);
  }

  lemma OpenersTail(m: map<string, string>, x: string)
    requires AllOpeners(m, x) && |x| > 0
    ensures AllOpeners(m, x[1..]) && AllOpeners(m, x[..|x| - 1])
  {
    assert forall i :: 0 <= i < |x| - 1 ==> x[1..][i] == x[i + 1] && x[..|x| - 1][i] == x[i];
  }

  lemma Regroup(p: string, q: string, r: string, w: string, z: string)
    ensures (p + q) + (r + w + z) == p + (q + r) + w + z
  {
  }

  lemma Regroup2(p: string, q: string, r: string, a: string, w: string, z: string)
    ensures (p + q) + r + (a + w + z) == (p + (q + r + a)) + w + z
  {
  }

  lemma HeadTail(x: string)
    requires |x| > 0
    ensures x == [x[0]] + x[1..]
  {
  }

  lemma InnerSlice(w: string, p: string)
    requires 1 <= |p| <= |w| && w[..|p|] == p
    ensures w[1..|p|] == p[1..]
  {
    assert forall i :: 1 <= i < |p| ==> w[i] == w[..|p|][i];
  }

  lemma DropPrefix(p: string, y: string)
    ensures (p + y)[|p|..] == y
  {
  }

  lemma SplitAt(w: string, i: int, j: int)
    requires 0 <= i <= j < |w|
    ensures w[i..] == w[i..j] + [w[j]] + w[j + 1..]
  {
  }

  lemma Around(p: string, ch: char, z: string)
    ensures var w := p + [ch] + z; w[|p|] == ch && w[..|p|] == p && w[|p| + 1..] == z
  {
  }

  /** The second alternative of the grammar. */
  lemma WrapsOf(m: map<string, string>, o: char, inner: string, c: char, rest: string)
    requires IsOpener(m, o) && Closes(m, c, o) && Balanced(m, inner) && Balanced(m, rest)
    ensures Balanced(m, [o] + inner + [c] + rest)
  {
    var v := [o] + inner + [c] + rest;
    var k := |inner| + 1;
    assert v[0] == o && v[k] == c && v[1..k] == inner && v[k + 1..] == rest;
    assert Wraps(m, v, k);
  }

  /** A well-nested prefix is passed over without touching the stack below it. */
  lemma {:induction false} SkipBalanced(m: map<string, string>, stack: string, s: string, t: string)
    requires Balanced(m, s)
    ensures Scan(m, stack, s + t) == Scan(m, stack, t)
    decreases |s|
  {
    if |s| > 0 {
      var k :| 1 <= k < |s| && Wraps(m, s, k);
      var inner, after := s[1..k], s[k + 1..];
      var st := stack + [s[0]];
      var rest := [s[k]] + (after + t);
      assert s + t == [s[0]] + (inner + rest);
      assert (s + t)[0] == s[0] && (s + t)[1..] == inner + rest;
      assert Scan(m, stack, s + t) == Scan(m, st, inner + rest);
      SkipBalanced(m, st, inner, rest);
      assert rest[0] == s[k] && rest[1..] == after + t;
      assert st[|st| - 1] == s[0] && st[..|st| - 1] == stack;
      assert Scan(m, st, rest) == Scan(m, stack, after + t);
      SkipBalanced(m, stack, after, t);
    } else {
      assert s + t == t;
    }
  }

  /** Taking a matched pair out of a well-nested string whose prefix before
      it is all openers leaves a well-nested string, and the pair matches. */
  lemma {:induction false} CancelPair(m: map<string, string>, x: string, o: char, c: char, y: string)
    requires AllOpeners(m, x) && IsOpener(m, o) && !IsOpener(m, c)
    requires Balanced(m, x + [o, c] + y)
    ensures Closes(m, c, o) && Balanced(m, x + y)
    decreases |x|
  {
    var s := x + [o, c] + y;
    assert s[|x|] == o && s[|x| + 1] == c;
    var k :| 1 <= k < |s| && Wraps(m, s, k);
    assert k >= |x| + 1;
    if |x| == 0 {
      if k > 1 {
        assert s[1..k][0] == c;
        BalancedStartsOpen(m, s[1..k]);
      }
      assert s[k + 1..] == y && x + y == y;
    } else if k == |x| + 1 {
      assert s[1..k] == x[1..] + [o];
      BalancedEndsClosed(m, s[1..k]);
    } else {
      var a := s[1..k];
      var a' := s[|x| + 2..k];
      assert a == x[1..] + [o, c] + a';
      OpenersTail(m, x);
      CancelPair(m, x[1..], o, c, a');
      var inner := x[1..] + a';
      DropPrefix(x + [o, c], y);
      SplitAt(s, |x| + 2, k);
      HeadTail(x);
      Regroup([x[0]], x[1..], a', [s[k]], s[k + 1..]);
      WrapsOf(m, x[0], inner, s[k], s[k + 1..]);
    }
  }

  /** Putting a matched pair next to a well-nested remainder, after a prefix
      of openers, keeps the whole well nested. */
  lemma {:induction false} InsertPair(m: map<string, string>, x: string, o: char, c: char, y: string)
    requires AllOpeners(m, x) && IsOpener(m, o) && Closes(m, c, o)
    requires Balanced(m, x + y)
    ensures Balanced(m, x + [o, c] + y)
    decreases |x|
  {
    var s := x + [o, c] + y;
    if |x| == 0 {
      assert s[0] == o && s[1] == c;
      assert s[1..1] == [] && s[2..] == y && x + y == y;
      assert Balanced(m, s[1..1]);
      assert Wraps(m, s, 1);
    } else {
      var u := x + y;
      var k :| 1 <= k < |u| && Wraps(m, u, k);
      assert k >= |x|;
      var a' := u[|x|..k];
      assert u[1..k] == x[1..] + a';
      OpenersTail(m, x);
      InsertPair(m, x[1..], o, c, a');
      DropPrefix(x, y);
      SplitAt(u, |x|, k);
      var p := [x[0]] + (x[1..] + [o, c] + a');
      HeadTail(x);
      Regroup2([x[0]], x[1..], [o, c], a', [u[k]], u[k + 1..]);
      Around(p, u[k], u[k + 1..]);
      InnerSlice(s, p);
      DropPrefix([x[0]], x[1..] + [o, c] + a');
      assert s[1..k + 2] == x[1..] + [o, c] + a';
      assert s[k + 3..] == u[k + 1..];
      assert s[0] == u[0] && s[k + 2] == u[k];
      assert Wraps(m, s, k + 2);
    }
  }

  /** From a stack of openers, a call answers True exactly when the stack
      followed by the text is well nested: leftover openers count. */
  lemma {:induction false} ScanIsBalanced(m: map<string, string>, stack: string, s: string)
    requires AllOpeners(m, stack)
    ensures Scan(m, stack, s).Ok? && Scan(m, stack, s).value.0 <==> Balanced(m, stack + s)
    decreases |s|
  {
    if |s| == 0 {
      assert stack + s == stack;
      if |stack| > 0 && Balanced(m, stack) {
        BalancedEndsClosed(m, stack);
      }
    } else {
      var ch := s[0];
      if IsOpener(m, ch) {
        assert stack + s == (stack + [ch]) + s[1..];
        assert AllOpeners(m, stack + [ch]) by {
          assert forall i :: 0 <= i < |stack| ==> (stack + [ch])[i] == stack[i];
        }
        ScanIsBalanced(m, stack + [ch], s[1..]);
      } else if |stack| == 0 {
        assert stack + s == s;
        if Balanced(m, s) {
          BalancedStartsOpen(m, s);
        }
      } else {
        var top := stack[|stack| - 1];
        var rest := stack[..|stack| - 1];
        assert stack + s == rest + [top, ch] + s[1..];
        OpenersTail(m, stack);
        if Balanced(m, stack + s) {
          CancelPair(m, rest, top, ch, s[1..]);
        }
        if [ch] in m && [top] == m[[ch]] {
          assert Scan(m, stack, s) == Scan(m, rest, s[1..]);
          ScanIsBalanced(m, rest, s[1..]);
          if Balanced(m, rest + s[1..]) {
            InsertPair(m, rest, top, ch, s[1..]);
          }
        }
      }
    }
  }

  /** On a fresh instance the answer is True exactly for well-nested text. */
  lemma FreshMatchesWellNested(defs: seq<Definition>, txt: string)
    ensures var r := DoBracketsMatch(New(defs), txt);
      r.Ok? && r.value.0 <==> Balanced(Pairing(defs), txt)
  {
    ScanIsBalanced(Pairing(defs), "", txt);
    assert "" + txt == txt;
  }

  /** Over openers and closers only, a scan never raises. */
  lemma {:induction false} BracketsNeverRaise(m: map<string, string>, stack: string, s: string)
    requires BracketsOnly(m, s)
    ensures Scan(m, stack, s).Ok?
    decreases |s|
  {
    if |s| > 0 {
      assert BracketsOnly(m, s[1..]) by {
        assert forall i :: 0 <= i < |s[1..]| ==> s[1..][i] == s[i + 1];
      }
      if IsOpener(m, s[0]) {
        BracketsNeverRaise(m, stack + [s[0]], s[1..]);
      } else if |stack| > 0 {
        BracketsNeverRaise(m, stack[..|stack| - 1], s[1..]);
      }
    }
  }

  /** A character that is not an opener is taken for a closer: with an empty
      stack the answer is False, and when it is no key either, a non-empty
      stack makes the lookup fail. */
  lemma NonOpenerIsCloser(m: map<string, string>, stack: string, ch: char, rest: string)
    requires !IsOpener(m, ch)
    ensures |stack| == 0 ==> Scan(m, stack, [ch] + rest) == Ok((false, stack))
    ensures |stack| > 0 && [ch] !in m ==> Scan(m, stack, [ch] + rest) == Raise(KeyError)
  {
    assert ([ch] + rest)[0] == ch;
  }

  /** The stack is kept between calls: "(" leaves an opener behind, and the
      next ")" on the same instance is answered True, though ")" alone on a
      fresh instance is answered False. */
  lemma LeftoverOpenerCarries()
    ensures var v := New([Definition("(", ")")]);
      && DoBracketsMatch(v, "(") == Ok((false, v.(stack := "(")))
      && DoBracketsMatch(v.(stack := "("), ")") == Ok((true, v))
      && DoBracketsMatch(v, ")") == Ok((false, v))
  {
    var defs := [Definition("(", ")")];
    assert defs[..|defs| - 1] == [];
    var m := Pairing(defs);
    assert m == map[")" := "("];
    assert IsOpener(m, '(') by {
      assert m[")"] == ['('];
    }
    assert !IsOpener(m, ')') by {
      assert forall k :: k in m ==> m[k] == "(" && "(" != [')'];
    }
    assert "(" == "" + ['('];
    assert "(" == ['('] + "" && ")" == [')'] + "";
    assert Scan(m, "(", "") == Ok((false, "("));
    assert Scan(m, "(", ")") == Scan(m, "", "");
  }

  /** The three usual pairs. */
  const Usual := [Definition("(", ")"), Definition("[", "]"), Definition("{", "}")]

  lemma UsualPairing()
    ensures Pairing(Usual) == map[")" := "(", "]" := "[", "}" := "{"]
  {
    var one := [Definition("(", ")")];
    var two := [Definition("(", ")"), Definition("[", "]")];
    assert one[..0] == [];
    assert Pairing(one) == map[")" := "("];
    assert two[..1] == one;
    assert Pairing(two) == map[")" := "(", "]" := "["];
    assert Usual[..2] == two;
  }

  /** Which of the usual characters open and which close what. */
  lemma UsualKinds()
    ensures var m := Pairing(Usual);
      IsOpener(m, '(') && IsOpener(m, '[') && !IsOpener(m, ')') && !IsOpener(m, ']')
      && ")" in m && m[")"] == "(" && "]" in m && m["]"] == "["
  {
    UsualPairing();
    var m := Pairing(Usual);
    assert IsOpener(m, '(') by {
      assert m[")"] == ['('];
    }
    assert IsOpener(m, '[') by {
      assert m["]"] == ['['];
    }
    assert !IsOpener(m, ')') && !IsOpener(m, ']') by {
      assert forall k :: k in m ==> m[k] in {"(", "[", "{"};
      assert [')'] !in {"(", "[", "{"} && [']'] !in {"(", "[", "{"};
    }
  }

  /** One step of the scan over an opener: it is pushed. */
  lemma ScanOpens(m: map<string, string>, stack: string, ch: char, rest: string)
    requires IsOpener(m, ch)
    ensures Scan(m, stack, [ch] + rest) == Scan(m, stack + [ch], rest)
  {
    assert ([ch] + rest)[0] == ch && ([ch] + rest)[1..] == rest;
  }

  /** One step of the scan over a closer: the top opener is popped, and the
      scan goes on when they match and answers False when they do not. */
  lemma ScanCloses(m: map<string, string>, stack: string, ch: char, rest: string)
    requires !IsOpener(m, ch) && |stack| > 0 && [ch] in m
    ensures Scan(m, stack, [ch] + rest)
         == if [stack[|stack| - 1]] == m[[ch]] then Scan(m, stack[..|stack| - 1], rest)
            else Ok((false, stack[..|stack| - 1]))
  {
    assert ([ch] + rest)[0] == ch && ([ch] + rest)[1..] == rest;
  }

  /** The wrong closer on top answers False: "([)]" and "[(])" with the
      three usual pairs, while "[()]" is answered True. */
  lemma CrossedPairsRejected()
    ensures DoBracketsMatch(New(Usual), "([)]") == Ok((false, New(Usual).(stack := "(")))
    ensures DoBracketsMatch(New(Usual), "[(])") == Ok((false, New(Usual).(stack := "[")))
    ensures DoBracketsMatch(New(Usual), "[()]") == Ok((true, New(Usual)))
  {
    UsualKinds();
    var m := Pairing(Usual);
    CrossedCloser(m, '(', '[', ')', ']');
    CrossedCloser(m, '[', '(', ']', ')');
    Nested(m);
  }

  /** Two openers, then a closer that belongs to the first of them: the
      second is popped and does not match. */
  lemma CrossedCloser(m: map<string, string>, a: char, b: char, c: char, d: char)
    requires IsOpener(m, a) && IsOpener(m, b) && !IsOpener(m, c) && [c] in m
    requires m[[c]] == [a] && a != b
    ensures Scan(m, "", [a, b, c, d]) == Ok((false, [a]))
  {
    assert [a, b, c, d] == [a] + [b, c, d] && [b, c, d] == [b] + [c, d] && [c, d] == [c] + [d];
    ScanOpens(m, "", a, [b, c, d]);
    assert "" + [a] == [a];
    ScanOpens(m, [a], b, [c, d]);
    assert [a] + [b] == [a, b] && [a, b][..1] == [a] && [[a, b][1]] == [b];
    ScanCloses(m, [a, b], c, [d]);
  }

  lemma Nested(m: map<string, string>)
    requires IsOpener(m, '(') && IsOpener(m, '[') && !IsOpener(m, ')') && !IsOpener(m, ']')
    requires ")" in m && m[")"] == "(" && "]" in m && m["]"] == "["
    ensures Scan(m, "", "[()]") == Ok((true, ""))
  {
    assert "[()]" == ['['] + "()]" && "()]" == ['('] + ")]" && ")]" == [')'] + "]" && "]" == [']'] + "";
    ScanOpens(m, "", '[', "()]");
    assert "" + ['['] == "[";
    ScanOpens(m, "[", '(', ")]");
    assert "[" + ['('] == "[(" && "[(" [..1] == "[" && ["[("[1]] == "(";
    ScanCloses(m, "[(", ')', "]");
    assert "[" [..0] == "" && ["["[0]] == "[";
    ScanCloses(m, "[", ']', "");
  }
}
