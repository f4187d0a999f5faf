/**
  The emitted query is one parenthesised s-expression whenever no field name,
  term text or phrase word contains a parenthesis. Because values are inserted
  as they are, a parenthesis inside a value breaks the nesting.
 */
module Nesting {
  import opened Wrappers
  import opened Clauses
  import opened Emitter
  import opened EmitShapes

  /** Opening minus closing parentheses. */
  function Net(s: string): int
  {
    if s == [] then 0
    else (if s[0] == '(' then 1 else if s[0] == ')' then -1 else 0) + Net(s[1..])
  }

  /** Every prefix closes no more than it opened, and the whole closes all. */
  predicate Balanced(s: string)
  {
    Net(s) == 0 && forall i | 0 <= i <= |s| :: Net(s[..i]) >= 0
  }

  /** A single parenthesised group: only the last character closes the first. */
  predicate OneGroup(s: string)
  {
    |s| >= 2 && Net(s) == 0 && forall i | 0 < i < |s| :: Net(s[..i]) > 0
  }

  predicate ParenFree(s: string)
  {
    '(' !in s && ')' !in s
  }

  /** No field name, text or word in the tree holds a parenthesis. */
  predicate ClauseParenFree(c: Clause)
  {
    match c
    case Term(field, text, _) => ParenFree(field) && ParenFree(text)
    case Phrase(field, words, _) => ParenFree(field) && forall w | w in words :: ParenFree(w)
    case And(cs) => forall x | x in cs :: ClauseParenFree(x)
    case Or(cs) => forall x | x in cs :: ClauseParenFree(x)
    case Not(x) => ClauseParenFree(x)
    case AndNot(use, avoid) => ClauseParenFree(use) && ClauseParenFree(avoid)
    case Prefix(field, text) => ParenFree(field) && ParenFree(text)
  }

  lemma {:induction false} NetAppend(a: string, b: string)
    ensures Net(a + b) == Net(a) + Net(b)
    decreases |a|
  {
    if a == [] {
      assert a + b == b;
    } else {
      assert (a + b)[1..] == a[1..] + b;
      NetAppend(a[1..], b);
    }
  }

  lemma {:induction false} ParenFreeNet(s: string)
    requires ParenFree(s)
    ensures Net(s) == 0
    decreases |s|
  {
    if s != [] {
      assert s[0] in s;
      ParenFreeNet(s[1..]);
    }
  }

  lemma ParenFreeBalanced(s: string)
    requires ParenFree(s)
    ensures Balanced(s)
  {
    ParenFreeNet(s);
    forall i | 0 <= i <= |s| ensures Net(s[..i]) == 0 {
      ParenFreeNet(s[..i]);
    }
  }

  lemma BalancedAppend(a: string, b: string)
    requires Balanced(a) && Balanced(b)
    ensures Balanced(a + b)
  {
    NetAppend(a, b);
    forall i | 0 <= i <= |a + b| ensures Net((a + b)[..i]) >= 0 {
      if i <= |a| {
        assert (a + b)[..i] == a[..i];
      } else {
        assert (a + b)[..i] == a + b[..i - |a|];
        NetAppend(a, b[..i - |a|]);
      }
    }
  }

  lemma OneGroupBalanced(s: string)
    requires OneGroup(s)
    ensures Balanced(s)
  {
    assert s[..0] == [];
    assert s[..|s|] == s;
  }

  lemma Wrap(x: string)
    requires Balanced(x)
    ensures OneGroup("(" + x + ")")
  {
    var s := "(" + x + ")";
    NetAppend("(" + x, ")");
    NetAppend("(", x);
    forall i | 0 < i < |s| ensures Net(s[..i]) > 0 {
      assert s[..i] == "(" + x[..i - 1];
      NetAppend("(", x[..i - 1]);
    }
  }

  lemma {:induction false} SpacedBalanced(cs: seq<Clause>)
    requires forall x | x in cs :: Emit(x).Success? ==> OneGroup(Emit(x).value)
    ensures Spaced(cs).Success? ==> Balanced(Spaced(cs).value)
    decreases |cs|
  {
    if cs != [] && Spaced(cs).Success? {
      assert cs[0] in cs;
      forall x | x in cs[1..] ensures Emit(x).Success? ==> OneGroup(Emit(x).value) {
        assert x in cs;
      }
      SpacedBalanced(cs[1..]);
      var first, rest := Emit(cs[0]).value, Spaced(cs[1..]).value;
      OneGroupBalanced(first);
      ParenFreeBalanced(" ");
      BalancedAppend(" ", first);
      BalancedAppend(" " + first, rest);
    }
  }

  lemma {:induction false} SpaceJoinedParenFree(words: seq<string>)
    requires words != []
    requires forall w | w in words :: ParenFree(w)
    ensures ParenFree(SpaceJoined(words))
    decreases |words|
  {
    assert words[|words| - 1] in words;
    if |words| > 1 {
      forall w | w in words[..|words| - 1] ensures ParenFree(w) {
        assert w in words;
      }
      SpaceJoinedParenFree(words[..|words| - 1]);
    }
  }

  lemma LeafIsOneGroup(field: string, quote: string, value: string)
    requires ParenFree(field) && ParenFree(quote) && ParenFree(value)
    ensures OneGroup("(field " + field + " " + quote + value + quote + ")")
  {
    var inner := "field " + field + " " + quote + value + quote;
    ParenFreeBalanced(inner);
    Wrap(inner);
    assert "(" + inner + ")" == "(field " + field + " " + quote + value + quote + ")";
  }

  lemma TermIsOneGroup(field: string, text: string, intField: bool)
    requires ParenFree(field) && ParenFree(text)
    ensures Emit(Term(field, text, intField)).Success?
    ensures OneGroup(Emit(Term(field, text, intField)).value)
  {
    TermShape(field, text);
    if intField {
      LeafIsOneGroup(field, "", text);
      LeafText(field, text);
    } else {
      LeafIsOneGroup(field, "'", text);
      LeafText(field, text);
    }
  }

  lemma PhraseIsOneGroup(field: string, words: seq<string>, intField: bool)
    requires ParenFree(field) && forall w | w in words :: ParenFree(w)
    ensures Emit(Phrase(field, words, intField)).Success? ==> OneGroup(Emit(Phrase(field, words, intField)).value)
  {
    PhraseShape(field, words);
    if words != [] {
      var joined := SpaceJoined(words);
      SpaceJoinedParenFree(words);
      if intField {
        LeafIsOneGroup(field, "", joined);
        LeafText(field, joined);
      } else {
        LeafIsOneGroup(field, "'", joined);
        LeafText(field, joined);
      }
    }
  }

  lemma NotTextIsOneGroup(v: string)
    requires OneGroup(v)
    ensures OneGroup("(not " + v + ")")
  {
    OneGroupBalanced(v);
    ParenFreeBalanced("not ");
    BalancedAppend("not ", v);
    Wrap("not " + v);
    assert "(" + ("not " + v) + ")" == "(not " + v + ")";
  }

  lemma AndNotTextIsOneGroup(u: string, v: string)
    requires OneGroup(u) && OneGroup(v)
    ensures OneGroup("(and " + u + " (not " + v + "))")
  {
    var negated := "(not " + v + ")";
    NotTextIsOneGroup(v);
    OneGroupBalanced(u);
    OneGroupBalanced(negated);
    ParenFreeBalanced("and ");
    ParenFreeBalanced(" ");
    BalancedAppend("and ", u);
    BalancedAppend("and " + u, " ");
    BalancedAppend("and " + u + " ", negated);
    Wrap("and " + u + " " + negated);
    assert "(" + ("and " + u + " " + negated) + ")" == "(and " + u + " (not " + v + "))";
  }

  lemma NotIsOneGroup(x: Clause)
    requires Emit(x).Success? ==> OneGroup(Emit(x).value)
    ensures Emit(Not(x)).Success? ==> OneGroup(Emit(Not(x)).value)
  {
    NotShape(x);
    if Emit(x).Success? {
      NotTextIsOneGroup(Emit(x).value);
    }
  }

  lemma AndNotIsOneGroup(use: Clause, avoid: Clause)
    requires Emit(use).Success? ==> OneGroup(Emit(use).value)
    requires Emit(avoid).Success? ==> OneGroup(Emit(avoid).value)
    ensures Emit(AndNot(use, avoid)).Success? ==> OneGroup(Emit(AndNot(use, avoid)).value)
  {
    AndNotShape(use, avoid);
    if Emit(use).Success? && Emit(avoid).Success? {
      AndNotTextIsOneGroup(Emit(use).value, Emit(avoid).value);
    }
  }

  lemma GroupIsOneGroup(cs: seq<Clause>, name: string)
    requires forall x | x in cs :: Emit(x).Success? ==> OneGroup(Emit(x).value)
    requires ParenFree(name)
    ensures Spaced(cs).Success? ==> OneGroup("(" + name + Spaced(cs).value + ")")
  {
    SpacedBalanced(cs);
    if Spaced(cs).Success? {
      var inner := Spaced(cs).value;
      ParenFreeBalanced(name);
      BalancedAppend(name, inner);
      Wrap(name + inner);
      assert "(" + (name + inner) + ")" == "(" + name + inner + ")";
    }
  }

  /** With no parenthesis in any value, every string the emitter produces is a
      single parenthesised group, opened by its first character and closed by
      its last. */
  lemma {:induction false} EmitIsOneGroup(c: Clause)
    requires ClauseParenFree(c)
    ensures Emit(c).Success? ==> OneGroup(Emit(c).value)
    decreases c
  {
    match c
    case Term(field, text, intField) =>
      TermIsOneGroup(field, text, intField);
    case Phrase(field, words, intField) =>
      PhraseIsOneGroup(field, words, intField);
    case And(cs) =>
      forall x | x in cs ensures Emit(x).Success? ==> OneGroup(Emit(x).value) {
        EmitIsOneGroup(x);
      }
      GroupShape(cs);
      GroupIsOneGroup(cs, "and");
      if Spaced(cs).Success? {
        GroupText(Spaced(cs).value, "");
      }
    case Or(cs) =>
      forall x | x in cs ensures Emit(x).Success? ==> OneGroup(Emit(x).value) {
        EmitIsOneGroup(x);
      }
      GroupShape(cs);
      GroupIsOneGroup(cs, "or");
      if Spaced(cs).Success? {
        GroupText(Spaced(cs).value, "");
      }
    case Not(x) =>
      EmitIsOneGroup(x);
      NotIsOneGroup(x);
    case AndNot(use, avoid) =>
      EmitIsOneGroup(use);
      EmitIsOneGroup(avoid);
      AndNotIsOneGroup(use, avoid);
    case Prefix(field, text) =>
      PrefixUnhandled(field, text);
  }

  lemma NetOfLeaf(head: string, value: string, quote: string)
    requires ParenFree(head) && ParenFree(quote)
    ensures Net("(" + head + value + quote + ")") == Net(value)
  {
    ParenFreeNet(head);
    ParenFreeNet(quote);
    NetAppend("(" + head + value + quote, ")");
    NetAppend("(" + head + value, quote);
    NetAppend("(" + head, value);
    NetAppend("(", head);
    assert Net(")") == -1;
    assert Net("(") == 1;
  }

  lemma TermOutput(field: string, text: string, intField: bool)
    ensures var quote := if intField then "" else "'";
      Emit(Term(field, text, intField)) == Success("(" + ("field " + field + " " + quote) + text + quote + ")")
  {
    FieldOutput(Term(field, text, intField));
    var quote := if intField then "" else "'";
    assert "(" + ("field " + field + " " + quote) + text + quote + ")" == "(field " + field + " " + quote + text + quote + ")";
  }

  /** A term's text reaches the output unchanged, so the output's nesting is
      off by exactly as much as the text's: a text with an unmatched
      parenthesis gives an output that is not balanced. */
  lemma VerbatimParenBreaksNesting(field: string, text: string, intField: bool)
    requires ParenFree(field)
    requires Net(text) != 0
    ensures Emit(Term(field, text, intField)).Success?
    ensures Net(Emit(Term(field, text, intField)).value) == Net(text)
    ensures !Balanced(Emit(Term(field, text, intField)).value)
  {
    var quote := if intField then "" else "'";
    TermOutput(field, text, intField);
    NetOfLeaf("field " + field + " " + quote, text, quote);
  }
}
