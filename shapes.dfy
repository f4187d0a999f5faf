/**
  The exact string each kind of clause emits, stated on the joined output
  rather than on the pieces, and the phrase's word joining shown to be
  undone by splitting on spaces.
 */
module EmitShapes {
  import opened Wrappers
  import opened Clauses
  import opened Emitter

  /** Joining a piece list that may have failed. */
  function JoinResult(r: Result<seq<string>, EmitError>): Result<string, EmitError>
  {
    match r
    case Failure(e) => Failure(e)
    case Success(pieces) => Success(Join(pieces))
  }

  /** Which handler `Walk` runs for each class of clause. */
  lemma WalkDispatch(c: Clause)
    ensures c.Term? || c.Phrase? ==> Walk(c) == BuildField(c)
    ensures c.And? || c.Or? || c.Not? ==> Walk(c) == BuildGrouper(c)
    ensures c.AndNot? ==> Walk(c) == BuildCompound(c)
    ensures c.Prefix? ==> Walk(c) == Failure(NoHandler(PrefixClass))
  {
  }

  lemma JoinOne(a: string)
    ensures Join([a]) == a
  {
    assert [a][1..] == [];
  }

  lemma JoinTwo(a: string, b: string)
    ensures Join([a, b]) == a + b
  {
    assert [a, b][1..] == [b];
    JoinOne(b);
  }

  lemma JoinThree(a: string, b: string, c: string)
    ensures Join([a, b, c]) == a + b + c
  {
    assert [a, b, c][1..] == [b, c];
    JoinTwo(b, c);
  }

  /** Regrouping the literal parts of a leaf's output. */
  lemma LeafText(field: string, value: string)
    ensures "(field " + field + " " + "'" + value + "'" + ")" == "(field " + field + " '" + value + "')"
    ensures "(field " + field + " " + "" + value + "" + ")" == "(field " + field + " " + value + ")"
  {
  }

  /** Regrouping the literal parts of a grouper's output. */
  lemma GroupText(s: string, v: string)
    ensures "(" + "and" + s + ")" == "(and" + s + ")"
    ensures "(" + "or" + s + ")" == "(or" + s + ")"
    ensures "(" + "not" + (" " + v + "") + ")" == "(not " + v + ")"
  {
  }

  /** `" ".join(words)` for a non-empty word list. */
  function SpaceJoined(words: seq<string>): string
    requires words != []
    decreases |words|
  {
    if |words| == 1 then words[0]
    else SpaceJoined(words[..|words| - 1]) + " " + words[|words| - 1]
  }

  /** `s.rsplit(" ")`: the pieces between single spaces. */
  function Split(s: string): (r: seq<string>)
    ensures r != []
    decreases |s|
  {
    if ' ' !in s then [s]
    else
      var k := LastSpace(s);
      Split(s[..k]) + [s[k + 1..]]
  }

  function LastSpace(s: string): (k: nat)
    requires ' ' in s
    ensures k < |s| && s[k] == ' '
    ensures ' ' !in s[k + 1..]
  {
    if s[|s| - 1] == ' ' then |s| - 1
    else
      assert ' ' in s[..|s| - 1] by {
        var j :| 0 <= j < |s| && s[j] == ' ';
        assert s[..|s| - 1][j] == ' ';
      }
      var k := LastSpace(s[..|s| - 1]);
      assert s[k + 1..] == s[..|s| - 1][k + 1..] + [s[|s| - 1]];
      k
  }

  /** Joining the texts of the `(field ...)` pieces. */
  lemma FieldJoin(open: seq<string>, body: seq<string>, close: seq<string>)
    ensures Join(open + body + close) == Join(open) + Join(body) + Join(close)
  {
    JoinAppend(open + body, close);
    JoinAppend(open, body);
  }

  lemma {:induction false} WordsWithSpacesAppend(a: seq<string>, b: seq<string>)
    ensures WordsWithSpaces(a + b) == WordsWithSpaces(a) + WordsWithSpaces(b)
    decreases |a|
  {
    if a == [] {
      assert a + b == b;
    } else {
      assert (a + b)[1..] == a[1..] + b;
      WordsWithSpacesAppend(a[1..], b);
    }
  }

  /** The phrase loop's pieces join to the words separated by single spaces. */
  lemma {:induction false} PhrasePiecesJoin(words: seq<string>)
    requires words != []
    ensures Join(WordsWithSpaces(words[..|words| - 1]) + [words[|words| - 1]]) == SpaceJoined(words)
    decreases |words|
  {
    var init, last := words[..|words| - 1], words[|words| - 1];
    JoinAppend(WordsWithSpaces(init), [last]);
    if |words| > 1 {
      var init2, mid := init[..|init| - 1], init[|init| - 1];
      assert init == init2 + [mid];
      WordsWithSpacesAppend(init2, [mid]);
      assert WordsWithSpaces([mid]) == [mid, " "];
      JoinAppend(WordsWithSpaces(init2), [mid, " "]);
      PhrasePiecesJoin(init);
      assert init[..|init| - 1] == init2;
      JoinAppend(WordsWithSpaces(init2), [mid]);
    }
  }

  /** The string build_field yields for a leaf whose pieces are `body`. */
  lemma {:induction false} FieldPiecesJoin(field: string, body: seq<string>, intField: bool)
    ensures Join(["(field ", field, " "] + Quote(intField) + body + (Quote(intField) + [")"]))
      == "(field " + field + " " + (if intField then "" else "'") + Join(body) + (if intField then "" else "'") + ")"
  {
    var open := ["(field ", field, " "] + Quote(intField);
    var close := Quote(intField) + [")"];
    FieldJoin(open, body, close);
    JoinAppend(["(field ", field, " "], Quote(intField));
    JoinAppend(Quote(intField), [")"]);
    JoinThree("(field ", field, " ");
    JoinOne(")");
    JoinOne("'");
    assert Join([]) == "";
  }

  /** The value a leaf shows in its output: a Term's text, a Phrase's words
      joined by spaces. */
  function LeafValue(c: Clause): string
    requires c.Term? || (c.Phrase? && c.words != [])
  {
    if c.Term? then c.text else SpaceJoined(c.words)
  }

  lemma FieldOutput(c: Clause)
    requires c.Term? || (c.Phrase? && c.words != [])
    ensures var quote := if c.intField then "" else "'";
      Emit(c) == Success("(field " + c.field + " " + quote + LeafValue(c) + quote + ")")
  {
    WalkDispatch(c);
    var open := ["(field ", c.field, " "] + Quote(c.intField);
    var close := Quote(c.intField) + [")"];
    if c.Term? {
      JoinOne(c.text);
      FieldPiecesJoin(c.field, [c.text], c.intField);
    } else {
      var words := c.words;
      var body := WordsWithSpaces(words[..|words| - 1]) + [words[|words| - 1]];
      assert BuildField(c).value == open + body + close;
      PhrasePiecesJoin(words);
      FieldPiecesJoin(c.field, body, c.intField);
    }
  }

  /** A Term emits `(field <name> '<text>')`, the text inserted as it is, and
      without the quotes when the clause is marked as an integer field. */
  lemma TermShape(field: string, text: string)
    ensures Emit(Term(field, text, false)) == Success("(field " + field + " '" + text + "')")
    ensures Emit(Term(field, text, true)) == Success("(field " + field + " " + text + ")")
  {
    FieldOutput(Term(field, text, false));
    FieldOutput(Term(field, text, true));
    LeafText(field, text);
  }

  /** A Phrase emits its words separated by single spaces in place of a Term's
      text, and raises when it has no words. */
  lemma PhraseShape(field: string, words: seq<string>)
    ensures words == [] ==> Emit(Phrase(field, words, false)) == Failure(EmptyPhrase)
    ensures words == [] ==> Emit(Phrase(field, words, true)) == Failure(EmptyPhrase)
    ensures words != [] ==> Emit(Phrase(field, words, false)) == Success("(field " + field + " '" + SpaceJoined(words) + "')")
    ensures words != [] ==> Emit(Phrase(field, words, true)) == Success("(field " + field + " " + SpaceJoined(words) + ")")
  {
    if words == [] {
      WalkDispatch(Phrase(field, words, false));
      WalkDispatch(Phrase(field, words, true));
    } else {
      FieldOutput(Phrase(field, words, false));
      FieldOutput(Phrase(field, words, true));
      LeafText(field, SpaceJoined(words));
    }
  }

  /** Splitting a phrase's joined words on spaces gives the words back, so the
      join adds exactly one space between words and none at either end. */
  lemma {:induction false} SpaceJoinedSplits(words: seq<string>)
    requires words != []
    requires forall w | w in words :: ' ' !in w
    ensures Split(SpaceJoined(words)) == words
    decreases |words|
  {
    if |words| == 1 {
      assert words[0] in words;
    } else {
      var init, last := words[..|words| - 1], words[|words| - 1];
      assert last in words;
      forall w | w in init ensures ' ' !in w {
        var j :| 0 <= j < |init| && init[j] == w;
        assert words[j] == w;
      }
      var s := SpaceJoined(words);
      var head := SpaceJoined(init);
      assert s == head + " " + last;
      assert s[|head|] == ' ';
      assert ' ' in s;
      var k := LastSpace(s);
      assert k == |head|;
      assert s[..k] == head;
      assert s[k + 1..] == last;
      SpaceJoinedSplits(init);
    }
  }

  /** The strings of the clauses `cs`, each preceded by a space, as the
      grouper emits its children; the first failing child's error otherwise. */
  function Spaced(cs: seq<Clause>): Result<string, EmitError>
  {
    if cs == [] then Success("")
    else match Emit(cs[0])
      case Failure(e) => Failure(e)
      case Success(first) =>
        match Spaced(cs[1..])
        case Failure(e) => Failure(e)
        case Success(rest) => Success(" " + first + rest)
  }

  lemma {:induction false} WalkChildrenSpaced(c: Clause, i: nat)
    requires c.And? || c.Or? || c.Not?
    requires i <= |Children(c)|
    ensures JoinResult(WalkChildren(c, i)) == Spaced(Children(c)[i..])
    decreases |Children(c)| - i
  {
    var cs := Children(c);
    if i < |cs| {
      WalkChildrenSpaced(c, i + 1);
      assert cs[i..][1..] == cs[i + 1..];
      match Walk(cs[i])
      case Failure(e) =>
      case Success(pieces) =>
        match WalkChildren(c, i + 1)
        case Failure(e) =>
        case Success(rest) =>
          JoinAppend([" "] + pieces, rest);
          JoinAppend([" "], pieces);
    }
  }

  /** The string build_grouper yields once its children's pieces are known. */
  lemma GrouperJoin(c: Clause, pieces: seq<string>)
    requires c.And? || c.Or? || c.Not?
    requires WalkChildren(c, 0) == Success(pieces)
    ensures JoinResult(Walk(c)) == Success("(" + Lower(ClassName(KindOf(c))) + Join(pieces) + ")")
  {
    WalkDispatch(c);
    var name := Lower(ClassName(KindOf(c)));
    FieldJoin(["(", name], pieces, [")"]);
    JoinTwo("(", name);
    JoinOne(")");
  }

  /** A grouping clause emits `(`, its lower-cased class name, the spaced
      children, `)`. */
  lemma GrouperShape(c: Clause)
    requires c.And? || c.Or? || c.Not?
    ensures Emit(c) == match Spaced(Children(c))
      case Failure(e) => Failure(e)
      case Success(s) => Success("(" + Lower(ClassName(KindOf(c))) + s + ")")
  {
    assert Children(c)[0..] == Children(c);
    WalkChildrenSpaced(c, 0);
    WalkDispatch(c);
    if WalkChildren(c, 0).Success? {
      GrouperJoin(c, WalkChildren(c, 0).value);
    }
  }

  /** `__class__.__name__.lower()` of the grouping classes. */
  lemma GrouperNames()
    ensures Lower(ClassName(AndClass)) == "and"
    ensures Lower(ClassName(OrClass)) == "or"
    ensures Lower(ClassName(NotClass)) == "not"
  {
    assert Lower("And") == ['a'] + Lower("nd");
    assert Lower("Or") == ['o'] + Lower("r");
    assert Lower("Not") == ['n'] + Lower("ot");
  }

  /** And and Or emit `(and` or `(or`, then a space and each child's string in
      order, then `)`; the first child that fails makes the clause fail. */
  lemma GroupShape(cs: seq<Clause>)
    ensures Emit(And(cs)) == match Spaced(cs)
      case Failure(e) => Failure(e)
      case Success(s) => Success("(and" + s + ")")
    ensures Emit(Or(cs)) == match Spaced(cs)
      case Failure(e) => Failure(e)
      case Success(s) => Success("(or" + s + ")")
  {
    GrouperShape(And(cs));
    GrouperShape(Or(cs));
    GrouperNames();
    if Spaced(cs).Success? {
      var inner := Spaced(cs).value;
      GroupText(inner, "");
    }
  }

  /** Not emits `(not <child>)`. */
  lemma NotShape(x: Clause)
    ensures Emit(Not(x)) == match Emit(x)
      case Failure(e) => Failure(e)
      case Success(s) => Success("(not " + s + ")")
  {
    GrouperNames();
    GrouperShape(Not(x));
    assert [x][1..] == [];
    if Emit(x).Success? {
      var v := Emit(x).value;
      assert Spaced([x]) == Success(" " + v + "");
      GroupText("", v);
    }
  }

  /** AndNot emits `(and <use> (not <avoid>))`, failing with the first child
      that fails. */
  lemma AndNotShape(use: Clause, avoid: Clause)
    ensures Emit(AndNot(use, avoid)) == match Emit(use)
      case Failure(e) => Failure(e)
      case Success(u) =>
        match Emit(avoid)
        case Failure(e) => Failure(e)
        case Success(v) => Success("(and " + u + " (not " + v + "))")
  {
    WalkDispatch(AndNot(use, avoid));
    if Walk(use).Success? && Walk(avoid).Success? {
      var u, v := Walk(use).value, Walk(avoid).value;
      FieldJoin(["(and "] + u + [" (not "], v, ["))"]);
      FieldJoin(["(and "], u, [" (not "]);
      JoinOne("(and ");
      JoinOne(" (not ");
      JoinOne("))");
    }
  }

  /** Prefix has no handler: emitting it raises instead of producing output. */
  lemma PrefixUnhandled(field: string, text: string)
    ensures Emit(Prefix(field, text)) == Failure(NoHandler(PrefixClass))
  {
  }
}
