/**
  The clause-to-string emitter. Each handler yields a list of string pieces;
  `Walk` looks the clause's class up in the handler table and runs the handler
  found there, and `Emit` joins the pieces into the query string.
 */
module Emitter {
  import opened Wrappers
  import opened Clauses
  import Registry

  /** `''.join(pieces)`. */
  function Join(pieces: seq<string>): string
  {
    if pieces == [] then "" else pieces[0] + Join(pieces[1..])
  }

  /** The quote piece yielded around a leaf's value: none for an integer field. */
  function Quote(intField: bool): seq<string>
  {
    if intField then [] else ["'"]
  }

  /** The pieces of the loop over `words[:-1]`: each word followed by a space. */
  function WordsWithSpaces(words: seq<string>): seq<string>
  {
    if words == [] then [] else [words[0], " "] + WordsWithSpaces(words[1..])
  }

  /** build_field: a Term's text, or a Phrase's words separated by spaces,
      inside `(field <name> '...')`, without the quotes for an integer field.
      A phrase without words raises, as `words[-1]` does. */
  function BuildField(c: Clause): (r: Result<seq<string>, EmitError>)
    requires c.Term? || c.Phrase?
    ensures r.Failure? <==> c.Phrase? && c.words == []
    ensures r.Failure? ==> r.error == EmptyPhrase
  {
    var open := ["(field ", c.field, " "] + Quote(c.intField);
    var close := Quote(c.intField) + [")"];
    match c
    case Term(_, text, _) => Success(open + [text] + close)
    case Phrase(_, words, _) =>
      if words == [] then Failure(EmptyPhrase)
      else Success(open + WordsWithSpaces(words[..|words| - 1]) + [words[|words| - 1]] + close)
  }

  /** walk_clause: dispatch through the handler table; a class with no entry
      raises. */
  function Walk(c: Clause): Result<seq<string>, EmitError>
    decreases c, 2, 0
  {
    var kind := KindOf(c);
    var table := Registry.DefaultHandlers();
    if kind !in table then Failure(NoHandler(kind))
    else match table[kind]
      case FieldBuilder => BuildField(c)
      case GrouperBuilder => BuildGrouper(c)
      case CompoundBuilder => BuildCompound(c)
  }

  /** build_grouper: `(`, the lower-cased class name, each child preceded by a
      space, `)`. */
  function BuildGrouper(c: Clause): Result<seq<string>, EmitError>
    requires c.And? || c.Or? || c.Not?
    decreases c, 1, 0
  {
    match WalkChildren(c, 0)
    case Failure(e) => Failure(e)
    case Success(pieces) => Success(["(", Lower(ClassName(KindOf(c)))] + pieces + [")"])
  }

  /** The pieces the grouper yields for the children from position `i` on;
      the first child that fails stops the walk. */
  function WalkChildren(c: Clause, i: nat): Result<seq<string>, EmitError>
    requires c.And? || c.Or? || c.Not?
    requires i <= |Children(c)|
    decreases c, 0, |Children(c)| - i
  {
    if i == |Children(c)| then Success([])
    else match Walk(Children(c)[i])
      case Failure(e) => Failure(e)
      case Success(pieces) =>
        match WalkChildren(c, i + 1)
        case Failure(e) => Failure(e)
        case Success(rest) => Success([" "] + pieces + rest)
  }

  /** build_compound: `(and <use> (not <avoid>))`. */
  function BuildCompound(c: Clause): Result<seq<string>, EmitError>
    requires c.AndNot?
    decreases c, 1, 0
  {
    match Walk(c.use)
    case Failure(e) => Failure(e)
    case Success(use) =>
      match Walk(c.avoid)
      case Failure(e) => Failure(e)
      case Success(avoid) => Success(["(and "] + use + [" (not "] + avoid + ["))"])
  }

  /** `''.join(walk_clause(clause))`: the query string, or the error raised. */
  function Emit(c: Clause): Result<string, EmitError>
  {
    match Walk(c)
    case Failure(e) => Failure(e)
    case Success(pieces) => Success(Join(pieces))
  }

  /** Joining distributes over concatenation of the piece lists. */
  lemma {:induction false} JoinAppend(a: seq<string>, b: seq<string>)
    ensures Join(a + b) == Join(a) + Join(b)
    decreases |a|
  {
    if a != [] {
      assert (a + b)[1..] == a[1..] + b;
      JoinAppend(a[1..], b);
    } else {
      assert a + b == b;
    }
  }
}
