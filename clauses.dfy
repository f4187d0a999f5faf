/**
  The query clauses handed to the emitter, i.e. the subset of whoosh's query
  classes that the translator knows about, and the emitter's error cases.
 */
module Clauses {

  /** The query classes that can appear in a parsed tree. The registry is keyed
      by these, the way the source keys its table by Python class. */
  datatype Kind = TermClass | PhraseClass | AndClass | OrClass | NotClass | AndNotClass | PrefixClass

  /** A parsed boolean query clause.
      `intField` is the `integerfield` attribute the emitter looks up on a leaf;
      And, Or and Not keep their children in order; AndNot holds exactly the two
      clauses it is built from. Prefix has no registered handler. */
  datatype Clause =
    | Term(field: string, text: string, intField: bool)
    | Phrase(field: string, words: seq<string>, intField: bool)
    | And(children: seq<Clause>)
    | Or(children: seq<Clause>)
    | Not(child: Clause)
    | AndNot(use: Clause, avoid: Clause)
    | Prefix(field: string, text: string)

  /** The emitters a class can be registered with. */
  datatype Handler = FieldBuilder | GrouperBuilder | CompoundBuilder

  /** What goes wrong while emitting: a class with no entry in the table
      (a KeyError in the source) or a phrase with no words (`words[-1]`
      raising IndexError). */
  datatype EmitError = NoHandler(kind: Kind) | EmptyPhrase

  function KindOf(c: Clause): Kind
  {
    match c
    case Term(_, _, _) => TermClass
    case Phrase(_, _, _) => PhraseClass
    case And(_) => AndClass
    case Or(_) => OrClass
    case Not(_) => NotClass
    case AndNot(_, _) => AndNotClass
    case Prefix(_, _) => PrefixClass
  }

  /** The Python class name of each kind (`__class__.__name__`). */
  function ClassName(k: Kind): string
  {
    match k
    case TermClass => "Term"
    case PhraseClass => "Phrase"
    case AndClass => "And"
    case OrClass => "Or"
    case NotClass => "Not"
    case AndNotClass => "AndNot"
    case PrefixClass => "Prefix"
  }

  /** ASCII lower-casing, as `str.lower` acts on class names. */
  function Lower(s: string): (r: string)
    ensures |r| == |s|
    ensures forall i | 0 <= i < |s| :: r[i] == if 'A' <= s[i] <= 'Z' then (s[i] as int + 32) as char else s[i]
  {
    if s == [] then []
    else [if 'A' <= s[0] <= 'Z' then (s[0] as int + 32) as char else s[0]] + Lower(s[1..])
  }

  /** The children a grouping clause yields, in order; Not yields its one child. */
  function Children(c: Clause): seq<Clause>
    requires c.And? || c.Or? || c.Not?
  {
    match c
    case And(cs) => cs
    case Or(cs) => cs
    case Not(x) => [x]
  }
}
