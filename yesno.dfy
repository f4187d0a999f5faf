/**
  The yes/no pseudo-field: a yes/no word becomes an integer-field node
  holding 1 or 0.
 */
module YesNo {

  /** The parser nodes `mark_int` is given. `WordNode` stands for any node
      with text (words, phrases, prefixes, ...); an IntField is a word node
      whose text is the integer it was built from; `TextlessNode` stands for
      the nodes without text (groups, operators, ...). */
  datatype SyntaxNode = WordNode(text: string) | IntField(value: int) | TextlessNode(name: string)

  predicate HasText(n: SyntaxNode)
  {
    n.WordNode? || n.IntField?
  }

  /** The `("yes", "y", "1")` tuple: strings, so an IntField's integer text
      never matches any of them. */
  const YesWords: seq<string> := ["yes", "y", "1"]

  predicate TextIsYes(n: SyntaxNode)
  {
    match n
    case WordNode(text) => text in YesWords
    case IntField(_) => false
    case TextlessNode(_) => false
  }

  /** mark_int: a node with text becomes an IntField of 1 for a yes word and 0
      for anything else; a node without text is returned as it is. */
  function MarkInt(n: SyntaxNode): (r: SyntaxNode)
    ensures HasText(r) == HasText(n)
    ensures !HasText(n) ==> r == n
    ensures HasText(n) ==> r.IntField? && 0 <= r.value <= 1
  {
    if HasText(n) then
      if TextIsYes(n) then IntField(1) else IntField(0)
    else n
  }

  /** A word maps to 1 exactly when it is one of the three lower-case yes
      words, and to 0 for every other word, including the empty one and
      other spellings of yes. */
  lemma MarkIntWord(text: string)
    ensures MarkInt(WordNode(text)).IntField?
    ensures MarkInt(WordNode(text)).value == 1 <==> text == "yes" || text == "y" || text == "1"
    ensures MarkInt(WordNode(text)).value == 0 <==> text != "yes" && text != "y" && text != "1"
  {
  }

  /** An IntField, even one holding 1, maps to 0: its text is an integer, not
      one of the yes strings. So marking twice turns a yes into 0. */
  lemma MarkIntOfIntField(value: int)
    ensures MarkInt(IntField(value)) == IntField(0)
    ensures MarkInt(MarkInt(WordNode("yes"))) == IntField(0)
    ensures MarkInt(WordNode("yes")) == IntField(1)
  {
  }
}
