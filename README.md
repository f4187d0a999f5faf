# l2cs clause emitter, modelled in Dafny

l2cs translates Lucene-style search queries into Amazon CloudSearch's boolean
query syntax, for example `(and (field text 'foo') (not (field text 'bar')))`.
Parsing the query text is done by the whoosh library. This project models the
part l2cs itself implements on top of the parsed tree:

- **the emitter** (`build_field`, `build_grouper`, `build_compound`,
  `walk_clause`, and the `''.join` over their pieces): a recursive serialiser
  over the query classes Term, Phrase, And, Or, Not and AndNot. `Prefix` stands
  for a query class that has no handler.
- **the handler registry** (`HANDLERS` and the `handler` decorator): a table
  from query class to emitter, filled at import time, that refuses a class
  that already has a handler.
- **the yes/no coercion** (`YesNoPlugin.mark_int`): a yes/no word becomes an
  integer-field node holding 1 or 0.

Files:

- `wrappers.dfy`: `Option`, `Result`, `Outcome`.
- `clauses.dfy`: the query classes (`Kind`), the clause tree (`Clause`), the
  handlers, and the emitter's errors. A missing handler is a `KeyError` in the
  source. A phrase with no words is an `IndexError` there.
- `registry.dfy`: class `HandlerRegistry`, whose `handlers` map is the
  module-level table. `Register` is the decorator's loop. It is specified by
  `Bind` (the table after binding a prefix of the classes) and `FirstClash`
  (the first class refused). The constructor performs the three import-time
  registrations and is proved to build `DefaultHandlers()`.
- `emitter.dfy`: `Walk` dispatches through `DefaultHandlers()` to
  `BuildField`, `BuildGrouper` (with `WalkChildren`) and `BuildCompound`.
  Each returns the list of pieces the Python generator yields, or the error it
  raises. `Emit` joins the pieces.
- `shapes.dfy`: the exact string each class of clause emits.
- `faults.dfy`: when emitting raises, and with which error.
- `nesting.dfy`: the output is one parenthesised group whenever no value holds
  a parenthesis. Because values are inserted as they are, one that does breaks
  the nesting.
- `yesno.dfy`: `mark_int`.

Where test_l2cs.py expects otherwise (test_l2cs.py:78-94 and 105), the model
follows l2cs.py. The code emits an integer field as `(field name 1)`, not as
`name:1`. It inserts text without escaping quotes. It has no handler for Prefix
or for an empty query, so emitting either raises instead of producing output.

## Model

| member | source | states |
|---|---|---|
| Registry.HandlerRegistry.Register | l2cs.py:30-37 | binds the listed classes to the handler in order; stops at the first class already in the table or listed earlier; the classes before it stay bound; fails exactly when such a class exists |
| Registry.HandlerRegistry.constructor | l2cs.py:40-71 | the three decorated registrations all succeed and leave exactly the default table |
| Registry.FirstClashFrom | l2cs.py:32-34 | the position found is the first refused class: none before it is refused, and it is refused unless it is the end |
| Registry.FirstClash | l2cs.py:32-34 | the loop stops at the first listed class that is already handled or listed earlier, and at the end of the list when there is none |
| Registry.Bind | l2cs.py:32-35 | the table after `HANDLERS[cls] = fn` for each listed class in order; its domain and values are stated by Registry.BindDomain |
| Registry.BindDomain | l2cs.py:32-35 | after binding, a class has an entry iff it had one or is listed; listed classes map to the new handler and all others keep their entry |
| Registry.RegisterSucceedsIff | l2cs.py:32-34 | registration succeeds iff no listed class already has a handler and no class is listed twice |
| Registry.RegisterEffect | l2cs.py:30-37 | on success or failure, the classes before the refused one map to the new handler, every other class is unchanged, and the refused class was already handled or listed earlier |
| Registry.DefaultHandlersCover | l2cs.py:40-71 | every class but Prefix has a handler: Term and Phrase the field builder, And, Or and Not the grouper, AndNot the compound builder |
| Registry.DefaultHandlers | l2cs.py:40-71 | the `HANDLERS` table (l2cs.py:11) after the three decorations at import time; its entries are stated by Registry.DefaultHandlersCover |
| Registry.DuplicateMessageAsWrittenOmitsClass | l2cs.py:34 | the error message as written is the same for every class and still holds the unformatted `%s` |
| Registry.DuplicateMessageNamesClass | l2cs.py:34 | the corrected message starts with the class name, so different classes give different messages |
| Emitter.BuildField | l2cs.py:41-57 | build_field fails exactly on a phrase with no words, with the empty-phrase error |
| Emitter.JoinAppend | l2cs.py:133-134 | joining the pieces of two consecutive runs gives the two joined strings one after the other |
| Emitter.Join | l2cs.py:133-134 | `''.join(pieces)`; it distributes over concatenation (Emitter.JoinAppend) |
| Emitter.Emit | l2cs.py:130-134 | the joined output of walk_clause or the error it raises; its output per class is stated by the EmitShapes lemmas and its failures by EmitFaults.EmitFailsAtFirstFault |
| Emitter.Walk | l2cs.py:83-86 | looks the clause's class up in the table and runs that handler, raising when there is none; stated by EmitShapes.WalkDispatch and EmitFaults.WalkReportsFirstFault |
| Emitter.BuildGrouper | l2cs.py:60-68 | build_grouper's pieces; their joined form is stated by EmitShapes.GrouperShape, EmitShapes.GroupShape and EmitShapes.NotShape |
| Emitter.WalkChildren | l2cs.py:64-67 | the loop over the children, a space before each; stated by EmitShapes.WalkChildrenSpaced |
| Emitter.BuildCompound | l2cs.py:71-80 | build_compound's pieces, use before avoid; their joined form is stated by EmitShapes.AndNotShape |
| EmitShapes.WalkDispatch | l2cs.py:83-86 | walk_clause runs build_field for Term and Phrase, build_grouper for And, Or and Not, build_compound for AndNot, and raises for Prefix |
| EmitShapes.FieldOutput | l2cs.py:41-57 | a Term or non-empty Phrase emits `(field <name> ` then its value (the text, or the words joined by spaces) between single quotes unless the clause is an integer field, then `)` |
| EmitShapes.TermShape | l2cs.py:41-57 | a Term emits `(field <name> '<text>')` with the text inserted as is, and `(field <name> <text>)` when marked as an integer field |
| EmitShapes.PhrasePiecesJoin | l2cs.py:51-54 | the phrase loop's pieces join to the words separated by single spaces |
| EmitShapes.PhraseShape | l2cs.py:50-54 | a Phrase emits its space-joined words in place of a Term's text, with or without quotes, and raises when it has no words |
| EmitShapes.SpaceJoinedSplits | l2cs.py:51-54 | splitting the joined phrase on spaces gives back the words when no word holds a space: one space between words and none at either end |
| EmitShapes.WalkChildrenSpaced | l2cs.py:64-67 | the grouper's child pieces join to each child's string preceded by a space, in order, stopping at the first child that fails |
| EmitShapes.GrouperNames | l2cs.py:63 | the lower-cased class names of And, Or and Not are `and`, `or` and `not` |
| EmitShapes.GrouperShape | l2cs.py:61-68 | a grouping clause emits `(`, its lower-cased class name, its spaced children, `)` |
| EmitShapes.GroupShape | l2cs.py:61-68 | And and Or emit `(and` or `(or`, then a space and each child's string in order, then `)`, failing with the first child that fails |
| EmitShapes.NotShape | l2cs.py:61-68 | Not emits `(not <child>)` and fails when its child does |
| EmitShapes.AndNotShape | l2cs.py:72-80 | AndNot emits `(and <use> (not <avoid>))`, failing with use's error first, then avoid's |
| EmitShapes.PrefixUnhandled | l2cs.py:83-84 | emitting a Prefix raises the missing-handler error instead of producing output |
| EmitFaults.WalkReportsFirstFault | l2cs.py:83-86 | the walk fails exactly when the tree has a fault, and with the first in left-to-right order |
| EmitFaults.EmitFailsAtFirstFault | l2cs.py:83-86 | emitting raises iff some node is a Prefix or a phrase with no words, with the error of the first such node; otherwise it yields a string |
| EmitFaults.PrefixAnywhereRaises | l2cs.py:83-84 | a Prefix at any depth of the tree makes emitting the whole tree raise |
| Nesting.EmitIsOneGroup | l2cs.py:41-80 | when no field name, text or word holds a parenthesis, every output is one balanced group opened by its first character and closed by its last |
| Nesting.VerbatimParenBreaksNesting | l2cs.py:48-49 | a term's text is not escaped: the output's parenthesis count is off by exactly the text's, so an unmatched parenthesis unbalances it |
| YesNo.MarkInt | l2cs.py:99-106 | a node with text becomes an integer-field node holding 0 or 1; a node without text is returned unchanged |
| YesNo.MarkIntWord | l2cs.py:100-104 | a word gives 1 iff it is exactly `yes`, `y` or `1`, and 0 otherwise |
| YesNo.MarkIntOfIntField | l2cs.py:99-104 | an integer-field node, even one holding 1, gives 0, because its text is an integer and not a yes string; so marking twice turns yes into 0 |

## Findings

| source | as written | input that shows it | evidently intended | confidence | as-written member | corrected member |
|---|---|---|---|---|---|---|
| l2cs.py:34 | `ValueError("%s already has a handler")`: the `%s` is never filled in | registering Term a second time gives the message `%s already has a handler` | the message names the class, for example `Term already has a handler` | high; not executed | Registry.DuplicateMessageAsWrittenOmitsClass | Registry.DuplicateMessageNamesClass |

`Register` raises with the corrected message.

## Left out

- Query parsing: `DEFAULT_PLUGINS`, `make_parser` and the parser call in `convert` and `main` (l2cs.py:109-132). These are whoosh calls whose tokenizer, grouping and plus/minus handling are not part of this model. Clause trees are built directly.
- `main`, `run_tests`, the `TESTS` table and the `__main__` block (l2cs.py:137-189): printing and argument handling only. setup.py: packaging metadata.
- The wiring of `YesNoPlugin` into whoosh (its constructor and the default `is_active`/`is_ready` fields, l2cs.py:94-96 and 125-126). This is configuration of whoosh's pseudo-field plugin.
- How an `IntField` node becomes a Term query carrying the `integerfield` attribute happens inside whoosh. The model takes the flag and a string text as given. In the source the node's text is an integer, which `''.join` would reject.
- Emit: the generators stream pieces, and some are yielded before an exception is raised. The model returns either all pieces or the error. `''.join` consumes everything, so nothing partial is visible to callers.
- Emit: reads the table as the import-time registrations leave it (`DefaultHandlers`, which the `HandlerRegistry` constructor is proved to build). A handler registered later through `Register` is not seen by the emitter.
- Query classes beyond the seven kinds: whoosh's other classes (null query, wildcard, and so on) have no handler and behave like `Prefix`. Subclass dispatch does not arise in a closed datatype.
- Register: fails with the corrected message `<class> already has a handler` (Registry.DuplicateMessage), not the literal `%s already has a handler` of l2cs.py:34; see Findings.
- Register: reports the `ValueError` as a returned `Outcome` rather than raising it. The decorator's return of the decorated function is not modelled.
- Expectations in test_l2cs.py that this version of l2cs.py does not implement: backslash escaping of quotes, the `count:12` integer form, prefix output, aliases, null-query pruning and the `make_parser` keyword arguments.
- `str.lower` is modelled for ASCII letters only. The class names it is applied to are ASCII.
