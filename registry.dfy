/**
  The module-level handler table and the `handler` decorator that fills it.
  Registering binds each listed class to one emitter, in order, and raises on
  the first class that already has one; classes bound before that stay bound.
 */
module Registry {
  import opened Wrappers
  import opened Clauses

  /** The ValueError raised for a class that already has a handler. */
  datatype RegisterError = AlreadyHandled(cls: Kind, message: string)

  /** The table as the decorator would leave it after binding `classes`, in
      order, to `fn`, starting from `m`. */
  function Bind(m: map<Kind, Handler>, classes: seq<Kind>, fn: Handler): map<Kind, Handler>
  {
    if classes == [] then m
    else Bind(m, classes[..|classes| - 1], fn)[classes[|classes| - 1] := fn]
  }

  /** Whether the class at position `i` is refused: it is already in the table,
      or it appeared earlier in the same tuple and so was just bound. */
  predicate Clashes(m: map<Kind, Handler>, classes: seq<Kind>, i: nat)
    requires i < |classes|
  {
    classes[i] in m || classes[i] in classes[..i]
  }

  /** The position of the first refused class at or after `i`, or `|classes|`. */
  function FirstClashFrom(m: map<Kind, Handler>, classes: seq<Kind>, i: nat): (r: nat)
    requires i <= |classes|
    ensures i <= r <= |classes|
    ensures r < |classes| ==> Clashes(m, classes, r)
    ensures forall j | i <= j < r :: !Clashes(m, classes, j)
    decreases |classes| - i
  {
    if i == |classes| then i
    else if Clashes(m, classes, i) then i
    else FirstClashFrom(m, classes, i + 1)
  }

  /** The position of the first class that `handler` refuses, or the length
      of the list when it refuses none. */
  function FirstClash(m: map<Kind, Handler>, classes: seq<Kind>): (r: nat)
    ensures r <= |classes|
    ensures r < |classes| ==> Clashes(m, classes, r)
    ensures forall j | 0 <= j < r :: !Clashes(m, classes, j)
  {
    FirstClashFrom(m, classes, 0)
  }

  /** The error message as l2cs.py:34 writes it: the `%s` placeholder is never
      filled in, so it does not say which class was refused. */
  function DuplicateMessageAsWritten(cls: Kind): string
  {
    "%s already has a handler"
  }

  /** The message with the refused class's name in place of `%s`. */
  function DuplicateMessage(cls: Kind): string
  {
    ClassName(cls) + " already has a handler"
  }

  /** The table that the three decorated emitters leave behind at import time. */
  function DefaultHandlers(): map<Kind, Handler>
  {
    map[TermClass := FieldBuilder, PhraseClass := FieldBuilder,
        AndClass := GrouperBuilder, OrClass := GrouperBuilder, NotClass := GrouperBuilder,
        AndNotClass := CompoundBuilder]
  }

  /** Every class but Prefix has a handler; leaves use build_field, And, Or
      and Not use build_grouper, AndNot uses build_compound. */
  lemma DefaultHandlersCover(k: Kind)
    ensures k in DefaultHandlers() <==> k != PrefixClass
    ensures k == TermClass || k == PhraseClass ==> DefaultHandlers()[k] == FieldBuilder
    ensures k == AndClass || k == OrClass || k == NotClass ==> DefaultHandlers()[k] == GrouperBuilder
    ensures k == AndNotClass ==> DefaultHandlers()[k] == CompoundBuilder
  {
  }

  class HandlerRegistry {
    /** HANDLERS: query class to emitter. */
    var handlers: map<Kind, Handler>

    /** Importing the module: an empty table, then the three decorated
        emitters registered in source order. */
    constructor ()
      ensures handlers == DefaultHandlers()
    {
      handlers := map[];
      new;
      var fieldClasses, grouperClasses, compoundClasses := [TermClass, PhraseClass], [AndClass, OrClass, NotClass], [AndNotClass];
      assert FirstClash(handlers, fieldClasses) == 2 by {
        assert !Clashes(handlers, fieldClasses, 0) && !Clashes(handlers, fieldClasses, 1);
      }
      var fieldOutcome := Register(fieldClasses, FieldBuilder);
      assert fieldClasses[..2] == fieldClasses;
      assert handlers == map[TermClass := FieldBuilder, PhraseClass := FieldBuilder];
      assert FirstClash(handlers, grouperClasses) == 3 by {
        assert !Clashes(handlers, grouperClasses, 0) && !Clashes(handlers, grouperClasses, 1);
        assert !Clashes(handlers, grouperClasses, 2);
      }
      var grouperOutcome := Register(grouperClasses, GrouperBuilder);
      assert grouperClasses[..3] == grouperClasses;
      ghost var afterField := map[TermClass := FieldBuilder, PhraseClass := FieldBuilder];
      assert Bind(afterField, grouperClasses[..2], GrouperBuilder) == afterField[AndClass := GrouperBuilder][OrClass := GrouperBuilder] by {
        assert grouperClasses[..2][..1] == [AndClass];
        assert [AndClass][..0] == [];
        assert Bind(afterField, [AndClass], GrouperBuilder) == afterField[AndClass := GrouperBuilder];
      }
      assert handlers == afterField[AndClass := GrouperBuilder][OrClass := GrouperBuilder][NotClass := GrouperBuilder];
      assert FirstClash(handlers, compoundClasses) == 1 by {
        assert !Clashes(handlers, compoundClasses, 0);
      }
      var compoundOutcome := Register(compoundClasses, CompoundBuilder);
      assert compoundClasses[..1] == compoundClasses;
      assert handlers == DefaultHandlers();
      assert fieldOutcome.Pass? && grouperOutcome.Pass? && compoundOutcome.Pass?;
    }

    /** `handler(classes)(fn)`: binds each class in turn, raising on the first
        that already has a handler; the classes before it remain bound. */
    method Register(classes: seq<Kind>, fn: Handler) returns (outcome: Outcome<RegisterError>)
      modifies this
      ensures var k := FirstClash(old(handlers), classes);
        && handlers == Bind(old(handlers), classes[..k], fn)
        && (outcome.Pass? <==> k == |classes|)
        && (outcome.Fail? ==> outcome.error == AlreadyHandled(classes[k], DuplicateMessage(classes[k])))
    {
      var i := 0;
      while i < |classes|
        invariant 0 <= i <= |classes|
        invariant FirstClashFrom(old(handlers), classes, i) == FirstClash(old(handlers), classes)
        invariant handlers == Bind(old(handlers), classes[..i], fn)
        invariant forall j | 0 <= j < i :: !Clashes(old(handlers), classes, j)
      {
        BindDomain(old(handlers), classes[..i], fn, classes[i]);
        assert classes[..i][..i] == classes[..i];
        if classes[i] in handlers {
          return Fail(AlreadyHandled(classes[i], DuplicateMessage(classes[i])));
        }
        handlers := handlers[classes[i] := fn];
        assert classes[..i + 1][..i] == classes[..i];
        i := i + 1;
      }
      assert classes[..i] == classes;
      return Pass;
    }
  }

  /** A class is in the bound table exactly when it was there before or is
      listed; listed classes map to the new handler, others keep their entry. */
  lemma {:induction false} BindDomain(m: map<Kind, Handler>, classes: seq<Kind>, fn: Handler, k: Kind)
    ensures k in Bind(m, classes, fn) <==> k in m || k in classes
    ensures k in classes ==> Bind(m, classes, fn)[k] == fn
    ensures k !in classes && k in m ==> Bind(m, classes, fn)[k] == m[k]
    decreases |classes|
  {
    if classes != [] {
      var init := classes[..|classes| - 1];
      BindDomain(m, init, fn, k);
      assert classes == init + [classes[|classes| - 1]];
    }
  }

  predicate Distinct(classes: seq<Kind>)
  {
    forall i, j | 0 <= i < j < |classes| :: classes[i] != classes[j]
  }

  /** Registration succeeds exactly when no listed class is already handled
      and no class is listed twice. */
  lemma RegisterSucceedsIff(m: map<Kind, Handler>, classes: seq<Kind>)
    ensures FirstClash(m, classes) == |classes| <==>
      (forall i | 0 <= i < |classes| :: classes[i] !in m) && Distinct(classes)
  {
    if FirstClash(m, classes) == |classes| {
      forall i | 0 <= i < |classes| ensures classes[i] !in m {
        assert !Clashes(m, classes, i);
      }
      forall i, j | 0 <= i < j < |classes| ensures classes[i] != classes[j] {
        assert !Clashes(m, classes, j);
        assert classes[i] == classes[..j][i];
      }
    } else {
      var k := FirstClash(m, classes);
      assert Clashes(m, classes, k);
      if classes[k] !in m {
        var i :| 0 <= i < k && classes[..k][i] == classes[k];
        assert classes[i] == classes[k];
      }
    }
  }

  /** What one `handler(classes)` call leaves in the table: the classes before
      the first refused one map to the new handler, every other class keeps
      the entry (or absence of entry) it had, and the refused class, if any,
      was already handled or listed earlier. */
  lemma {:induction false} RegisterEffect(m: map<Kind, Handler>, classes: seq<Kind>, fn: Handler)
    ensures var k := FirstClash(m, classes);
      && (forall j | 0 <= j < k :: classes[j] in Bind(m, classes[..k], fn) && Bind(m, classes[..k], fn)[classes[j]] == fn)
      && (forall c: Kind | c !in classes[..k] :: (c in Bind(m, classes[..k], fn) <==> c in m))
      && (forall c: Kind | c !in classes[..k] && c in m :: Bind(m, classes[..k], fn)[c] == m[c])
      && (k < |classes| ==> classes[k] in m || classes[k] in classes[..k])
  {
    var k := FirstClash(m, classes);
    var t := Bind(m, classes[..k], fn);
    forall j | 0 <= j < k ensures classes[j] in t && t[classes[j]] == fn {
      assert classes[j] == classes[..k][j];
      BindDomain(m, classes[..k], fn, classes[j]);
    }
    forall c: Kind | c !in classes[..k] ensures (c in t <==> c in m) && (c in m ==> t[c] == m[c]) {
      BindDomain(m, classes[..k], fn, c);
    }
    if k < |classes| {
      assert Clashes(m, classes, k);
    }
  }

  /** The source's message is the same for every class and still holds the
      unformatted placeholder. */
  lemma DuplicateMessageAsWrittenOmitsClass(a: Kind, b: Kind)
    ensures DuplicateMessageAsWritten(a) == DuplicateMessageAsWritten(b)
    ensures DuplicateMessageAsWritten(a)[..2] == "%s"
  {
  }

  /** The corrected message starts with the refused class's name, so distinct
      classes give distinct messages. */
  lemma {:induction false} DuplicateMessageNamesClass(a: Kind, b: Kind)
    ensures DuplicateMessage(a)[..|ClassName(a)|] == ClassName(a)
    ensures DuplicateMessage(a) == DuplicateMessage(b) ==> a == b
  {
    var suffix := " already has a handler";
    assert DuplicateMessage(a)[..|ClassName(a)|] == ClassName(a);
    if DuplicateMessage(a) == DuplicateMessage(b) {
      assert |ClassName(a)| == |ClassName(b)|;
      assert ClassName(a) == DuplicateMessage(a)[..|ClassName(a)|];
      assert ClassName(b) == DuplicateMessage(b)[..|ClassName(b)|];
    }
  }
}
