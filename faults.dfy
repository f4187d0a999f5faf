/**
  When emitting raises, and with which error: every Prefix node and every
  phrase without words is a fault, and the emitter stops at the first one in
  left-to-right order instead of leaving it out of the output.
 */
module EmitFaults {
  import opened Wrappers
  import opened Clauses
  import opened Emitter

  /** The faults of a clause tree, in the order the emitter meets them. */
  function Faults(c: Clause): seq<EmitError>
    decreases c, 1, 0
  {
    match c
    case Term(_, _, _) => []
    case Phrase(_, words, _) => if words == [] then [EmptyPhrase] else []
    case And(_) => FaultsAmong(c, 0)
    case Or(_) => FaultsAmong(c, 0)
    case Not(_) => FaultsAmong(c, 0)
    case AndNot(use, avoid) => Faults(use) + Faults(avoid)
    case Prefix(_, _) => [NoHandler(PrefixClass)]
  }

  function FaultsAmong(c: Clause, i: nat): seq<EmitError>
    requires c.And? || c.Or? || c.Not?
    requires i <= |Children(c)|
    decreases c, 0, |Children(c)| - i
  {
    if i == |Children(c)| then [] else Faults(Children(c)[i]) + FaultsAmong(c, i + 1)
  }

  /** `r` fails exactly when there is a fault, and with the first one. */
  predicate ReportsFirst<T>(r: Result<T, EmitError>, faults: seq<EmitError>)
  {
    && (r.Failure? <==> faults != [])
    && (r.Failure? ==> r.error == faults[0])
  }

  lemma {:induction false} WalkReportsFirstFault(c: Clause)
    ensures ReportsFirst(Walk(c), Faults(c))
    decreases c, 1, 0
  {
    match c
    case Term(_, _, _) =>
    case Phrase(_, _, _) =>
    case Prefix(_, _) =>
    case And(_) => WalkChildrenReportsFirstFault(c, 0);
    case Or(_) => WalkChildrenReportsFirstFault(c, 0);
    case Not(_) => WalkChildrenReportsFirstFault(c, 0);
    case AndNot(use, avoid) =>
      WalkReportsFirstFault(use);
      WalkReportsFirstFault(avoid);
  }

  lemma {:induction false} WalkChildrenReportsFirstFault(c: Clause, i: nat)
    requires c.And? || c.Or? || c.Not?
    requires i <= |Children(c)|
    ensures ReportsFirst(WalkChildren(c, i), FaultsAmong(c, i))
    decreases c, 0, |Children(c)| - i
  {
    if i < |Children(c)| {
      WalkReportsFirstFault(Children(c)[i]);
      WalkChildrenReportsFirstFault(c, i + 1);
    }
  }

  /** Emitting a clause raises exactly when some node in it is a Prefix or a
      phrase without words, and the error is that of the first such node;
      otherwise it yields a string. */
  lemma EmitFailsAtFirstFault(c: Clause)
    ensures Emit(c).Failure? <==> Faults(c) != []
    ensures Emit(c).Failure? ==> Emit(c).error == Faults(c)[0]
  {
    WalkReportsFirstFault(c);
  }

  /** Some node of the tree, at any depth, is a Prefix. */
  predicate HasPrefix(c: Clause)
  {
    match c
    case Term(_, _, _) => false
    case Phrase(_, _, _) => false
    case And(cs) => exists x | x in cs :: HasPrefix(x)
    case Or(cs) => exists x | x in cs :: HasPrefix(x)
    case Not(x) => HasPrefix(x)
    case AndNot(use, avoid) => HasPrefix(use) || HasPrefix(avoid)
    case Prefix(_, _) => true
  }

  /** A Prefix anywhere in a tree, even under other clauses, makes emitting
      the whole tree raise. */
  lemma PrefixAnywhereRaises(c: Clause)
    requires HasPrefix(c)
    ensures Emit(c).Failure?
  {
    PrefixIsFault(c);
    EmitFailsAtFirstFault(c);
  }

  lemma {:induction false} PrefixIsFault(c: Clause)
    requires HasPrefix(c)
    ensures Faults(c) != []
  {
    match c
    case And(cs) =>
      var x :| x in cs && HasPrefix(x);
      var j :| 0 <= j < |cs| && cs[j] == x;
      PrefixIsFault(x);
      FaultsAmongIncludes(c, 0, j);
    case Or(cs) =>
      var x :| x in cs && HasPrefix(x);
      var j :| 0 <= j < |cs| && cs[j] == x;
      PrefixIsFault(x);
      FaultsAmongIncludes(c, 0, j);
    case Not(x) =>
      PrefixIsFault(x);
      FaultsAmongIncludes(c, 0, 0);
    case AndNot(use, avoid) =>
      if HasPrefix(use) {
        PrefixIsFault(use);
      } else {
        PrefixIsFault(avoid);
      }
    case Prefix(_, _) =>
  }

  lemma {:induction false} FaultsAmongIncludes(c: Clause, i: nat, j: nat)
    requires c.And? || c.Or? || c.Not?
    requires i <= j < |Children(c)|
    ensures |FaultsAmong(c, i)| >= |Faults(Children(c)[j])|
    decreases j - i
  {
    if i < j {
      FaultsAmongIncludes(c, i + 1, j);
    }
  }
}
