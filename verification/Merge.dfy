/** Intersection, union and conversion of two permissions, as recursive definitions on trees. */
module Merge {
  import opened BasePermission
  import opened Permission
  import opened Convert

  datatype Action = Conversion | StrictConversion | Intersection | Union

  /** Function closures, receivers and parameters are merged with union and intersection exchanged. */
  function Contravariant(action: Action): Action {
    match action
    case Intersection => Union
    case Union => Intersection
    case _ => action
  }

  function MergeBase(action: Action, a: Rights, b: Rights): Rights {
    match action
    case Intersection => And(a, b)
    case Union => Or(a, b)
    case _ => b
  }

  predicate IsConversion(action: Action) {
    action.Conversion? || action.StrictConversion?
  }

  /** The same shape with the same number of parts of every sort. */
  predicate SameArity(ka: Kind, na: nat, kb: Kind, nb: nat) {
    na == nb &&
    if ka.Func? then kb.Func? && ka.receivers == kb.receivers && ka.params == kb.params else ka == kb
  }

  /** The action for part `i`. */
  function PartAction(kind: Kind, i: nat, action: Action): Action {
    if Contra(kind, i) then Contravariant(action) else action
  }

  function HeadAction(kind: Kind, action: Action): Action {
    if kind.Func? then Contravariant(action) else action
  }

  /** The merge of `a` with `b` is defined. */
  predicate Mergeable(a: Perm, b: Perm, action: Action) {
    if IsConversion(action) && !a.Base? && b.Base? then Convertible(a, action.StrictConversion?)
    else
      match a
      case Base(_) => b.Base? || b.Wildcard?
      case Wildcard => true
      case Nil => b.Nil? || b.Wildcard? || (b.Node? && Nilable(b.kind))
      case Node(kind, _, parts) =>
        match b
        case Base(_) => false
        case Wildcard => true
        case Nil => Nilable(kind)
        case Node(_, _, _) =>
          && SameArity(kind, |parts|, b.kind, |b.parts|)
          && forall i :: 0 <= i < |parts| ==> Mergeable(parts[i], b.parts[i], PartAction(kind, i, action))
  }

  /** The merge of `a` with `b`. A merged function keeps the name of the left one. */
  function Merged(a: Perm, b: Perm, action: Action): Perm
    requires Mergeable(a, b, action)
  {
    if IsConversion(action) && !a.Base? && b.Base? then ConvertToBase(a, b.rights, action.StrictConversion?)
    else if b.Wildcard? then a
    else
      match a
      case Base(x) => Base(MergeBase(action, x, b.rights))
      case Wildcard => b
      case Nil => b
      case Node(kind, x, parts) =>
        if b.Nil? then a
        else
          Node(kind, MergeBase(HeadAction(kind, action), x, b.base),
            seq(|parts|, i requires 0 <= i < |parts| => Merged(parts[i], b.parts[i], PartAction(kind, i, action))))
  }

  // ----- permissions up to the names of functions

  function EraseKind(kind: Kind): Kind {
    if kind.Func? then kind.(name := "") else kind
  }

  /** The permission without function names. */
  function Erase(p: Perm): (r: Perm)
    ensures r.Wildcard? == p.Wildcard? && r.Nil? == p.Nil? && r.Base? == p.Base?
  {
    if p.Node? then Node(EraseKind(p.kind), p.base, seq(|p.parts|, i requires 0 <= i < |p.parts| => Erase(p.parts[i])))
    else p
  }

  predicate IsLattice(action: Action) {
    action.Intersection? || action.Union?
  }

  /** Merging commutes with erasing names. */
  lemma {:induction false} EraseMerged(a: Perm, b: Perm, action: Action)
    requires IsLattice(action)
    ensures Mergeable(Erase(a), Erase(b), action) <==> Mergeable(a, b, action)
    ensures Mergeable(a, b, action) ==> Erase(Merged(a, b, action)) == Merged(Erase(a), Erase(b), action)
  {
    if a.Node? && b.Node? && SameArity(a.kind, |a.parts|, b.kind, |b.parts|) {
      var ea, eb := Erase(a), Erase(b);
      forall i | 0 <= i < |a.parts|
        ensures Mergeable(ea.parts[i], eb.parts[i], PartAction(a.kind, i, action)) <==> Mergeable(a.parts[i], b.parts[i], PartAction(a.kind, i, action))
        ensures Mergeable(a.parts[i], b.parts[i], PartAction(a.kind, i, action)) ==>
          Erase(Merged(a.parts[i], b.parts[i], PartAction(a.kind, i, action))) == Merged(ea.parts[i], eb.parts[i], PartAction(a.kind, i, action))
      {
        EraseMerged(a.parts[i], b.parts[i], PartAction(a.kind, i, action));
      }
      if Mergeable(a, b, action) {
        assert Erase(Merged(a, b, action)).parts == Merged(ea, eb, action).parts;
      }
    }
  }

  // ----- lattice laws

  /** Merging is commutative up to function names, definedness included. */
  lemma {:induction false} Commutative(a: Perm, b: Perm, action: Action)
    requires IsLattice(action)
    ensures Mergeable(a, b, action) <==> Mergeable(b, a, action)
    ensures Mergeable(a, b, action) ==> Erase(Merged(a, b, action)) == Erase(Merged(b, a, action))
  {
    if a.Node? && b.Node? && SameArity(a.kind, |a.parts|, b.kind, |b.parts|) {
      forall i | 0 <= i < |a.parts|
        ensures Mergeable(a.parts[i], b.parts[i], PartAction(a.kind, i, action)) <==> Mergeable(b.parts[i], a.parts[i], PartAction(b.kind, i, action))
        ensures Mergeable(a.parts[i], b.parts[i], PartAction(a.kind, i, action)) ==>
          Erase(Merged(a.parts[i], b.parts[i], PartAction(a.kind, i, action))) == Erase(Merged(b.parts[i], a.parts[i], PartAction(b.kind, i, action)))
      {
        Commutative(a.parts[i], b.parts[i], PartAction(a.kind, i, action));
      }
      if Mergeable(a, b, action) {
        assert Erase(Merged(a, b, action)).parts == Erase(Merged(b, a, action)).parts;
      }
    }
  }

  /** Merging is idempotent. */
  lemma {:induction false} Idempotent(a: Perm, action: Action)
    ensures Mergeable(a, a, action) && Merged(a, a, action) == a
  {
    if a.Node? {
      forall i | 0 <= i < |a.parts|
        ensures Mergeable(a.parts[i], a.parts[i], PartAction(a.kind, i, action))
        ensures Merged(a.parts[i], a.parts[i], PartAction(a.kind, i, action)) == a.parts[i]
      {
        Idempotent(a.parts[i], PartAction(a.kind, i, action));
      }
      assert Merged(a, a, action).parts == a.parts;
    }
  }

  /** Merging first on the left and merging first on the right agree, definedness and names included. */
  ghost predicate Associates(a: Perm, b: Perm, c: Perm, action: Action) {
    var left := Mergeable(a, b, action) && Mergeable(Merged(a, b, action), c, action);
    var right := Mergeable(b, c, action) && Mergeable(a, Merged(b, c, action), action);
    && (left <==> right)
    && (left ==> Merged(Merged(a, b, action), c, action) == Merged(a, Merged(b, c, action), action))
  }

  /** The parts of two merged structures are merged one by one. */
  lemma MergedPart(a: Perm, b: Perm, action: Action, i: nat)
    requires a.Node? && b.Node? && Mergeable(a, b, action) && i < |a.parts|
    ensures |b.parts| == |a.parts| && Mergeable(a.parts[i], b.parts[i], PartAction(a.kind, i, action))
    ensures PartAction(a.kind, i, action) == PartAction(b.kind, i, action)
    ensures var m := Merged(a, b, action);
      m.Node? && m.kind == a.kind && |m.parts| == |a.parts|
      && m.parts[i] == Merged(a.parts[i], b.parts[i], PartAction(a.kind, i, action))
  {
  }

  /** Two structures merge when their parts do. */
  lemma NodeMergeable(a: Perm, b: Perm, action: Action)
    requires a.Node? && b.Node? && SameArity(a.kind, |a.parts|, b.kind, |b.parts|)
    requires forall i :: 0 <= i < |a.parts| ==> Mergeable(a.parts[i], b.parts[i], PartAction(a.kind, i, action))
    ensures Mergeable(a, b, action)
  {
  }

  /** One part of the associativity of two structures. */
  lemma AssociativePart(a: Perm, b: Perm, c: Perm, action: Action, i: nat)
    requires IsLattice(action) && a.Node? && b.Node? && c.Node? && i < |a.parts|
    requires Mergeable(a, b, action) && Mergeable(Merged(a, b, action), c, action)
    requires |b.parts| == |c.parts| == |a.parts|
    requires Associates(a.parts[i], b.parts[i], c.parts[i], PartAction(a.kind, i, action))
    ensures var act := PartAction(a.kind, i, action);
      && act == PartAction(b.kind, i, action)
      && Mergeable(b.parts[i], c.parts[i], act)
      && Mergeable(a.parts[i], Merged(b.parts[i], c.parts[i], act), act)
      && Merged(Merged(a, b, action), c, action).parts[i] == Merged(a.parts[i], Merged(b.parts[i], c.parts[i], act), act)
  {
    MergedPart(a, b, action, i);
    MergedPart(Merged(a, b, action), c, action, i);
  }

  lemma AssociativeLeft(a: Perm, b: Perm, c: Perm, action: Action)
    requires IsLattice(action) && a.Node? && b.Node? && c.Node?
    requires Mergeable(a, b, action) && Mergeable(Merged(a, b, action), c, action)
    requires |b.parts| == |c.parts| == |a.parts|
    requires forall i :: 0 <= i < |a.parts| ==> Associates(a.parts[i], b.parts[i], c.parts[i], PartAction(a.kind, i, action))
    ensures Mergeable(b, c, action) && Mergeable(a, Merged(b, c, action), action)
    ensures Merged(Merged(a, b, action), c, action) == Merged(a, Merged(b, c, action), action)
  {
    forall i | 0 <= i < |a.parts|
      ensures Mergeable(b.parts[i], c.parts[i], PartAction(b.kind, i, action))
    {
      AssociativePart(a, b, c, action, i);
    }
    NodeMergeable(b, c, action);
    var bc := Merged(b, c, action);
    forall i | 0 <= i < |a.parts|
      ensures Mergeable(a.parts[i], bc.parts[i], PartAction(a.kind, i, action))
    {
      AssociativePart(a, b, c, action, i);
      MergedPart(b, c, action, i);
    }
    NodeMergeable(a, bc, action);
    forall i | 0 <= i < |a.parts|
      ensures Merged(Merged(a, b, action), c, action).parts[i] == Merged(a, bc, action).parts[i]
    {
      AssociativePart(a, b, c, action, i);
      MergedPart(b, c, action, i);
      MergedPart(a, bc, action, i);
    }
    assert Merged(Merged(a, b, action), c, action).parts == Merged(a, bc, action).parts;
  }

  lemma AssociativeRight(a: Perm, b: Perm, c: Perm, action: Action)
    requires IsLattice(action) && a.Node? && b.Node? && c.Node?
    requires Mergeable(b, c, action) && Mergeable(a, Merged(b, c, action), action)
    requires forall i :: 0 <= i < |a.parts| ==> Associates(a.parts[i], b.parts[i], c.parts[i], PartAction(a.kind, i, action))
    ensures Mergeable(a, b, action) && Mergeable(Merged(a, b, action), c, action)
  {
    forall i | 0 <= i < |a.parts|
      ensures Mergeable(a.parts[i], b.parts[i], PartAction(a.kind, i, action))
      ensures Mergeable(Merged(a.parts[i], b.parts[i], PartAction(a.kind, i, action)), c.parts[i], PartAction(a.kind, i, action))
    {
      MergedPart(b, c, action, i);
      MergedPart(a, Merged(b, c, action), action, i);
      assert Associates(a.parts[i], b.parts[i], c.parts[i], PartAction(a.kind, i, action));
    }
    NodeMergeable(a, b, action);
    NodeMergeable(Merged(a, b, action), c, action);
  }

  /** Three permissions of which one has no parts to merge, or another number of parts. */
  lemma AssociativeLeaf(a: Perm, b: Perm, c: Perm, action: Action)
    requires IsLattice(action) && !(a.Node? && b.Node? && c.Node? && |a.parts| == |b.parts| == |c.parts|)
    ensures Associates(a, b, c, action)
  {
    hide ConvertToBase, Convertible;
  }

  /** Merging is associative. */
  lemma {:induction false} Associative(a: Perm, b: Perm, c: Perm, action: Action)
    requires IsLattice(action)
    ensures Associates(a, b, c, action)
  {
    hide ConvertToBase, Convertible, MergeBase;
    if a.Node? && b.Node? && c.Node? && |a.parts| == |b.parts| == |c.parts| {
      forall i | 0 <= i < |a.parts|
        ensures Associates(a.parts[i], b.parts[i], c.parts[i], PartAction(a.kind, i, action))
      {
        Associative(a.parts[i], b.parts[i], c.parts[i], PartAction(a.kind, i, action));
      }
      if Mergeable(b, c, action) && Mergeable(a, Merged(b, c, action), action) {
        AssociativeRight(a, b, c, action);
      }
      if Mergeable(a, b, action) && Mergeable(Merged(a, b, action), c, action) {
        AssociativeLeft(a, b, c, action);
      }
    } else {
      AssociativeLeaf(a, b, c, action);
    }
  }

  /** The wildcard is neutral on both sides. */
  lemma WildcardNeutral(a: Perm, action: Action)
    ensures Mergeable(a, Wildcard, action) && Merged(a, Wildcard, action) == a
    ensures IsLattice(action) ==> Mergeable(Wildcard, a, action) && Merged(Wildcard, a, action) == a
  {
  }

  /** Nil is neutral exactly for nilable shapes, nil itself and the wildcard; it merges with nothing else. */
  lemma NilNeutral(a: Perm, action: Action)
    requires IsLattice(action)
    ensures Mergeable(a, Nil, action) <==> (a.Wildcard? || a.Nil? || (a.Node? && Nilable(a.kind)))
    ensures Mergeable(a, Nil, action) <==> Mergeable(Nil, a, action)
    ensures Mergeable(a, Nil, action) && !a.Wildcard? ==> Merged(a, Nil, action) == a && Merged(Nil, a, action) == a
  {
  }

  /** No nil and no wildcard anywhere. */
  predicate Solid(p: Perm) {
    p.Base? || (p.Node? && forall i :: 0 <= i < |p.parts| ==> Solid(p.parts[i]))
  }

  /** Union absorbs intersection and the other way round. */
  lemma {:induction false} Absorption(a: Perm, b: Perm, action: Action)
    requires IsLattice(action) && Solid(a) && Solid(b)
    requires Mergeable(a, b, Contravariant(action))
    ensures Mergeable(a, Merged(a, b, Contravariant(action)), action)
    ensures Merged(a, Merged(a, b, Contravariant(action)), action) == a
  {
    if a.Node? {
      var m := Merged(a, b, Contravariant(action));
      forall i | 0 <= i < |a.parts|
        ensures Mergeable(a.parts[i], m.parts[i], PartAction(a.kind, i, action))
        ensures Merged(a.parts[i], m.parts[i], PartAction(a.kind, i, action)) == a.parts[i]
      {
        Absorption(a.parts[i], b.parts[i], PartAction(a.kind, i, action));
      }
      assert Merged(a, m, action).parts == a.parts;
    }
  }

  /** Completing an annotation twice, with the same goal, is completing it once: for every goal that a
      permission converts to, the result converts to it again, unchanged. */
  lemma {:induction false} ConvertToIdempotent(p: Perm, goal: Perm, action: Action)
    requires IsConversion(action) && Mergeable(p, goal, action)
    ensures Mergeable(Merged(p, goal, action), goal, action)
    ensures Merged(Merged(p, goal, action), goal, action) == Merged(p, goal, action)
  {
    if !p.Base? && goal.Base? {
      ConvertToBaseIdempotent(p, goal.rights, action.StrictConversion?);
    } else if p.Node? && goal.Node? {
      var m := Merged(p, goal, action);
      forall i | 0 <= i < |p.parts|
        ensures Mergeable(m.parts[i], goal.parts[i], action) && Merged(m.parts[i], goal.parts[i], action) == m.parts[i]
      {
        ConvertToIdempotent(p.parts[i], goal.parts[i], action);
      }
      assert Merged(m, goal, action).parts == m.parts;
    } else if !p.Base? && goal != Wildcard {
      Idempotent(goal, action);
    }
  }
}
