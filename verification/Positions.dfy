/** Conversion and merging position by position: which rights every part of the result has. */
module Positions {
  import opened BasePermission
  import opened Permission
  import opened Convert
  import opened Merge
  import opened Graph
  import M = MergeRules
  import opened MergeMemo
  import Cyclic

  // ----- positions

  /** The permission has a part at the end of the path. */
  predicate Has(p: Perm, path: seq<nat>) {
    path == [] || (p.Node? && path[0] < |p.parts| && Has(p.parts[path[0]], path[1..]))
  }

  function At(p: Perm, path: seq<nat>): Perm
    requires Has(p, path)
  {
    if path == [] then p else At(p.parts[path[0]], path[1..])
  }

  /** Structures whose parts do not take over the base of the whole. */
  predicate KeepsParts(kind: Kind, strict: bool) {
    match kind
    case Func(_, _, _) | Interface => true
    case Pointer => !strict
    case Chan | Array | Slice | Map | Struct | Tuple => false
  }

  /** The path enters no such structure. */
  predicate StaysInside(p: Perm, path: seq<nat>, strict: bool) {
    path != [] ==> p.Node? && path[0] < |p.parts| && !KeepsParts(p.kind, strict) && StaysInside(p.parts[path[0]], path[1..], strict)
  }

  // ----- conversion to a base

  /** The rights `after` of the target of a pointer that has come to have the rights `pointer`: those it had,
      `before`, owned like the pointer; and unless the pointer may be read exclusively, without a pair of writing and
      exclusive writing, and not exclusively readable where it is readable. */
  predicate Stripped(pointer: Rights, before: Rights, after: Rights) {
    && after.o == pointer.o && after.r == before.r
    && after.w == (before.w && (pointer.xr || !before.xw))
    && after.xw == (before.xw && (pointer.xr || !before.w))
    && after.xr == (before.xr && (pointer.xr || !before.r))
  }

  /** Part `i` of `p` has become part `i` of `q`. */
  predicate PartConverted(p: Perm, q: Perm, strict: bool, i: nat)
    requires p.Node? && q.Node? && i < |p.parts| && i < |q.parts|
  {
    var before, after := p.parts[i], q.parts[i];
    && (after.Nil? <==> before.Nil?) && !after.Wildcard?
    && (!after.Nil? ==>
          match p.kind
          case Func(_, _, _) | Interface => !before.Wildcard? && BaseOf(after) == BaseOf(before)
          case Pointer =>
            if strict then BaseOf(after) == q.base else !before.Wildcard? && Stripped(q.base, BaseOf(before), BaseOf(after))
          case Chan | Array | Slice | Map | Struct | Tuple => BaseOf(after) == q.base)
  }

  lemma StripsTarget(pointer: Rights, target: Rights)
    ensures Stripped(pointer, target, StripTarget(pointer, target))
  {
  }

  /** What stands at a position after conversion is what stood there, converted to some base. */
  lemma {:induction false} ConvertedAt(p: Perm, goal: Rights, strict: bool, path: seq<nat>) returns (g: Rights)
    requires Convertible(p, strict) && Has(p, path)
    ensures Has(ConvertToBase(p, goal, strict), path) && Convertible(At(p, path), strict)
    ensures At(ConvertToBase(p, goal, strict), path) == ConvertToBase(At(p, path), g, strict)
    ensures StaysInside(p, path, strict) ==> g == goal
    decreases |path|
  {
    if path == [] {
      g := goal;
    } else {
      var i := path[0];
      g := ConvertedAt(p.parts[i], PartGoal(p.kind, goal, p.parts[i], strict), strict, path[1..]);
    }
  }

  /** Converting keeps the shape, gives the goal to every place that is not inside a function, an interface or, in
      normal mode, behind a pointer, and decides at every other place by the structure it is a part of: parts of
      functions and interfaces keep their base, and the target of a pointer keeps its own rights but those that are
      stripped. */
  lemma {:induction false} ConvertedPlaces(p: Perm, goal: Rights, strict: bool, path: seq<nat>)
    requires Convertible(p, strict) && Has(p, path)
    ensures var q := ConvertToBase(p, goal, strict);
      && Has(q, path)
      && var before, after := At(p, path), At(q, path);
         && (after.Nil? <==> before.Nil?) && !after.Wildcard?
         && (!after.Nil? && StaysInside(p, path, strict) ==> BaseOf(after) == goal)
         && (before.Node? ==>
               && after.Node? && after.kind == before.kind && |after.parts| == |before.parts|
               && forall i :: 0 <= i < |before.parts| ==> PartConverted(before, after, strict, i))
  {
    var g := ConvertedAt(p, goal, strict, path);
    var before := At(p, path);
    if before.Node? {
      forall i | 0 <= i < |before.parts|
        ensures PartConverted(before, ConvertToBase(before, g, strict), strict, i)
      {
        if before.kind.Pointer? && !strict {
          StripsTarget(g, BaseOf(before.parts[i]));
        }
      }
    }
  }

  /** Conversion is defined exactly if no function, interface or, in normal mode, pointer has a wildcard as a part. */
  lemma {:induction false} ConvertibleIff(p: Perm, strict: bool)
    ensures Convertible(p, strict) <==>
      forall path :: Has(p, path) && At(p, path).Node? && KeepsParts(At(p, path).kind, strict) ==> Wildcard !in At(p, path).parts
  {
    if Convertible(p, strict) {
      forall path | Has(p, path) && At(p, path).Node? && KeepsParts(At(p, path).kind, strict)
        ensures Wildcard !in At(p, path).parts
      {
        var g := ConvertedAt(p, NO_RIGHTS, strict, path);
      }
    } else {
      var path := Inconvertible(p, strict);
    }
  }

  lemma {:induction false} Inconvertible(p: Perm, strict: bool) returns (path: seq<nat>)
    requires !Convertible(p, strict)
    ensures Has(p, path) && At(p, path).Node? && KeepsParts(At(p, path).kind, strict) && Wildcard in At(p, path).parts
  {
    var i: nat :| i < |p.parts| && !(Convertible(p.parts[i], strict) && (AsksBase(p.kind, strict) ==> !p.parts[i].Wildcard?));
    if !Convertible(p.parts[i], strict) {
      var rest := Inconvertible(p.parts[i], strict);
      path := [i] + rest;
      assert path[1..] == rest;
    } else {
      path := [];
    }
  }

  // ----- merging

  /** The path goes through receivers and parameters of functions an odd number of times. */
  predicate Flipped(p: Perm, path: seq<nat>)
    requires Has(p, path)
    decreases |path|
  {
    path != [] &&
      var input := p.kind.Func? && path[0] < p.kind.receivers + p.kind.params;
      Flipped(p.parts[path[0]], path[1..]) != input
  }

  /** Intersection and union change places. */
  function Opposite(action: Action): Action {
    match action
    case Intersection => Union
    case Union => Intersection
    case Conversion => Conversion
    case StrictConversion => StrictConversion
  }

  function Turned(action: Action, odd: bool): Action {
    if odd then Opposite(action) else action
  }

  /** `r` has the rights that `x` and `y` both have, that either has, or those of `y`. */
  predicate RightsMerged(r: Rights, x: Rights, y: Rights, action: Action) {
    match action
    case Intersection =>
      r.o == (x.o && y.o) && r.r == (x.r && y.r) && r.w == (x.w && y.w) && r.xr == (x.xr && y.xr) && r.xw == (x.xw && y.xw)
    case Union =>
      r.o == (x.o || y.o) && r.r == (x.r || y.r) && r.w == (x.w || y.w) && r.xr == (x.xr || y.xr) && r.xw == (x.xw || y.xw)
    case Conversion | StrictConversion => r == y
  }

  predicate MayBeNil(kind: Kind) {
    match kind
    case Pointer | Chan | Slice | Map | Interface => true
    case Func(_, _, _) => true
    case Array | Struct | Tuple => false
  }

  /** `x` and `y` merge, their parts aside. */
  predicate HereMergeable(x: Perm, y: Perm, action: Action) {
    var converts := action.Conversion? || action.StrictConversion?;
    match x
    case Wildcard => true
    case Base(_) => y.Base? || y.Wildcard?
    case Nil => y.Nil? || y.Wildcard? || (y.Node? && MayBeNil(y.kind)) || (y.Base? && converts)
    case Node(kind, _, parts) =>
      match y
      case Wildcard => true
      case Nil => MayBeNil(kind)
      case Base(_) => converts && Convertible(x, action.StrictConversion?)
      case Node(other, _, others) =>
        && |parts| == |others|
        && (other == kind || (kind.Func? && other.Func? && other.receivers == kind.receivers && other.params == kind.params))
  }

  /** `m` is the merge of `x` and `y`, their parts aside: a wildcard gives way to the other, nil to a structure, a base
      permission is what a structure is converted to, and the closures of functions merge the other way round. */
  predicate HereMerged(m: Perm, x: Perm, y: Perm, action: Action) {
    match y
    case Wildcard => m == x
    case Nil => m == if x.Wildcard? then y else x
    case Base(b) =>
      (match x
       case Base(a) => m.Base? && RightsMerged(m.rights, a, b, action)
       case Wildcard => m == y
       case Nil => m == x
       case Node(_, _, _) => Convertible(x, action.StrictConversion?) && m == ConvertToBase(x, b, action.StrictConversion?))
    case Node(_, b, others) =>
      (match x
       case Node(kind, a, _) =>
         && m.Node? && m.kind == kind && |m.parts| == |others|
         && RightsMerged(m.base, a, b, if kind.Func? then Opposite(action) else action)
       case _ => m == y)
  }

  lemma MergesHere(x: Perm, y: Perm, action: Action)
    ensures Mergeable(x, y, action) ==> HereMergeable(x, y, action) && HereMerged(Merged(x, y, action), x, y, action)
  {
  }

  /** What stands at a position after a merge is the merge of what stands there before, with the action turned round
      if the path goes through inputs of functions an odd number of times. */
  lemma {:induction false} MergedAt(a: Perm, b: Perm, action: Action, path: seq<nat>)
    requires Mergeable(a, b, action) && Has(a, path) && Has(b, path)
    ensures var turned := Turned(action, Flipped(a, path));
      && Mergeable(At(a, path), At(b, path), turned)
      && Has(Merged(a, b, action), path) && At(Merged(a, b, action), path) == Merged(At(a, path), At(b, path), turned)
    decreases |path|
  {
    if path != [] {
      var i := path[0];
      MergedAt(a.parts[i], b.parts[i], PartAction(a.kind, i, action), path[1..]);
      TurnedTwice(action, Contra(a.kind, i), Flipped(a.parts[i], path[1..]));
    }
  }

  lemma TurnedTwice(action: Action, input: bool, odd: bool)
    ensures Turned(if input then Contravariant(action) else action, odd) == Turned(action, odd != input)
  {
  }

  /** Merging, position by position: in every action, at every place that both permissions have. */
  lemma MergedPlaces(a: Perm, b: Perm, action: Action, path: seq<nat>)
    requires Mergeable(a, b, action) && Has(a, path) && Has(b, path)
    ensures var m, turned := Merged(a, b, action), Turned(action, Flipped(a, path));
      Has(m, path) && HereMergeable(At(a, path), At(b, path), turned) && HereMerged(At(m, path), At(a, path), At(b, path), turned)
  {
    MergedAt(a, b, action, path);
    MergesHere(At(a, path), At(b, path), Turned(action, Flipped(a, path)));
  }

  /** Two permissions merge exactly if they do at every place that both have. */
  lemma {:induction false} MergeableIff(a: Perm, b: Perm, action: Action)
    ensures Mergeable(a, b, action) <==>
      forall path :: Has(a, path) && Has(b, path) ==> HereMergeable(At(a, path), At(b, path), Turned(action, Flipped(a, path)))
  {
    if Mergeable(a, b, action) {
      forall path | Has(a, path) && Has(b, path)
        ensures HereMergeable(At(a, path), At(b, path), Turned(action, Flipped(a, path)))
      {
        MergedPlaces(a, b, action, path);
      }
    } else {
      var path := Unmergeable(a, b, action);
    }
  }

  lemma {:induction false} Unmergeable(a: Perm, b: Perm, action: Action) returns (path: seq<nat>)
    requires !Mergeable(a, b, action)
    ensures Has(a, path) && Has(b, path) && !HereMergeable(At(a, path), At(b, path), Turned(action, Flipped(a, path)))
    decreases a
  {
    if HereMergeable(a, b, action) {
      var i: nat :| i < |a.parts| && !Mergeable(a.parts[i], b.parts[i], PartAction(a.kind, i, action));
      var rest := Unmergeable(a.parts[i], b.parts[i], PartAction(a.kind, i, action));
      path := [i] + rest;
      assert path[1..] == rest;
      TurnedTwice(action, Contra(a.kind, i), Flipped(a.parts[i], rest));
    } else {
      path := [];
    }
  }

  // ----- completing an annotation

  /** The goal says everything about the permission: it has a structure wherever `p` has one, a base permission
      only where `p` has one, and neither nil nor wildcards. */
  predicate Complete(p: Perm, goal: Perm) {
    match goal
    case Base(_) => p.Base? || p.Wildcard?
    case Node(kind, _, parts) =>
      || (p.Wildcard? && Solid(goal))
      || (p.Node? && |p.parts| == |parts|
          && (p.kind == kind || (kind.Func? && p.kind.Func? && p.kind.receivers == kind.receivers && p.kind.params == kind.params))
          && forall i :: 0 <= i < |parts| ==> Complete(p.parts[i], parts[i]))
    case _ => false
  }

  /** Converting to a goal that says everything gives the goal, up to the names of functions. */
  lemma {:induction false} CompleteGoal(p: Perm, goal: Perm, action: Action)
    requires (action.Conversion? || action.StrictConversion?) && Complete(p, goal)
    ensures Mergeable(p, goal, action) && Erase(Merged(p, goal, action)) == Erase(goal)
    decreases goal
  {
    if p.Node? {
      forall i | 0 <= i < |p.parts|
        ensures Mergeable(p.parts[i], goal.parts[i], PartAction(p.kind, i, action))
        ensures Erase(Merged(p.parts[i], goal.parts[i], PartAction(p.kind, i, action))) == Erase(goal.parts[i])
      {
        CompleteGoal(p.parts[i], goal.parts[i], action);
      }
      assert Erase(Merged(p, goal, action)).parts == Erase(goal).parts;
    }
  }

  /** So does the program on cyclic permissions. */
  lemma CompleteConversion(h: Heap, perm: Ref, goal: Ref, action: Action, o: Result, later: Heap)
    requires Closed(h) && InHeap(perm, |h|) && InHeap(goal, |h|) && (action.Conversion? || action.StrictConversion?)
    requires IsMerge(h, M.Key(perm, goal, action), o, later)
    requires forall depth: nat :: Complete(Unfold(h, perm, depth), Unfold(h, goal, depth))
    ensures o.Done? && forall depth: nat :: Erase(Unfold(later, o.r, depth)) == Erase(Unfold(h, goal, depth))
  {
    forall depth: nat
      ensures M.TreeMergeable(h, M.Key(perm, goal, action), depth)
      ensures Erase(M.TreeMerged(h, M.Key(perm, goal, action), depth)) == Erase(Unfold(h, goal, depth))
    {
      CompleteGoal(Unfold(h, perm, depth), Unfold(h, goal, depth), action);
    }
    Cyclic.NeverFails(h, M.Key(perm, goal, action), o, later);
  }
}
