/** Conversion of a permission to a base permission. */
module Convert {
  import opened BasePermission
  import opened Permission

  /** The base permission the target of a pointer is converted to: the target keeps its own rights, takes
      over ownership, and loses linearity when the pointer is not exclusively readable. */
  function StripTarget(pointer: Rights, target: Rights): Rights {
    var owned := target.(o := pointer.o);
    var writeStripped := if !pointer.xr && owned.w && owned.xw then owned.(w := false, xw := false) else owned;
    if !pointer.xr && writeStripped.r && writeStripped.xr then writeStripped.(xr := false) else writeStripped
  }

  /** Conversion asks these parts for their own base permission. */
  predicate AsksBase(kind: Kind, strict: bool) {
    kind.Func? || kind.Interface? || (kind.Pointer? && !strict)
  }

  /** Conversion completes: it never asks a wildcard for its base permission. */
  predicate Convertible(p: Perm, strict: bool) {
    p.Node? ==>
      forall i :: 0 <= i < |p.parts| ==>
        Convertible(p.parts[i], strict) && (AsksBase(p.kind, strict) ==> !p.parts[i].Wildcard?)
  }

  /** The goal a part is converted to when its parent is converted to `goal`. */
  function PartGoal(kind: Kind, goal: Rights, part: Perm, strict: bool): Rights
    requires AsksBase(kind, strict) ==> !part.Wildcard?
  {
    if kind.Pointer? && !strict then StripTarget(goal, BaseOf(part))
    else if kind.Func? || kind.Interface? then BaseOf(part)
    else goal
  }

  /** `ConvertToBase` and, when `strict`, `StrictConvertToBase`. */
  function ConvertToBase(p: Perm, goal: Rights, strict: bool): (r: Perm)
    requires Convertible(p, strict)
    ensures !r.Wildcard?
    ensures p.Nil? <==> r.Nil?
    ensures !p.Nil? ==> BaseOf(r) == goal
    ensures p.Node? <==> r.Node?
  {
    match p
    case Base(_) => Base(goal)
    case Wildcard => Base(goal)
    case Nil => Nil
    case Node(kind, _, parts) =>
      Node(kind, goal, seq(|parts|, i requires 0 <= i < |parts| =>
        ConvertToBase(parts[i], PartGoal(kind, goal, parts[i], strict), strict)))
  }

  /** Converting again, to the same base, changes nothing. */
  lemma {:induction false} ConvertToBaseIdempotent(p: Perm, goal: Rights, strict: bool)
    requires Convertible(p, strict)
    ensures Convertible(ConvertToBase(p, goal, strict), strict)
    ensures ConvertToBase(ConvertToBase(p, goal, strict), goal, strict) == ConvertToBase(p, goal, strict)
  {
    if p.Node? {
      var q := ConvertToBase(p, goal, strict);
      forall i | 0 <= i < |p.parts|
        ensures Convertible(q.parts[i], strict)
        ensures PartGoal(p.kind, goal, q.parts[i], strict) == PartGoal(p.kind, goal, p.parts[i], strict) || q.parts[i].Nil?
        ensures ConvertToBase(q.parts[i], PartGoal(p.kind, goal, q.parts[i], strict), strict) == q.parts[i]
      {
        ConvertToBaseIdempotent(p.parts[i], PartGoal(p.kind, goal, p.parts[i], strict), strict);
      }
      assert ConvertToBase(q, goal, strict).parts == q.parts;
    }
  }
}
