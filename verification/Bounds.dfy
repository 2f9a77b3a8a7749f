/** Intersection and union as greatest lower and least upper bounds for moving. */
module Bounds {
  import opened BasePermission
  import opened Permission
  import opened Assignable
  import opened Merge

  /** No nil or wildcard anywhere, and every base permission, closures included, is readable. */
  predicate Readable(p: Perm) {
    match p
    case Base(b) => b.r
    case Node(_, b, parts) => b.r && forall i :: 0 <= i < |parts| ==> Readable(parts[i])
    case _ => false
  }

  /** The two permissions merge, their methods carry the same names in the same order and, if `owned`, their
      closures agree on ownership. */
  predicate Matches(a: Perm, b: Perm, owned: bool) {
    match a
    case Node(kind, x, parts) =>
      && b.Node?
      && SameArity(kind, |parts|, b.kind, |b.parts|)
      && (owned && kind.Func? ==> x.o == b.base.o)
      && (kind.Interface? ==> PartNames(parts) == PartNames(b.parts))
      && forall i :: 0 <= i < |parts| ==> Matches(parts[i], b.parts[i], owned)
    case Base(_) => b.Base?
    case _ => false
  }

  predicate Aligned(a: Perm, b: Perm) {
    Matches(a, b, true)
  }

  predicate Alike(a: Perm, b: Perm) {
    Matches(a, b, false)
  }

  lemma {:induction false} MatchesMergeable(a: Perm, b: Perm, owned: bool, action: Action)
    requires Matches(a, b, owned) && IsLattice(action)
    ensures Mergeable(a, b, action)
  {
    if a.Node? {
      forall i | 0 <= i < |a.parts|
        ensures Mergeable(a.parts[i], b.parts[i], PartAction(a.kind, i, action))
      {
        MatchesMergeable(a.parts[i], b.parts[i], owned, PartAction(a.kind, i, action));
      }
    }
  }

  /** The merge has the method names of its left argument. */
  lemma MergedNames(a: Perm, b: Perm, action: Action)
    requires a.Node? && b.Node? && Mergeable(a, b, action) && Readable(a) && Readable(b) && IsLattice(action)
    ensures Merged(a, b, action).Node? && PartNames(Merged(a, b, action).parts) == PartNames(a.parts)
  {
    assert forall i :: 0 <= i < |a.parts| ==> Readable(a.parts[i]) && Readable(b.parts[i]);
  }

  /** `x` moves to `y`, or the other way round. */
  ghost predicate Moves(x: Perm, y: Perm, forward: bool) {
    if forward then AssignableTo(x, y, Move) else AssignableTo(y, x, Move)
  }

  /** Two structures of one kind with the same method names move when their bases and parts do. */
  lemma NodeMoves(x: Perm, y: Perm, forward: bool)
    requires x.Node? && y.Node? && SameArity(x.kind, |x.parts|, y.kind, |y.parts|)
    requires x.kind.Interface? ==> PartNames(x.parts) == PartNames(y.parts)
    requires if forward then HeadAssignable(x.kind, x.base, y.base, Move) else HeadAssignable(x.kind, y.base, x.base, Move)
    requires forall i :: 0 <= i < |x.parts| ==> Moves(x.parts[i], y.parts[i], if Contra(x.kind, i) then !forward else forward)
    ensures Moves(x, y, forward)
  {
    var nx, ny := PartNames(x.parts), PartNames(y.parts);
    forall i: nat, j: nat | Linked(x.kind, nx, y.kind, ny, i, j)
      ensures x.kind.Interface? || i == j
      ensures x.kind.Interface? ==> PartName(x.parts[i]) == ny[j]
    {
    }
  }

  /** Both arguments move to their intersection; their union moves to both. */
  lemma {:induction false} IsBound(a: Perm, b: Perm, action: Action)
    requires Readable(a) && Readable(b) && Aligned(a, b) && IsLattice(action)
    ensures Mergeable(a, b, action)
    ensures Moves(a, Merged(a, b, action), action.Intersection?)
    ensures Moves(b, Merged(a, b, action), action.Intersection?)
  {
    MatchesMergeable(a, b, true, action);
    if a.Node? {
      MergedNames(a, b, action);
      var m := Merged(a, b, action);
      forall i | 0 <= i < |a.parts|
        ensures Moves(a.parts[i], m.parts[i], PartAction(a.kind, i, action).Intersection?)
        ensures Moves(b.parts[i], m.parts[i], PartAction(a.kind, i, action).Intersection?)
      {
        IsBound(a.parts[i], b.parts[i], PartAction(a.kind, i, action));
      }
      NodeMoves(a, m, action.Intersection?);
      NodeMoves(b, m, action.Intersection?);
    }
  }

  /** Parts of structures that move to each other, and have the same method names, move at the same positions. */
  lemma PartMoves(x: Perm, y: Perm, i: nat, forward: bool)
    requires x.Node? && y.Node? && SameArity(x.kind, |x.parts|, y.kind, |y.parts|) && i < |x.parts|
    requires x.kind.Interface? ==> PartNames(x.parts) == PartNames(y.parts)
    requires Moves(x, y, forward)
    ensures Moves(x.parts[i], y.parts[i], if Contra(x.kind, i) then !forward else forward)
  {
    if forward {
      assert Linked(x.kind, PartNames(x.parts), y.kind, PartNames(y.parts), i, i);
    } else {
      assert Linked(y.kind, PartNames(y.parts), x.kind, PartNames(x.parts), i, i);
    }
  }

  /** Between permissions that merge and have the same methods, the intersection is a lower bound, and the union
      an upper bound, exactly if corresponding closures agree on ownership. */
  lemma {:induction false} BoundExactly(a: Perm, b: Perm, action: Action)
    requires Readable(a) && Readable(b) && Alike(a, b) && IsLattice(action)
    ensures Mergeable(a, b, action)
    ensures Moves(a, Merged(a, b, action), action.Intersection?) && Moves(b, Merged(a, b, action), action.Intersection?) <==> Aligned(a, b)
  {
    MatchesMergeable(a, b, false, action);
    if Aligned(a, b) {
      IsBound(a, b, action);
    } else if a.Node? {
      MergedNames(a, b, action);
      var m := Merged(a, b, action);
      if Moves(a, m, action.Intersection?) && Moves(b, m, action.Intersection?) {
        forall i | 0 <= i < |a.parts|
          ensures Aligned(a.parts[i], b.parts[i])
        {
          PartMoves(a, m, i, action.Intersection?);
          PartMoves(b, m, i, action.Intersection?);
          MergedPart(a, b, action, i);
          BoundExactly(a.parts[i], b.parts[i], PartAction(a.kind, i, action));
        }
      }
    }
  }

  /** Replacing the base and the parts of the source of a move. */
  lemma ReplaceSource(a: Perm, m: Perm, d: Perm)
    requires a.Node? && d.Node? && m.Node? && m.kind == a.kind && PartNames(m.parts) == PartNames(a.parts)
    requires AssignableTo(a, d, Move) && HeadAssignable(a.kind, m.base, d.base, Move)
    requires forall i: nat, j: nat :: Linked(a.kind, PartNames(a.parts), d.kind, PartNames(d.parts), i, j) ==>
      Moves(m.parts[i], d.parts[j], !Contra(a.kind, i))
    ensures AssignableTo(m, d, Move)
  {
  }

  /** Replacing the base and the parts of the target of a move. */
  lemma ReplaceTarget(d: Perm, a: Perm, m: Perm)
    requires a.Node? && d.Node? && m.Node? && m.kind == a.kind && PartNames(m.parts) == PartNames(a.parts)
    requires AssignableTo(d, a, Move) && HeadAssignable(d.kind, d.base, m.base, Move)
    requires forall i: nat, j: nat :: Linked(d.kind, PartNames(d.parts), a.kind, PartNames(a.parts), j, i) ==>
      Moves(m.parts[i], d.parts[j], Contra(d.kind, j))
    ensures AssignableTo(d, m, Move)
  {
  }

  /** Where a part of `d` meets a part of `a` it meets the same part of an aligned `b`, and moves the same way. */
  lemma AlignedParts(a: Perm, b: Perm, d: Perm, i: nat, j: nat, forward: bool)
    requires a.Node? && b.Node? && d.Node? && Aligned(a, b)
    requires Moves(a, d, forward) && Moves(b, d, forward)
    requires if forward then Linked(a.kind, PartNames(a.parts), d.kind, PartNames(d.parts), i, j)
             else Linked(d.kind, PartNames(d.parts), a.kind, PartNames(a.parts), j, i)
    ensures i < |a.parts| && j < |d.parts| && Contra(a.kind, i) == Contra(d.kind, j)
    ensures var fwd := if Contra(a.kind, i) then !forward else forward;
      Moves(a.parts[i], d.parts[j], fwd) && Moves(b.parts[i], d.parts[j], fwd)
  {
    if forward {
      assert Linked(b.kind, PartNames(b.parts), d.kind, PartNames(d.parts), i, j);
    } else {
      assert Linked(d.kind, PartNames(d.parts), b.kind, PartNames(b.parts), j, i);
    }
  }

  /** What two bases move to, their intersection moves to. */
  lemma HeadBelow(kind: Kind, a: Rights, b: Rights, d: Rights)
    requires a.r && b.r && (kind.Func? ==> a.o == b.o)
    requires HeadAssignable(kind, a, d, Move) && HeadAssignable(kind, b, d, Move)
    ensures HeadAssignable(kind, MergeBase(HeadAction(kind, Intersection), a, b), d, Move)
  {
  }

  /** What moves to two bases, moves to their union. */
  lemma HeadAbove(kind: Kind, a: Rights, b: Rights, d: Rights)
    requires a.r && b.r && (kind.Func? ==> a.o == b.o)
    requires HeadAssignable(kind, d, a, Move) && HeadAssignable(kind, d, b, Move)
    ensures HeadAssignable(kind, d, MergeBase(HeadAction(kind, Union), a, b), Move)
  {
  }

  /** Whatever both arguments move to, their intersection moves to. */
  lemma {:induction false} IntersectionIsGreatest(a: Perm, b: Perm, d: Perm)
    requires Readable(a) && Readable(b) && Aligned(a, b)
    requires AssignableTo(a, d, Move) && AssignableTo(b, d, Move)
    ensures Mergeable(a, b, Intersection) && AssignableTo(Merged(a, b, Intersection), d, Move)
    decreases a
  {
    MatchesMergeable(a, b, true, Intersection);
    if a.Node? {
      var m := Merged(a, b, Intersection);
      MergedNames(a, b, Intersection);
      SameHead(a.kind, b.kind, b.base, d.base, Move);
      hide HeadAssignable;
      HeadBelow(a.kind, a.base, b.base, d.base);
      forall i: nat, j: nat | Linked(a.kind, PartNames(a.parts), d.kind, PartNames(d.parts), i, j)
        ensures Moves(m.parts[i], d.parts[j], !Contra(a.kind, i))
      {
        AlignedParts(a, b, d, i, j, true);
        MergedPart(a, b, Intersection, i);
        if Contra(a.kind, i) {
          UnionIsLeast(a.parts[i], b.parts[i], d.parts[j]);
        } else {
          IntersectionIsGreatest(a.parts[i], b.parts[i], d.parts[j]);
        }
      }
      ReplaceSource(a, m, d);
    }
  }

  /** Whatever moves to both arguments, moves to their union. */
  lemma {:induction false} UnionIsLeast(a: Perm, b: Perm, d: Perm)
    requires Readable(a) && Readable(b) && Aligned(a, b)
    requires AssignableTo(d, a, Move) && AssignableTo(d, b, Move)
    ensures Mergeable(a, b, Union) && AssignableTo(d, Merged(a, b, Union), Move)
    decreases a
  {
    MatchesMergeable(a, b, true, Union);
    if a.Node? && d.Node? {
      var m := Merged(a, b, Union);
      MergedNames(a, b, Union);
      SameHead(a.kind, d.kind, d.base, a.base, Move);
      SameHead(a.kind, d.kind, d.base, b.base, Move);
      SameHead(a.kind, d.kind, d.base, MergeBase(HeadAction(a.kind, Union), a.base, b.base), Move);
      hide HeadAssignable;
      HeadAbove(a.kind, a.base, b.base, d.base);
      forall i: nat, j: nat | Linked(d.kind, PartNames(d.parts), a.kind, PartNames(a.parts), j, i)
        ensures Moves(m.parts[i], d.parts[j], Contra(d.kind, j))
      {
        AlignedParts(a, b, d, i, j, false);
        MergedPart(a, b, Union, i);
        if Contra(a.kind, i) {
          IntersectionIsGreatest(a.parts[i], b.parts[i], d.parts[j]);
        } else {
          UnionIsLeast(a.parts[i], b.parts[i], d.parts[j]);
        }
      }
      ReplaceTarget(d, a, m);
    }
  }
}
