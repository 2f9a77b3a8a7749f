/** Where the permission of an expression comes from, and what assigning it does to its owner. */
module Places {
  import opened BasePermission
  import opened Permission
  import opened Assignable
  import opened Merge
  import opened Consistency
  import opened Stores
  import opened Interpreter
  import opened Borrowing
  import opened Evaluation
  import opened Ownership
  import opened Statements

  // ----- places

  /** Expressions that denote a variable or a part of one. */
  predicate IsPlace(e: Expr) {
    match e
    case Ident(name) => name != "nil" && name != "true" && name != "false"
    case Paren(x) => IsPlace(x)
    case Star(x) => IsPlace(x)
    case Select(x, _) => IsPlace(x)
    case Index(x, _) => IsPlace(x)
    case _ => false
  }

  function Root(e: Expr): string
    requires IsPlace(e)
  {
    match e
    case Ident(name) => name
    case Paren(x) => Root(x)
    case Star(x) => Root(x)
    case Select(x, _) => Root(x)
    case Index(x, _) => Root(x)
  }

  /** `q` is `p` or some part of it. */
  ghost predicate IsPart(q: Perm, p: Perm) {
    q == p || (p.Node? && exists i :: 0 <= i < |p.parts| && IsPart(q, p.parts[i]))
  }

  lemma {:induction false} PartOfPart(q: Perm, p: Perm, r: Perm)
    requires IsPart(q, p) && IsPart(p, r)
    ensures IsPart(q, r)
    decreases r
  {
    if p != r {
      var i :| 0 <= i < |r.parts| && IsPart(p, r.parts[i]);
      PartOfPart(q, p, r.parts[i]);
    }
  }

  lemma OwnPart(p: Perm, i: nat)
    requires p.Node? && i < |p.parts|
    ensures IsPart(p.parts[i], p)
  {
    assert IsPart(p.parts[i], p.parts[i]);
  }

  lemma {:induction false} SelectedIsPart(p: Perm, path: seq<nat>)
    requires SelectPath(p, path).Ok?
    ensures IsPart(SelectPath(p, path).value, p)
    decreases |path|
  {
    if path != [] {
      var target := if p.Node? && p.kind.Pointer? && p.parts != [] then p.parts[0] else p;
      var field := target.parts[path[0]];
      SelectedIsPart(field, path[1..]);
      OwnPart(target, path[0]);
      PartOfPart(SelectPath(p, path).value, field, target);
      if target != p {
        OwnPart(p, 0);
        PartOfPart(SelectPath(p, path).value, target, p);
      }
    }
  }

  /** A visit owned by the variable `name`, of some part of the permission the variable has in `st`. */
  ghost predicate OwnedPart(st: Store, name: string, v: Visit) {
    && InScope(st, name) && v.owner == OwnedBy(Borrowed(name, Eff(st, name))) && v.deps == []
    && IsPart(v.perm, Eff(st, name))
  }

  /** Evaluating a place borrows the variable at its root and no other, and gives a part of the permission that
      variable has. */
  lemma {:induction false} PlaceIsPart(st: Store, e: Expr)
    requires IsPlace(e) && VisitExpr(st, e).Ok?
    ensures OwnedPart(st, Root(e), VisitExpr(st, e).value)
  {
    match e
    case Ident(name) =>
    case Paren(x) => PlaceIsPart(st, x);
    case Star(x) =>
      var v := VisitExpr(st, x).value;
      PlaceIsPart(st, x);
      OwnPart(v.perm, 0);
      PartOfPart(v.perm.parts[0], v.perm, Eff(st, Root(x)));
    case Select(x, path) =>
      var v := VisitExpr(st, x).value;
      PlaceIsPart(st, x);
      SelectedIsPart(v.perm, path);
      PartOfPart(SelectPath(v.perm, path).value, v.perm, Eff(st, Root(x)));
    case Index(x, index) =>
      var v := VisitExpr(st, x).value;
      PlaceIsPart(st, x);
      var i := if v.perm.kind.Map? then 1 else 0;
      OwnPart(v.perm, i);
      PartOfPart(v.perm.parts[i], v.perm, Eff(st, Root(x)));
  }

  // ----- expressions that continue each other

  lemma {:induction false} SelectPathAppend(p: Perm, a: seq<nat>, b: seq<nat>)
    ensures SelectPath(p, a + b) == if SelectPath(p, a).Ok? then SelectPath(SelectPath(p, a).value, b) else Panic
    decreases |a|
  {
    if a == [] {
      assert a + b == b;
    } else {
      assert (a + b)[1..] == a[1..] + b;
      var target := if p.Node? && p.kind.Pointer? && p.parts != [] then p.parts[0] else p;
      if target.Node? && target.kind.Struct? && a[0] < |target.parts| {
        SelectPathAppend(target.parts[a[0]], a[1..], b);
      }
    }
  }

  /** A promoted field is selected like the fields on the way to it, one after another. */
  lemma SelectTwice(st: Store, x: Expr, a: seq<nat>, b: seq<nat>)
    ensures VisitExpr(st, Select(Select(x, a), b)) == VisitExpr(st, Select(x, a + b))
  {
    hide Release, SliceResult, VisitIndex, VisitArgs, VisitIdent, MoveOrCopy, SelectPath;
    var v := VisitExpr(st, x);
    if v.Ok? {
      SelectPathAppend(v.value.perm, a, b);
    }
  }

  /** Slicing keeps the elements: an element of a slice of `x` has the permission of an element of `x`, and the
      same owner. */
  lemma ElementOfSlice(st: Store, x: Expr, low: Expr, high: Expr, max: Expr, index: Expr)
    requires VisitExpr(st, Index(SliceOf(x, low, high, max), index)).Ok?
    ensures var s, v := VisitExpr(st, Index(SliceOf(x, low, high, max), index)).value, VisitExpr(st, x);
      && v.Ok? && v.value.perm.Node? && v.value.perm.parts != []
      && s.perm == v.value.perm.parts[0] && s.owner == v.value.owner && s.deps == v.value.deps
  {
    hide Release, Has, VisitArgs, VisitIdent, MoveOrCopy, SelectPath;
    var v := VisitExpr(st, SliceOf(x, low, high, max));
    assert v.Ok?;
    SliceKeepsOwner(st, x, low, high, max);
    SliceElements(st, x, low, high, max);
  }

  lemma SliceElements(st: Store, x: Expr, low: Expr, high: Expr, max: Expr)
    requires VisitExpr(st, SliceOf(x, low, high, max)).Ok?
    ensures var s, v := VisitExpr(st, SliceOf(x, low, high, max)).value, VisitExpr(st, x);
      && v.Ok? && v.value.perm.Node? && s.perm.Node? && s.perm.kind.Slice? && s.perm.parts == v.value.perm.parts
  {
    SliceVisits(st, x, low, high, max);
    hide VisitExpr, Release;
  }

  // ----- assignment

  /** What `x = p` puts into `x`: the maximum if `p` can be copied to it, otherwise `p`, limited by the maximum. */
  ghost predicate Assigned(st: Store, x: string, p: Perm, after: Store) {
    && InScope(st, x)
    && var new_ := if AssignableTo(p, Max(st, x), Copy) then Max(st, x) else p;
       Mergeable(Max(st, x), new_, Intersection) && after == Put(st, x, Limit(st, x, new_))
  }

  /** Assigning a permission to a variable changes that variable only. */
  lemma AssignVariable(st: Store, x: string, p: Perm)
    requires x != "_" && DefineOrAssign(st, Ident(x), p, false, false).Ok?
    ensures Assigned(st, x, p, DefineOrAssign(st, Ident(x), p, false, false).value)
  {
    var max := GetMaximum(st, x);
    var new_ := if AssignableTo(p, max.value, Copy) then max.value else p;
    SetIsPut(st, x, new_);
    assert Release(SetEffective(st, x, new_).value, []) == SetEffective(st, x, new_);
  }

  /** `x = e`, for an owned value that cannot be copied and is owned by another variable: afterwards `x` has it,
      every variable but these two is as it was, and it is known exactly whether the owner keeps a linear right. */
  lemma AssignmentHasOneHolder(st: Store, x: string, e: Expr)
    requires WithinMax(st) && OnlyBorrows(st, e) && VisitExpr(st, e).Ok? && VisitExpr(st, e).value.owner.OwnedBy?
    requires var v := VisitExpr(st, e).value;
      && v.owner.b.name != x && x != "_" && !v.perm.Wildcard? && BaseOf(v.perm).o && !AssignableTo(v.perm, v.perm, Copy)
    requires AssignMany(st, [Ident(x)], [e], false).Ok?
    ensures var v, after := VisitExpr(st, e).value, AssignMany(st, [Ident(x)], [e], false).value;
      var name, p := v.owner.b.name, v.owner.b.perm;
      && Assigned(v.st, x, v.perm, after) && OnlyChanged(st, name, v.st) && CanLend(st, v.owner.b)
      && InScope(after, name) && Eff(after, name) == Eff(v.st, name)
      && (NowhereLinear(Eff(after, name)) <==> !EndsLinear(Max(st, name), p, NO_RIGHTS, Intersection))
      && (PlainData(p) && !KeepsLinear(p, false) ==> NowhereLinear(Eff(after, name)))
      && (PlainData(p) && Consistent(p) ==> (NowhereLinear(Eff(after, name)) <==> !KeepsLinear(p, false)))
      && (Consistent(p) ==> (NowhereLinear(Eff(after, name)) <==> !LeavesLinear(Max(st, name), p, NO_RIGHTS)))
      && (p.Node? && p.kind.Func? ==>
            Eff(after, name).Node? && Eff(after, name).base == ClosureLeft(Max(st, name), NO_RIGHTS))
  {
    hide KeepsLinear, LeavesLinear, EndsLinear, OnlyBorrows, PlainData, AssignableTo, NowhereLinear, AssignMany, DefineOrAssign, VisitExpr;
    var v := VisitExpr(st, e).value;
    BorrowsUndoable(st, e);
    OneAssigned(st, x, e);
    LendLeaves(st, v.owner.b);
    NoRightsWithin(v.owner.b.perm);
    OwnerLeft(st, v.owner.b, NO_RIGHTS, v.st);
    AssignVariable(v.st, x, v.perm);
    HolderStays(v.st, x, v.perm, DefineOrAssign(v.st, Ident(x), v.perm, false, false).value, v.owner.b.name);
  }

  lemma NoRightsWithin(p: Perm)
    ensures !Linear(NO_RIGHTS) && !NO_RIGHTS.xr && (p.Wildcard? || p.Nil? || Within(NO_RIGHTS, BaseOf(p)))
  {
  }

  /** Moving a value that cannot be copied, at its own permission, changes nothing but its owner. */
  lemma MovedAway(v: Visit)
    requires !v.perm.Wildcard? && BaseOf(v.perm).o && !AssignableTo(v.perm, v.perm, Copy)
    ensures var t := MoveOrCopy(v.st, v.perm, v.perm, v.owner, v.deps); t.Ok? ==> t == Ok(Transfer(v.st, NoOwner, []))
  {
  }

  /** Assigning one such value is binding it after its visit. */
  lemma OneAssigned(st: Store, x: string, e: Expr)
    requires VisitExpr(st, e).Ok? && AssignMany(st, [Ident(x)], [e], false).Ok?
    requires var v := VisitExpr(st, e).value; !v.perm.Wildcard? && BaseOf(v.perm).o && !AssignableTo(v.perm, v.perm, Copy)
    ensures var v := VisitExpr(st, e).value;
      && MoveOrCopy(v.st, v.perm, v.perm, v.owner, v.deps).Ok?
      && DefineOrAssign(v.st, Ident(x), v.perm, false, false) == AssignMany(st, [Ident(x)], [e], false)
  {
    hide AssignableTo, VisitExpr, MoveOrCopy, DefineOrAssign;
    var v := VisitExpr(st, e).value;
    MovedAway(v);
    assert [e][1..] == [];
    assert VisitRhs(v.st, []) == Ok(([], [], v.st));
    assert [v.perm] + [] == [v.perm];
    assert VisitRhs(st, [e]) == Ok(([v.perm], [], v.st));
    var bound := DefineOrAssign(v.st, Ident(x), v.perm, false, false);
    assert [Ident(x)][1..] == [] && [v.perm][1..] == [];
    assert bound.Ok? ==> BindAll(bound.value, [], [], false) == bound;
    assert BindAll(v.st, [Ident(x)], [v.perm], false) == if bound.Ok? then bound else Panic;
  }

  /** An assignment leaves the other variables alone. */
  lemma HolderStays(st: Store, x: string, p: Perm, after: Store, other: string)
    requires Assigned(st, x, p, after) && other != x && InScope(st, other)
    ensures InScope(after, other) && Eff(after, other) == Eff(st, other)
  {
    var new_ := if AssignableTo(p, Max(st, x), Copy) then Max(st, x) else p;
    PutFind(st, x, Limit(st, x, new_), other);
  }
}
