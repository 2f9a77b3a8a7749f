/** Linear rights and the store: evaluation never grants a right, and a transfer leaves no linear right behind. */
module Ownership {
  import opened BasePermission
  import opened Permission
  import opened Assignable
  import opened Convert
  import opened Merge
  import opened Consistency
  import opened Stores
  import opened Interpreter
  import opened Borrowing
  import opened Evaluation

  /** Below is transitive: what is below `x`, where `x` is limited by `max`, is limited by `max`. */
  lemma BelowLimited(max: Perm, x: Perm, y: Perm)
    requires Below(x, max) && Below(y, x)
    ensures Below(y, max)
  {
    Associative(max, x, y, Intersection);
  }

  /** Evaluating an identifier that holds consistent plain data leaves it consistent, with no right it did not
      have, and changes nothing else. */
  lemma IdentOnlyRemoves(st: Store, name: string)
    requires WithinMax(st) && VisitIdent(st, name).Ok? && InScope(st, name)
    requires name != "nil" && name != "true" && name != "false"
    requires PlainData(Eff(st, name)) && Consistent(Eff(st, name))
    ensures var after := VisitIdent(st, name).value.st;
      && InScope(after, name) && Below(Eff(after, name), Eff(st, name)) && Consistent(Eff(after, name))
      && Max(after, name) == Max(st, name) && after == Put(st, name, Eff(after, name))
      && BaseOf(Eff(after, name)) == NO_RIGHTS
  {
    var eff, max := Eff(st, name), Max(st, name);
    ConvertedBelow(eff, NO_RIGHTS);
    ConvertedConsistent(eff, NO_RIGHTS);
    BelowLimited(max, eff, Dead(eff));
    SetIsPut(st, name, Dead(eff));
    PutFind(st, name, Dead(eff), name);
  }

  /** The effective permission of a variable whose assignment is limited by its maximum is nowhere linear if the
      assigned one is not. */
  lemma LimitNowhereLinear(st: Store, name: string, p: Perm)
    requires InScope(st, name) && Mergeable(Max(st, name), p, Intersection) && PlainData(p) && NowhereLinear(p)
    ensures NowhereLinear(Limit(st, name, p))
  {
    IntersectionNowhereLinear(Max(st, name), p);
  }

  lemma {:induction false} ConvertedPlain(p: Perm, goal: Rights)
    requires PlainData(p)
    ensures Convertible(p, false) && PlainData(ConvertToBase(p, goal, false))
  {
    PlainConvertible(p, false);
    if p.Node? {
      forall i | 0 <= i < |p.parts|
        ensures PlainData(ConvertToBase(p.parts[i], PartGoal(p.kind, goal, p.parts[i], false), false))
      {
        ConvertedPlain(p.parts[i], PartGoal(p.kind, goal, p.parts[i], false));
      }
    }
  }

  /** What is left of plain data after converting it to a harmless base: nothing linear. */
  lemma HarmlessLeft(st: Store, name: string, p: Perm, goal: Rights)
    requires InScope(st, name) && PlainData(p) && !KeepsLinear(p, false) && !Linear(goal) && !goal.xr
    ensures Convertible(p, false)
    ensures Mergeable(Max(st, name), ConvertToBase(p, goal, false), Intersection) ==>
      NowhereLinear(Limit(st, name, ConvertToBase(p, goal, false)))
  {
    ConvertedNowhereLinear(p, goal);
    ConvertedPlain(p, goal);
    if Mergeable(Max(st, name), ConvertToBase(p, goal, false), Intersection) {
      LimitNowhereLinear(st, name, ConvertToBase(p, goal, false));
    }
  }

  /** `after` is `st` except for the effective permission of one variable. */
  predicate OnlyChanged(st: Store, name: string, after: Store) {
    InScope(st, name) && InScope(after, name) && after == Put(st, name, Eff(after, name))
  }

  // ----- what a transfer leaves in the owner

  /** The base permission to which a transfer from `from` to an owned place `to` converts the permission `p` of
      the owner: the value is frozen or moved away. */
  function TransferGoal(p: Perm, from: Perm, to: Perm): Rights
    requires !from.Wildcard? && !to.Wildcard?
  {
    if !p.Wildcard? && Linear(BaseOf(from)) && !Linear(BaseOf(to)) then Minus(BaseOf(p), Rights(false, false, true, true, true)) else NO_RIGHTS
  }

  /** `after` is `st` with the permission of the lent variable converted to `goal`, within its maximum. */
  predicate Leaves(st: Store, b: Borrowed, goal: Rights, after: Store)
    requires CanLend(st, b)
  {
    && Mergeable(Max(st, b.name), ConvertToBase(b.perm, goal, false), Intersection)
    && after == Put(st, b.name, Limit(st, b.name, ConvertToBase(b.perm, goal, false)))
  }

  lemma LeavesChanged(st: Store, b: Borrowed, goal: Rights, after: Store)
    requires CanLend(st, b) && Leaves(st, b, goal, after)
    ensures OnlyChanged(st, b.name, after) && Max(after, b.name) == Max(st, b.name)
    ensures Eff(after, b.name) == Limit(st, b.name, ConvertToBase(b.perm, goal, false))
  {
    PutFind(st, b.name, Limit(st, b.name, ConvertToBase(b.perm, goal, false)), b.name);
  }

  lemma LendLeaves(st: Store, b: Borrowed)
    requires CanLend(st, b)
    ensures Leaves(st, b, NO_RIGHTS, Lend(st, b))
  {
  }

  /** The variable whose value was frozen. */
  lemma FrozenLeaves(st: Store, b: Borrowed)
    requires CanLend(st, b) && !b.perm.Wildcard?
    requires SetEffective(Lend(st, b), b.name, Frozen(b.perm)).Ok?
    ensures Leaves(st, b, Minus(BaseOf(b.perm), Rights(false, false, true, true, true)),
                   SetEffective(Lend(st, b), b.name, Frozen(b.perm)).value)
  {
    PutFind(st, b.name, Limit(st, b.name, Dead(b.perm)), b.name);
    SetIsPut(Lend(st, b), b.name, Frozen(b.perm));
  }

  lemma ReleaseOne(st: Store, b: Borrowed)
    ensures Release(st, [b]).Ok? ==> SetEffective(st, b.name, b.perm) == Release(st, [b])
  {
    assert [b][1..] == [];
  }

  /** Transferring a value of permission `from`, owned by a lent variable, to an owned place it cannot be copied
      to. */
  lemma OwnerTransfer(st: Store, b: Borrowed, from: Perm, to: Perm)
    requires CanLend(st, b) && !to.Wildcard? && BaseOf(to).o && !AssignableTo(from, to, Copy)
    requires MoveOrCopy(Lend(st, b), from, to, OwnedBy(b), []).Ok?
    ensures var t := MoveOrCopy(Lend(st, b), from, to, OwnedBy(b), []).value;
      !from.Wildcard? && t.owner.NoOwner? && t.deps == [] && Leaves(st, b, TransferGoal(b.perm, from, to), t.st)
  {
    assert AssignableTo(from, to, Move) && !from.Wildcard?;
    hide AssignableTo, SetEffective, CanLend;
    if Linear(BaseOf(from)) && !Linear(BaseOf(to)) {
      var frozen := b.(perm := Frozen(b.perm));
      var none: seq<Borrowed> := [];
      assert [frozen] + none == [frozen];
      ReleaseOne(Lend(st, b), frozen);
      FrozenLeaves(st, b);
    } else {
      LendLeaves(st, b);
    }
  }

  /** Whether the owner keeps a linear right: exactly if some place of its permission ends linear. For consistent
      permissions that is `LeavesLinear`, for consistent plain data `KeepsLinear`, which for plain data always
      suffices; of a function, the closure that is left is known. */
  lemma OwnerLeft(st: Store, b: Borrowed, goal: Rights, after: Store)
    requires CanLend(st, b) && Leaves(st, b, goal, after)
    requires !Linear(goal) && !goal.xr && (b.perm.Wildcard? || b.perm.Nil? || Within(goal, BaseOf(b.perm)))
    ensures OnlyChanged(st, b.name, after)
    ensures PlainData(b.perm) && !KeepsLinear(b.perm, false) ==> NowhereLinear(Eff(after, b.name))
    ensures NowhereLinear(Eff(after, b.name)) <==> !EndsLinear(Max(st, b.name), b.perm, goal, Intersection)
    ensures WithinMax(st) && Consistent(b.perm) ==>
      (NowhereLinear(Eff(after, b.name)) <==> !LeavesLinear(Max(st, b.name), b.perm, goal))
    ensures WithinMax(st) && Consistent(b.perm) && PlainData(b.perm) ==>
      (NowhereLinear(Eff(after, b.name)) <==> !KeepsLinear(b.perm, false))
    ensures b.perm.Node? && b.perm.kind.Func? ==>
      Eff(after, b.name).Node? && Eff(after, b.name).base == ClosureLeft(Max(st, b.name), goal)
  {
    var max := Max(st, b.name);
    LeavesChanged(st, b, goal, after);
    EndsNowhereLinear(max, b.perm, goal, Intersection);
    hide KeepsLinear, LeavesLinear, EndsLinear, NowhereLinear, Consistent;
    if PlainData(b.perm) && !KeepsLinear(b.perm, false) {
      HarmlessLeft(st, b.name, b.perm, goal);
    }
    if WithinMax(st) && Consistent(b.perm) {
      LimitedNowhereLinear(max, b.perm, goal);
      if PlainData(b.perm) {
        PlainLeavesLinear(max, b.perm, goal);
      }
    }
  }

  /** After the value of an expression owned by a variable is bound to an owned place it cannot be copied to,
      whether it was moved or frozen, nothing is borrowed, every other variable is as it was before the expression
      was evaluated, and it is known exactly whether the owner keeps a linear right. */
  lemma TransferLeavesNothingLinear(st: Store, e: Expr, to: Perm)
    requires WithinMax(st) && OnlyBorrows(st, e) && VisitExpr(st, e).Ok? && VisitExpr(st, e).value.owner.OwnedBy?
    requires var v := VisitExpr(st, e).value;
      && !to.Wildcard? && BaseOf(to).o && !AssignableTo(v.perm, to, Copy)
      && MoveOrCopy(v.st, v.perm, to, v.owner, v.deps).Ok?
    ensures var v := VisitExpr(st, e).value;
      var t, name, p := MoveOrCopy(v.st, v.perm, to, v.owner, v.deps).value, v.owner.b.name, v.owner.b.perm;
      && t.owner.NoOwner? && t.deps == [] && !v.perm.Wildcard? && CanLend(st, v.owner.b) && OnlyChanged(st, name, t.st)
      && (NowhereLinear(Eff(t.st, name)) <==> !EndsLinear(Max(st, name), p, TransferGoal(p, v.perm, to), Intersection))
      && (PlainData(p) && !KeepsLinear(p, false) ==> NowhereLinear(Eff(t.st, name)))
      && (PlainData(p) && Consistent(p) ==> (NowhereLinear(Eff(t.st, name)) <==> !KeepsLinear(p, false)))
      && (Consistent(p) ==> (NowhereLinear(Eff(t.st, name)) <==> !LeavesLinear(Max(st, name), p, TransferGoal(p, v.perm, to))))
      && (p.Node? && p.kind.Func? ==>
            Eff(t.st, name).Node? && Eff(t.st, name).base == ClosureLeft(Max(st, name), TransferGoal(p, v.perm, to)))
  {
    BorrowsUndoable(st, e);
    var v := VisitExpr(st, e).value;
    hide VisitExpr, OnlyBorrows, MoveOrCopy, AssignableTo, Leaves, OnlyChanged, PlainData, KeepsLinear, NowhereLinear, LeavesLinear, EndsLinear, WithinMax;
    OwnerTransfer(st, v.owner.b, v.perm, to);
    GoalHarmless(v.owner.b.perm, v.perm, to);
    OwnerLeft(st, v.owner.b, TransferGoal(v.owner.b.perm, v.perm, to), MoveOrCopy(v.st, v.perm, to, v.owner, v.deps).value.st);
  }

  lemma GoalHarmless(p: Perm, from: Perm, to: Perm)
    requires !from.Wildcard? && !to.Wildcard?
    ensures var goal := TransferGoal(p, from, to); !Linear(goal) && !goal.xr && (p.Wildcard? || p.Nil? || Within(goal, BaseOf(p)))
  {
  }

  /** A moved function has two holders: a function with a linear closure, moved to an owned place, is still there
      in the variable it came from, since the closures of functions intersect the other way round. */
  lemma MovedFunctionStays()
    ensures var f := Node(Func("", 0, 0), OWNED_MUTABLE, []);
      var st := [Var("f", f, f)];
      var v := VisitExpr(st, Ident("f"));
      && WithinMax(st) && Consistent(f) && Linear(f.base) && v.Ok? && v.value.perm == f
      && MoveOrCopy(v.value.st, f, f, v.value.owner, v.value.deps) == Ok(Transfer(st, NoOwner, []))
  {
    var f := Node(Func("", 0, 0), OWNED_MUTABLE, []);
    var dead := Node(Func("", 0, 0), NO_RIGHTS, []);
    var st := [Var("f", f, f)];
    assert Holds(st[0], "f") && Find(st, "f") == 0;
    assert ConvertToBase(f, OWNED_MUTABLE, false) == f && Dead(f) == dead;
    assert Merged(f, f, Intersection) == f && Merged(f, dead, Intersection) == f;
    assert st[0 := st[0]] == st;
    assert SetEffective(st, "f", dead) == Ok(st);
    assert VisitIdent(st, "f") == Ok(Visit(f, OwnedBy(Borrowed("f", f)), [], st));
    assert AssignableTo(f, f, Move) && !AssignableTo(f, f, Copy);
  }
}
