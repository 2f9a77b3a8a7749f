/** Evaluating an expression and releasing what it borrowed leaves the store as it was. */
module Evaluation {
  import opened BasePermission
  import opened Permission
  import opened Assignable
  import opened Convert
  import opened Merge
  import opened Stores
  import opened Interpreter
  import opened Borrowing

  /** In the course of evaluating `e` from `st` nothing is given away for good: keys of maps are copied, and
      arguments of calls are copied or go to unowned parameters. A call may borrow a variable several times if the
      permission given back last is the one it had. */
  ghost predicate OnlyBorrows(st: Store, e: Expr)
    decreases e, 0
  {
    match e
    case Absent | Literal | Ident(_) => true
    case Paren(x) => OnlyBorrows(st, x)
    case Star(x) => OnlyBorrows(st, x)
    case AddressOf(x) => OnlyBorrows(st, x)
    case Receive(x) => OnlyBorrows(st, x)
    case Unary(x) => OnlyBorrows(st, x)
    case Select(x, _) => OnlyBorrows(st, x)
    case Binary(x, y) => OnlyBorrows(st, x) && OnlyBorrows(st, y)
    case Logical(x, y) => OnlyBorrows(st, x) && OnlyBorrows(st, y)
    case Index(x, index) =>
      var v := VisitExpr(st, x);
      OnlyBorrows(st, x) &&
      (v.Ok? ==>
         var i := VisitExpr(v.value.st, index);
         OnlyBorrows(v.value.st, index) && (i.Ok? ==> KeyCopied(v.value.perm, i.value.perm)))
    case SliceOf(x, low, high, max) =>
      var v := VisitExpr(st, x);
      OnlyBorrows(st, x) &&
      (v.Ok? ==>
         var l := VisitExpr(v.value.st, low);
         OnlyBorrows(v.value.st, low) &&
         (l.Ok? ==>
            var h := VisitExpr(l.value.st, high);
            OnlyBorrows(l.value.st, high) && (h.Ok? ==> OnlyBorrows(h.value.st, max))))
    case Call(fun, args) =>
      var f := VisitExpr(st, fun);
      OnlyBorrows(st, fun) &&
      (f.Ok? && f.value.perm.Node? && f.value.perm.kind.Func? ==>
         var a := VisitArgs(f.value.st, args, Params(f.value.perm));
         ArgsOnlyBorrow(f.value.st, args, Params(f.value.perm)) && (a.Ok? ==> LastAsFirst(st, a.value.deps + OwnerList(f.value.owner))))
  }

  ghost predicate KeyCopied(container: Perm, key: Perm) {
    container.Node? && container.kind.Map? && container.parts != [] ==> AssignableTo(key, container.parts[0], Copy)
  }

  ghost predicate ArgsOnlyBorrow(st: Store, args: seq<Expr>, params: seq<Perm>)
    decreases args, 1
  {
    args != [] && params != [] ==>
      var v := VisitExpr(st, args[0]);
      OnlyBorrows(st, args[0]) &&
      (v.Ok? ==>
         var t := MoveOrCopy(v.value.st, v.value.perm, params[0], v.value.owner, v.value.deps);
         (t.Ok? ==> (AssignableTo(v.value.perm, params[0], Copy) || !BaseOfParam(params[0]).o)
                    && ArgsOnlyBorrow(t.value.st, args[1..], params[1..])))
  }

  function BaseOfParam(p: Perm): Rights {
    if p.Wildcard? then NO_RIGHTS else BaseOf(p)
  }

  /** After a completed visit only the owner of the result is borrowed. */
  ghost predicate Undoable(st: Store, e: Expr) {
    VisitExpr(st, e).Ok? ==> OnlyOwnerLent(st, VisitExpr(st, e).value)
  }

  lemma {:induction false} ReleaseAppend(st: Store, a: seq<Borrowed>, b: seq<Borrowed>)
    ensures Release(st, a + b) == var first := Release(st, a); if first.Ok? then Release(first.value, b) else Panic
    decreases |a|
  {
    if a == [] {
      assert a + b == b;
    } else {
      var next := SetEffective(st, a[0].name, a[0].perm);
      assert (a + b)[1..] == a[1..] + b;
      if next.Ok? {
        ReleaseAppend(next.value, a[1..], b);
      }
    }
  }

  /** Merging a store with itself changes nothing. */
  lemma {:induction false} MergeSelf(st: Store)
    requires MergeStores(st, st).Ok?
    ensures MergeStores(st, st).value == st
  {
    if st != [] {
      MergeSelf(st[1..]);
      Idempotent(st[0].eff, Intersection);
      Idempotent(st[0].max, Intersection);
    }
  }

  lemma IdentUndoable(st: Store, name: string)
    requires WithinMax(st)
    ensures Undoable(st, Ident(name))
  {
    if VisitIdent(st, name).Ok? && GetEffective(st, name).Ok? && Convertible(Eff(st, name), false) {
      SetIsPut(st, name, Dead(Eff(st, name)));
    }
  }

  /** A visit of which only the owner is lent can be released. */
  lemma UndoableReleased(st: Store, e: Expr)
    requires WithinMax(st) && Undoable(st, e) && VisitExpr(st, e).Ok?
    ensures var v := VisitExpr(st, e).value;
      && WithinMax(v.st)
      && Release(v.st, OwnerToDeps(v)) == Ok(st) && Release(v.st, OwnerList(v.owner) + v.deps) == Ok(st)
  {
    OwnerReleased(st, VisitExpr(st, e).value);
  }

  lemma IndexUndoable(st: Store, x: Expr, index: Expr)
    requires WithinMax(st) && Undoable(st, x)
    requires VisitExpr(st, x).Ok? ==> Undoable(VisitExpr(st, x).value.st, index)
    requires VisitExpr(st, x).Ok? && VisitExpr(VisitExpr(st, x).value.st, index).Ok? ==>
      KeyCopied(VisitExpr(st, x).value.perm, VisitExpr(VisitExpr(st, x).value.st, index).value.perm)
    ensures Undoable(st, Index(x, index))
  {
    hide Release, Has, SliceResult, VisitArgs, VisitIdent, SelectPath;
    if VisitExpr(st, Index(x, index)).Ok? {
      var v := VisitExpr(st, x).value;
      UndoableReleased(st, x);
      UndoableReleased(v.st, index);
    }
  }

  lemma SliceUndoable(st: Store, x: Expr, low: Expr, high: Expr, max: Expr)
    requires WithinMax(st) && Undoable(st, x) && VisitExpr(st, SliceOf(x, low, high, max)).Ok?
    requires var v := VisitExpr(st, x);
      && v.Ok? && Undoable(v.value.st, low)
      && var l := VisitExpr(v.value.st, low);
         && l.Ok? && Undoable(l.value.st, high)
         && var h := VisitExpr(l.value.st, high);
            h.Ok? && Undoable(h.value.st, max)
    ensures Undoable(st, SliceOf(x, low, high, max))
  {
    hide VisitExpr, Release, WithinMax;
    SliceKeepsOwner(st, x, low, high, max);
    var v := VisitExpr(st, x).value;
    var l := VisitExpr(v.st, low).value;
    var h := VisitExpr(l.st, high).value;
    var m := VisitExpr(h.st, max).value;
    UndoableReleased(st, x);
    UndoableReleased(v.st, low);
    UndoableReleased(l.st, high);
    UndoableReleased(h.st, max);
    ReleaseThree(v.st, l, h, m);
  }

  /** Releasing three visits, the last first. */
  lemma ReleaseThree(st: Store, l: Visit, h: Visit, m: Visit)
    requires Release(m.st, OwnerToDeps(m)) == Ok(h.st) && Release(h.st, OwnerToDeps(h)) == Ok(l.st)
    requires Release(l.st, OwnerToDeps(l)) == Ok(st)
    ensures Release(m.st, OwnerToDeps(m) + OwnerToDeps(h) + OwnerToDeps(l)) == Ok(st)
  {
    hide Release, OwnerToDeps;
    ReleaseAppend(m.st, OwnerToDeps(m) + OwnerToDeps(h), OwnerToDeps(l));
    ReleaseAppend(m.st, OwnerToDeps(m), OwnerToDeps(h));
  }

  /** Slicing keeps the owner and what else is borrowed, in the store in which the bounds have been released. */
  lemma SliceKeepsOwner(st: Store, x: Expr, low: Expr, high: Expr, max: Expr)
    requires VisitExpr(st, SliceOf(x, low, high, max)).Ok?
    ensures var v := VisitExpr(st, x);
      var s := VisitExpr(st, SliceOf(x, low, high, max)).value;
      && v.Ok? && s.owner == v.value.owner && s.deps == v.value.deps
      && var l := VisitExpr(v.value.st, low);
         && l.Ok?
         && var h := VisitExpr(l.value.st, high);
            && h.Ok?
            && var m := VisitExpr(h.value.st, max);
               && m.Ok? && Release(m.value.st, OwnerToDeps(m.value) + OwnerToDeps(h.value) + OwnerToDeps(l.value)) == Ok(s.st)
  {
    SliceVisits(st, x, low, high, max);
    hide VisitExpr, Release;
    var v := VisitExpr(st, x).value;
    var l := VisitExpr(v.st, low).value;
    var h := VisitExpr(l.st, high).value;
    var m := VisitExpr(h.st, max).value;
    SliceResultKeeps(v, Release(m.st, OwnerToDeps(m) + OwnerToDeps(h) + OwnerToDeps(l)).value);
  }

  /** The visits of a slice expression. */
  lemma SliceVisits(st: Store, x: Expr, low: Expr, high: Expr, max: Expr)
    requires VisitExpr(st, SliceOf(x, low, high, max)).Ok?
    ensures var e, v := SliceOf(x, low, high, max), VisitExpr(st, x);
      && v.Ok?
      && var l := VisitExpr(v.value.st, low);
         && l.Ok?
         && var h := VisitExpr(l.value.st, high);
            && h.Ok?
            && var m := VisitExpr(h.value.st, max);
               m.Ok? && VisitExpr(st, e) == VisitSlice(e, v.value, l.value, h.value, m.value)
  {
    IsSliceOf(st, SliceOf(x, low, high, max));
    hide VisitExpr, VisitSlice;
  }

  lemma IsSliceOf(st: Store, e: Expr)
    requires e.SliceOf?
    ensures VisitExpr(st, e) == VisitSliceOf(st, e)
  {
    hide VisitSliceOf;
  }

  lemma SliceResultKeeps(v: Visit, st: Store)
    ensures SliceResult(v, st).Ok? ==>
      var s := SliceResult(v, st).value; s.owner == v.owner && s.deps == v.deps && s.st == st
  {
  }

  lemma BinaryUndoable(st: Store, x: Expr, y: Expr)
    requires WithinMax(st) && Undoable(st, x) && Undoable(st, y)
    ensures Undoable(st, Binary(x, y)) && Undoable(st, Logical(x, y))
  {
    hide Release, Has, SliceResult, MergeStores, VisitArgs, VisitIndex, VisitIdent, MoveOrCopy, SelectPath;
    if VisitExpr(st, x).Ok? {
      UndoableReleased(st, x);
      if VisitExpr(st, y).Ok? {
        UndoableReleased(st, y);
        if MergeStores(st, st).Ok? {
          MergeSelf(st);
        }
      }
    }
  }

  lemma UnaryUndoable(st: Store, x: Expr)
    requires WithinMax(st) && Undoable(st, x)
    ensures Undoable(st, Receive(x)) && Undoable(st, Unary(x))
  {
    hide Release, Has, SliceResult, VisitArgs, VisitIndex, VisitIdent, MoveOrCopy, SelectPath;
    if VisitExpr(st, x).Ok? {
      UndoableReleased(st, x);
    }
  }

  /** One argument: copied it leaves the store alone, borrowed it lends its owner. */
  lemma ArgumentLent(st: Store, arg: Expr, param: Perm)
    requires WithinMax(st) && Undoable(st, arg) && VisitExpr(st, arg).Ok?
    requires var v := VisitExpr(st, arg).value;
      && (AssignableTo(v.perm, param, Copy) || !BaseOfParam(param).o)
      && MoveOrCopy(v.st, v.perm, param, v.owner, v.deps).Ok?
    ensures var v := VisitExpr(st, arg).value;
      var t := MoveOrCopy(v.st, v.perm, param, v.owner, v.deps).value;
      && WithinMax(t.st) && t.deps == []
      && match t.owner
         case NoOwner => t.st == st
         case OwnedBy(b) => CanLend(st, b) && t.st == Lend(st, b)
  {
    UndoableReleased(st, arg);
  }

  lemma CallUndoable(st: Store, fun: Expr, args: seq<Expr>)
    requires WithinMax(st) && Undoable(st, fun)
    requires var f := VisitExpr(st, fun);
      f.Ok? && f.value.perm.Node? && f.value.perm.kind.Func? ==>
        var a := VisitArgs(f.value.st, args, Params(f.value.perm));
        a.Ok? ==> LastAsFirst(st, a.value.deps + OwnerList(f.value.owner)) && AllLent(f.value.st, a.value.deps, a.value.st)
    ensures Undoable(st, Call(fun, args))
  {
    if VisitExpr(st, Call(fun, args)).Ok? {
      CallSteps(st, fun, args);
      hide VisitExpr, VisitArgs, WithinMax, LastAsFirst;
      CallReleases(st, fun, args);
    }
  }

  /** What a call that only borrows leaves of the store: all of it, exactly if of each variable the permission
      given back last is the one it had before. */
  lemma CallReleases(st: Store, fun: Expr, args: seq<Expr>)
    requires WithinMax(st) && Undoable(st, fun) && VisitExpr(st, fun).Ok? && VisitExpr(st, Call(fun, args)).Ok?
    requires var f := VisitExpr(st, fun).value;
      && f.perm.Node? && f.perm.kind.Func? && VisitArgs(f.st, args, Params(f.perm)).Ok?
      && AllLent(f.st, VisitArgs(f.st, args, Params(f.perm)).value.deps, VisitArgs(f.st, args, Params(f.perm)).value.st)
    ensures var f := VisitExpr(st, fun).value;
      var released := VisitArgs(f.st, args, Params(f.perm)).value.deps + OwnerList(f.owner);
      VisitExpr(st, Call(fun, args)).value.st == st <==> LastAsFirst(st, released)
  {
    CallSteps(st, fun, args);
    hide VisitExpr, VisitArgs, Release, WithinMax, LastAsFirst, CanLend, Lend;
    var f := VisitExpr(st, fun).value;
    var a := VisitArgs(f.st, args, Params(f.perm)).value;
    var owner := OwnerList(f.owner);
    assert AllLent(st, owner + a.deps, a.st) by {
      if f.owner.OwnedBy? {
        assert (owner + a.deps)[1..] == a.deps;
      } else {
        assert owner + a.deps == a.deps;
      }
    }
    assert a.deps + f.deps + owner == a.deps + owner;
    ReleaseExactly(st, owner + a.deps, a.st, a.deps + owner);
  }

  /** A completed call: the function, the arguments, and the release of both. */
  lemma CallSteps(st: Store, fun: Expr, args: seq<Expr>)
    requires VisitExpr(st, Call(fun, args)).Ok?
    ensures var f, c := VisitExpr(st, fun), VisitExpr(st, Call(fun, args)).value;
      && f.Ok? && f.value.perm.Node? && f.value.perm.kind.Func? && c.owner.NoOwner? && c.deps == []
      && var a := VisitArgs(f.value.st, args, Params(f.value.perm));
         a.Ok? && Release(a.value.st, a.value.deps + f.value.deps + OwnerList(f.value.owner)) == Ok(c.st)
  {
    hide Release, Has, SliceResult, VisitIndex, VisitIdent, VisitArgs, MoveOrCopy, SelectPath, OwnerToDeps, Params;
    var f := VisitExpr(st, fun);
    assert f.Ok?;
  }

  /** Evaluation that only borrows leaves everything but the owner of the result as it was, and the owner with
      no rights. */
  lemma {:induction false} BorrowsUndoable(st: Store, e: Expr)
    requires WithinMax(st) && OnlyBorrows(st, e)
    ensures Undoable(st, e)
    decreases e, 0
  {
    match e
    case Absent | Literal =>
    case Ident(name) => IdentUndoable(st, name);
    case Paren(x) => BorrowsUndoable(st, x);
    case Star(x) => BorrowsUndoable(st, x);
    case AddressOf(x) => BorrowsUndoable(st, x);
    case Select(x, _) => BorrowsUndoable(st, x);
    case Receive(x) => BorrowsUndoable(st, x); UnaryUndoable(st, x);
    case Unary(x) => BorrowsUndoable(st, x); UnaryUndoable(st, x);
    case Binary(x, y) => BorrowsUndoable(st, x); BorrowsUndoable(st, y); BinaryUndoable(st, x, y);
    case Logical(x, y) => BorrowsUndoable(st, x); BorrowsUndoable(st, y); BinaryUndoable(st, x, y);
    case Index(x, index) =>
      BorrowsUndoable(st, x);
      if VisitExpr(st, x).Ok? {
        UndoableReleased(st, x);
        BorrowsUndoable(VisitExpr(st, x).value.st, index);
      }
      IndexUndoable(st, x, index);
    case SliceOf(x, low, high, max) =>
      if VisitExpr(st, e).Ok? {
        SliceVisits(st, x, low, high, max);
        var v := VisitExpr(st, x).value;
        var l := VisitExpr(v.st, low).value;
        var h := VisitExpr(l.st, high).value;
        BorrowsUndoable(st, x);
        UndoableReleased(st, x);
        BorrowsUndoable(v.st, low);
        UndoableReleased(v.st, low);
        BorrowsUndoable(l.st, high);
        UndoableReleased(l.st, high);
        BorrowsUndoable(h.st, max);
        SliceUndoable(st, x, low, high, max);
      }
    case Call(fun, args) =>
      BorrowsUndoable(st, fun);
      var f := VisitExpr(st, fun);
      if f.Ok? && f.value.perm.Node? && f.value.perm.kind.Func? {
        UndoableReleased(st, fun);
        ArgsLent(f.value.st, args, Params(f.value.perm));
      }
      CallUndoable(st, fun, args);
  }

  lemma {:induction false} ArgsLent(st: Store, args: seq<Expr>, params: seq<Perm>)
    requires WithinMax(st) && ArgsOnlyBorrow(st, args, params)
    ensures VisitArgs(st, args, params).Ok? ==> AllLent(st, VisitArgs(st, args, params).value.deps, VisitArgs(st, args, params).value.st)
    decreases args, 1
  {
    hide VisitExpr, MoveOrCopy, OnlyBorrows, WithinMax, AssignableTo, CanLend, Lend;
    if args != [] && VisitArgs(st, args, params).Ok? {
      var v := VisitExpr(st, args[0]).value;
      BorrowsUndoable(st, args[0]);
      ArgumentLent(st, args[0], params[0]);
      var t := MoveOrCopy(v.st, v.perm, params[0], v.owner, v.deps).value;
      ArgsLent(t.st, args[1..], params[1..]);
      var rest := VisitArgs(t.st, args[1..], params[1..]).value;
      var deps := OwnerList(t.owner) + t.deps + rest.deps;
      if t.owner.OwnedBy? {
        assert deps == [t.owner.b] + rest.deps && deps[1..] == rest.deps;
      } else {
        assert deps == rest.deps;
      }
    }
  }

  /** Borrow then release is the identity: evaluation that only borrows, followed by releasing what the visit
      left borrowed, restores every name, effective and maximum permission. */
  lemma BorrowThenRelease(st: Store, e: Expr)
    requires WithinMax(st) && OnlyBorrows(st, e) && VisitExpr(st, e).Ok?
    ensures Released(VisitExpr(st, e)) == Ok(st)
  {
    BorrowsUndoable(st, e);
    UndoableReleased(st, e);
  }

  /** A completed call whose arguments are copied or go to unowned parameters restores the store exactly if of
      each variable it borrows the permission given back last is the one the variable had before the call. */
  lemma CallRestoresExactly(st: Store, fun: Expr, args: seq<Expr>)
    requires WithinMax(st) && OnlyBorrows(st, fun) && VisitExpr(st, Call(fun, args)).Ok?
    requires var f := VisitExpr(st, fun);
      f.Ok? && f.value.perm.Node? && f.value.perm.kind.Func? ==> ArgsOnlyBorrow(f.value.st, args, Params(f.value.perm))
    ensures var f, c := VisitExpr(st, fun), VisitExpr(st, Call(fun, args)).value;
      && f.Ok? && f.value.perm.Node? && f.value.perm.kind.Func? && c.owner.NoOwner? && c.deps == []
      && var a := VisitArgs(f.value.st, args, Params(f.value.perm));
         a.Ok? && (c.st == st <==> LastAsFirst(st, a.value.deps + OwnerList(f.value.owner)))
  {
    CallSteps(st, fun, args);
    BorrowsUndoable(st, fun);
    hide VisitExpr, VisitArgs, OnlyBorrows, ArgsOnlyBorrow, LastAsFirst;
    var f := VisitExpr(st, fun).value;
    UndoableReleased(st, fun);
    ArgsLent(f.st, args, Params(f.perm));
    CallReleases(st, fun, args);
  }

  /** In particular if the arguments have different owners. */
  lemma CallRestores(st: Store, fun: Expr, args: seq<Expr>)
    requires WithinMax(st) && OnlyBorrows(st, fun) && VisitExpr(st, Call(fun, args)).Ok?
    requires var f := VisitExpr(st, fun);
      f.Ok? && f.value.perm.Node? && f.value.perm.kind.Func? ==>
        && ArgsOnlyBorrow(f.value.st, args, Params(f.value.perm))
        && var a := VisitArgs(f.value.st, args, Params(f.value.perm)); a.Ok? ==> DistinctNames(a.value.deps)
    ensures var v := VisitExpr(st, Call(fun, args)).value; v.st == st && v.owner.NoOwner? && v.deps == []
  {
    CallRestoresExactly(st, fun, args);
    BorrowsUndoable(st, fun);
    hide VisitExpr, VisitArgs, OnlyBorrows, ArgsOnlyBorrow, LastAsFirst;
    var f := VisitExpr(st, fun).value;
    var a := VisitArgs(f.st, args, Params(f.perm)).value;
    UndoableReleased(st, fun);
    ArgsLent(f.st, args, Params(f.perm));
    DistinctLent(f.st, a.deps, a.st);
    OwnerLast(st, f, a.deps);
  }

  /** Where one variable owns two of the arguments, the store is restored exactly if that variable also owns the
      function, and so is given back last, or lending does not change it. */
  lemma CallLendsTwice(st: Store, fun: Expr, args: seq<Expr>, i: nat, j: nat)
    requires WithinMax(st) && OnlyBorrows(st, fun) && VisitExpr(st, Call(fun, args)).Ok?
    requires var f := VisitExpr(st, fun);
      f.Ok? && f.value.perm.Node? && f.value.perm.kind.Func? ==>
        && ArgsOnlyBorrow(f.value.st, args, Params(f.value.perm))
        && var a := VisitArgs(f.value.st, args, Params(f.value.perm)); a.Ok? ==> OnlyTwice(a.value.deps, i, j)
    ensures var f, c := VisitExpr(st, fun), VisitExpr(st, Call(fun, args)).value;
      && f.Ok? && f.value.perm.Node? && f.value.perm.kind.Func?
      && var a := VisitArgs(f.value.st, args, Params(f.value.perm));
         && a.Ok? && i < |a.value.deps|
         && var name := a.value.deps[i].name;
            c.st == st <==> name in Names(OwnerList(f.value.owner)) || UnchangedByLending(f.value.st, name)
  {
    CallRestoresExactly(st, fun, args);
    BorrowsUndoable(st, fun);
    hide VisitExpr, VisitArgs, OnlyBorrows, ArgsOnlyBorrow, LastAsFirst, UnchangedByLending;
    var f := VisitExpr(st, fun).value;
    var a := VisitArgs(f.st, args, Params(f.perm)).value;
    UndoableReleased(st, fun);
    ArgsLent(f.st, args, Params(f.perm));
    TwiceLast(f.st, a.deps, a.st, i, j);
    TwiceOwned(st, f, a.deps, a.deps[i].name);
  }

  lemma TwiceOwned(st: Store, f: Visit, deps: seq<Borrowed>, name: string)
    requires OnlyOwnerLent(st, f) && name in Names(deps)
    requires forall n <- Names(deps) :: InScope(f.st, n) && (n != name ==> LastPerm(deps, n) == Eff(f.st, n))
    ensures LastAsFirst(st, deps + OwnerList(f.owner)) <==> name in Names(OwnerList(f.owner)) || LastPerm(deps, name) == Eff(f.st, name)
  {
    hide Merged, Mergeable, ConvertToBase, Convertible;
    var all := deps + OwnerList(f.owner);
    if f.owner.NoOwner? {
      assert all == deps;
    } else {
      var b := f.owner.b;
      assert all[..|all| - 1] == deps && Names(all) == Names(deps) + {b.name};
      forall n | n in Names(all)
        ensures InScope(st, n) && (LastPerm(all, n) == Eff(st, n) <==> n == b.name || LastPerm(deps, n) == Eff(f.st, n))
      {
        PutFind(st, b.name, Limit(st, b.name, Dead(b.perm)), n);
      }
    }
  }

  /** Variables lent after the owner of a function, each once, and given back before it. */
  lemma OwnerLast(st: Store, f: Visit, deps: seq<Borrowed>)
    requires OnlyOwnerLent(st, f) && DistinctNames(deps)
    requires forall b <- deps :: InScope(f.st, b.name) && b.perm == Eff(f.st, b.name)
    ensures LastAsFirst(st, deps + OwnerList(f.owner))
  {
    DistinctLast(f.st, deps);
    var all := deps + OwnerList(f.owner);
    if f.owner.NoOwner? {
      assert all == deps;
    } else {
      var b := f.owner.b;
      assert all[..|all| - 1] == deps;
      forall n | n in Names(all)
        ensures InScope(st, n) && LastPerm(all, n) == Eff(st, n)
      {
        PutFind(st, b.name, Limit(st, b.name, Dead(b.perm)), n);
      }
    }
  }

  // ----- one variable as two arguments

  /** A function whose closure has all rights, one whose closure may only be read, an unowned parameter, and a
      function that takes two such parameters. */
  const WIDE := Node(Func("", 0, 0), OWNED_MUTABLE, [])
  const NARROW := Node(Func("", 0, 0), READ, [])
  const PARAM := Node(Func("", 0, 0), MUTABLE, [])
  const TAKER := Node(Func("", 0, 2), OWNED_MUTABLE, [PARAM, PARAM])

  /** The variable `g` takes two arguments; `f` has the given effective permission. */
  function Scene(f: Perm): Store {
    [Var("g", TAKER, TAKER), Var("f", f, NARROW)]
  }

  lemma SceneFinds(f: Perm)
    ensures Find(Scene(f), "g") == 0 && Find(Scene(f), "f") == 1
  {
    var st := Scene(f);
    assert Holds(st[0], "g") && !Holds(st[0], "f") && Holds(st[1], "f");
    FindUnique(st, "f", 1);
  }

  /** Setting `f` to either permission gives just that; its dead form is limited to the narrow one. */
  lemma SceneSets(f: Perm, p: Perm)
    requires (f == WIDE || f == NARROW) && (p == WIDE || p == NARROW)
    ensures SetEffective(Scene(f), "f", p) == Ok(Scene(p))
    ensures SetEffective(Scene(f), "f", Dead(p)) == Ok(Scene(NARROW))
    ensures SetEffective(Scene(f), "g", TAKER) == Ok(Scene(f)) && SetEffective(Scene(f), "g", Dead(TAKER)) == Ok(Scene(f))
  {
    SceneFinds(f);
    assert Merged(NARROW, p, Intersection) == p && Merged(NARROW, Dead(p), Intersection) == NARROW;
    assert Scene(f)[1 := Var("f", p, NARROW)] == Scene(p);
    assert Scene(f)[1 := Var("f", NARROW, NARROW)] == Scene(NARROW);
    TakerSets();
    assert Scene(f)[0 := Var("g", TAKER, TAKER)] == Scene(f);
  }

  lemma TakerSets()
    ensures Mergeable(TAKER, TAKER, Intersection) && Merged(TAKER, TAKER, Intersection) == TAKER
    ensures Mergeable(TAKER, Dead(TAKER), Intersection) && Merged(TAKER, Dead(TAKER), Intersection) == TAKER
  {
    Idempotent(TAKER, Intersection);
    var dead := Dead(TAKER);
    assert PARAM.parts == [] && ConvertToBase(PARAM, MUTABLE, false).parts == [];
    assert dead.parts == [PARAM, PARAM];
    Idempotent(PARAM, Union);
    assert Merged(TAKER, dead, Intersection).parts == [PARAM, PARAM];
  }

  lemma Passed(p: Perm)
    requires p == WIDE || p == NARROW
    ensures AssignableTo(p, PARAM, Move) && !AssignableTo(p, PARAM, Copy)
  {
  }

  lemma ArgumentPassed(f: Perm)
    requires f == WIDE || f == NARROW
    ensures VisitExpr(Scene(f), Ident("f")) == Ok(Visit(f, OwnedBy(Borrowed("f", f)), [], Scene(NARROW)))
    ensures MoveOrCopy(Scene(NARROW), f, PARAM, OwnedBy(Borrowed("f", f)), [])
         == Ok(Transfer(Scene(NARROW), OwnedBy(Borrowed("f", f)), []))
  {
    SceneFinds(f);
    SceneSets(f, f);
    Passed(f);
  }

  /** The first argument, and the others after it. */
  lemma ArgsStep(st: Store, args: seq<Expr>, params: seq<Perm>, t: Transfer, rest: Transfer)
    requires args != [] && params != [] && VisitExpr(st, args[0]).Ok?
    requires var v := VisitExpr(st, args[0]).value; MoveOrCopy(v.st, v.perm, params[0], v.owner, v.deps) == Ok(t)
    requires VisitArgs(t.st, args[1..], params[1..]) == Ok(rest)
    ensures VisitArgs(st, args, params) == Ok(Transfer(rest.st, NoOwner, OwnerList(t.owner) + t.deps + rest.deps))
  {
    hide MoveOrCopy, Release, VisitIndex, VisitIdent, SelectPath, SliceResult;
  }

  lemma ArgumentsPassed()
    ensures VisitArgs(Scene(WIDE), [Ident("f"), Ident("f")], [PARAM, PARAM])
         == Ok(Transfer(Scene(NARROW), NoOwner, [Borrowed("f", WIDE), Borrowed("f", NARROW)]))
  {
    var one, two := [Ident("f")], [Ident("f"), Ident("f")];
    var low := Scene(NARROW);
    var t, u := Transfer(low, OwnedBy(Borrowed("f", NARROW)), []), Transfer(low, OwnedBy(Borrowed("f", WIDE)), []);
    assert two[1..] == one && one[1..] == [] && [PARAM, PARAM][1..] == [PARAM] && [PARAM][1..] == [];
    assert VisitArgs(low, [], []) == Ok(Transfer(low, NoOwner, [])) by { NoArgs(low); }
    hide VisitExpr, MoveOrCopy, Scene, VisitArgs;
    ArgumentPassed(WIDE);
    ArgumentPassed(NARROW);
    var none: seq<Borrowed> := [];
    ArgsStep(low, one, [PARAM], t, Transfer(low, NoOwner, none));
    assert OwnerList(t.owner) + t.deps + none == [Borrowed("f", NARROW)];
    assert OwnerList(u.owner) + u.deps + [Borrowed("f", NARROW)] == [Borrowed("f", WIDE), Borrowed("f", NARROW)];
    ArgsStep(Scene(WIDE), two, [PARAM, PARAM], u, Transfer(low, NoOwner, [Borrowed("f", NARROW)]));
  }

  lemma NoArgs(st: Store)
    ensures VisitArgs(st, [], []) == Ok(Transfer(st, NoOwner, []))
  {
  }

  lemma TakerVisited()
    ensures VisitExpr(Scene(WIDE), Ident("g")) == Ok(Visit(TAKER, OwnedBy(Borrowed("g", TAKER)), [], Scene(WIDE)))
  {
    SceneFinds(WIDE);
    SceneSets(WIDE, WIDE);
    hide SetEffective, Dead;
    assert Convertible(PARAM, false) && Convertible(TAKER, false);
  }

  /** A call of a function whose arguments and releases succeed. */
  lemma CallRuns(st: Store, fun: Expr, args: seq<Expr>, f: Visit, a: Transfer, after: Store)
    requires VisitExpr(st, fun) == Ok(f) && f.perm.Node? && f.perm.kind.Func?
    requires VisitArgs(f.st, args, Params(f.perm)) == Ok(a) && Release(a.st, a.deps + f.deps + OwnerList(f.owner)) == Ok(after)
    ensures VisitExpr(st, Call(fun, args)).Ok? && VisitExpr(st, Call(fun, args)).value.st == after
  {
    hide Release, Has, SliceResult, VisitIndex, VisitIdent, MoveOrCopy, SelectPath;
  }

  /** A call that borrows one variable twice does not restore it: the arguments are released in the order in which
      they were borrowed, and what was left after the first borrow is set last. In the other order the store would
      be restored. */
  lemma RepeatedArgumentOrder()
    ensures var st := Scene(WIDE);
      var args := [Ident("f"), Ident("f")];
      var v, a := VisitExpr(st, Call(Ident("g"), args)), VisitArgs(st, args, Params(TAKER));
      && WithinMax(st) && v.Ok? && v.value.st == Scene(NARROW) && Scene(NARROW) != st
      && a.Ok? && |a.value.deps| == 2 && Release(a.value.st, [a.value.deps[1], a.value.deps[0]]) == Ok(st)
      && !UnchangedByLending(st, "f")
  {
    hide SetEffective, Scene, VisitExpr, VisitArgs, WithinMax, Params, Release, Dead, UnchangedByLending;
    SceneChanged();
    var st, low, args := Scene(WIDE), Scene(NARROW), [Ident("f"), Ident("f")];
    var first, second, last := Borrowed("f", WIDE), Borrowed("f", NARROW), Borrowed("g", TAKER);
    SceneWithin();
    TakerParams();
    TakerVisited();
    ArgumentsPassed();
    SceneSets(WIDE, WIDE);
    SceneSets(WIDE, NARROW);
    SceneSets(NARROW, WIDE);
    SceneSets(NARROW, NARROW);
    ReleaseTwo(low, second, first);
    ReleaseTwo(low, first, second);
    var undo := [first, second];
    ReleaseAppend(low, undo, [last]);
    assert Release(low, undo) == Ok(low);
    assert Release(low, [last]) == Ok(low) by { ReleaseSingle(low, last); }
    assert [first, second] + [] + [last] == undo + [last];
    CallRuns(st, Ident("g"), args, Visit(TAKER, OwnedBy(last), [], st), Transfer(low, NoOwner, undo), low);
  }

  lemma SceneChanged()
    ensures !UnchangedByLending(Scene(WIDE), "f")
  {
    SceneFinds(WIDE);
    assert Merged(NARROW, Dead(WIDE), Intersection).base == READ;
  }

  lemma TakerParams()
    ensures Params(TAKER) == [PARAM, PARAM]
  {
  }

  lemma ReleaseSingle(st: Store, b: Borrowed)
    ensures Release(st, [b]) == var next := SetEffective(st, b.name, b.perm); if next.Ok? then next else Panic
  {
    assert [b][1..] == [];
  }

  lemma SceneWithin()
    ensures WithinMax(Scene(WIDE)) && Scene(WIDE)[1] != Scene(NARROW)[1]
  {
    TakerSets();
    assert Merged(NARROW, WIDE, Intersection) == WIDE;
  }

  lemma ReleaseTwo(st: Store, a: Borrowed, b: Borrowed)
    ensures Release(st, [a, b]) ==
      var next := SetEffective(st, a.name, a.perm);
      if !next.Ok? then Panic
      else var last := SetEffective(next.value, b.name, b.perm); if last.Ok? then last else Panic
  {
    assert [a, b][1..] == [b];
    var next := SetEffective(st, a.name, a.perm);
    if next.Ok? {
      ReleaseSingle(next.value, b);
    }
  }
}
