/** Scopes: whatever path is taken through a block, it ends with the variables it began with, and no variable ever
    has more than its maximum. */
module Scope {
  import opened BasePermission
  import opened Permission
  import opened Assignable
  import opened Merge
  import opened Stores
  import opened Interpreter
  import opened Borrowing
  import opened Evaluation
  import opened Statements
  import W = Worklist

  /** The same frames and variables, with the same maxima, in the same order. */
  predicate SameVariables(a: Store, b: Store) {
    |a| == |b| && forall i :: 0 <= i < |a| ==>
      if a[i].Marker? then b[i].Marker? else b[i].Var? && b[i].name == a[i].name && b[i].max == a[i].max
  }

  /** If all effective permissions were below their maxima, up to names or exactly, they still are. */
  predicate StaysLimited(a: Store, b: Store) {
    (Limited(a) ==> Limited(b)) && (WithinMax(a) ==> WithinMax(b))
  }

  /** The same variables, with their permissions still limited. */
  predicate SameScope(a: Store, b: Store) {
    SameVariables(a, b) && StaysLimited(a, b)
  }

  /** `b` has the variables of `a`, with more of them in the innermost frame; permissions stay limited. */
  predicate Grew(a: Store, b: Store) {
    && |a| <= |b| && SameVariables(a, b[|b| - |a|..]) && (forall i :: 0 <= i < |b| - |a| ==> b[i].Var?)
    && StaysLimited(a, b)
  }

  lemma SameTransitive(a: Store, b: Store, c: Store)
    requires SameScope(a, b) && SameScope(b, c)
    ensures SameScope(a, c)
  {
  }

  lemma SameGrew(a: Store, b: Store)
    ensures SameScope(a, b) ==> Grew(a, b)
  {
    assert b[0..] == b;
  }

  lemma GrewTransitive(a: Store, b: Store, c: Store)
    requires Grew(a, b) && Grew(b, c)
    ensures Grew(a, c)
  {
    var j, k := |b| - |a|, |c| - |b|;
    assert forall i :: 0 <= i < |a| ==> c[|c| - |a|..][i] == c[k..][j + i] && b[j..][i] == b[j + i];
    assert forall i :: k <= i < |c| - |a| ==> c[i] == c[k..][i - k];
  }

  /** Ending the frame that a block began gives back the scope outside. */
  lemma EndGrew(st: Store, inner: Store)
    requires Grew(BeginBlock(st), inner)
    ensures EndBlock(inner).Ok? && SameScope(st, EndBlock(inner).value)
  {
    var k := |inner| - |st| - 1;
    assert inner[k..][0] == inner[k] && inner[k].Marker?;
    assert FrameEnd(inner) == k;
    assert inner[k + 1..] == inner[k..][1..];
    assert Limited(inner) ==> Limited(inner[k + 1..]);
    assert WithinMax(inner) ==> WithinMax(inner[k + 1..]);
    assert Limited(st) ==> Limited(BeginBlock(st));
    assert WithinMax(st) ==> WithinMax(BeginBlock(st));
    assert forall i :: 0 <= i < |st| ==> BeginBlock(st)[i + 1] == st[i];
  }

  // ----- expressions

  lemma SetSame(st: Store, name: string, p: Perm)
    requires SetEffective(st, name, p).Ok?
    ensures SameScope(st, SetEffective(st, name, p).value)
  {
    if Limited(st) {
      SetEffectiveLimited(st, name, p);
    }
    if WithinMax(st) {
      SetFits(st, name, p);
    }
  }

  lemma {:induction false} ReleaseSame(st: Store, undo: seq<Borrowed>)
    requires Release(st, undo).Ok?
    ensures SameScope(st, Release(st, undo).value)
    decreases |undo|
  {
    if undo != [] {
      SetSame(st, undo[0].name, undo[0].perm);
      var next := SetEffective(st, undo[0].name, undo[0].perm).value;
      ReleaseSame(next, undo[1..]);
    }
  }

  lemma MoveOrCopySame(st: Store, from: Perm, to: Perm, owner: Owner, deps: seq<Borrowed>)
    requires MoveOrCopy(st, from, to, owner, deps).Ok?
    ensures SameScope(st, MoveOrCopy(st, from, to, owner, deps).value.st)
  {
    if AssignableTo(from, to, Copy) {
      ReleaseSame(st, OwnerList(owner) + deps);
    } else if BaseOf(to).o && Linear(BaseOf(from)) && !Linear(BaseOf(to)) {
      if owner.NoOwner? {
        ReleaseSame(st, OwnerList(owner) + deps);
      } else {
        ReleaseSame(st, OwnerList(OwnedBy(owner.b.(perm := Frozen(owner.b.perm)))) + deps);
      }
    }
  }

  lemma {:induction false} MergeSameVariables(a: Store, b: Store)
    requires SameVariables(a, b) && MergeStores(a, b).Ok?
    ensures SameVariables(a, MergeStores(a, b).value)
  {
    if a != [] {
      Idempotent(a[0].max, Intersection);
      MergeSameVariables(a[1..], b[1..]);
    }
  }

  /** Branches of one scope with limited permissions merge to limited permissions. */
  lemma {:induction false} MergeWithin(a: Store, b: Store)
    requires SameVariables(a, b) && WithinMax(a) && WithinMax(b) && MergeStores(a, b).Ok?
    ensures WithinMax(MergeStores(a, b).value)
  {
    if a != [] {
      var max := a[0].max;
      Idempotent(max, Intersection);
      Associative(max, a[0].eff, b[0].eff, Intersection);
      MergeWithin(a[1..], b[1..]);
    }
  }

  lemma MergeSame(a: Store, b: Store)
    requires SameScope(a, b) && MergeStores(a, b).Ok?
    ensures SameScope(a, MergeStores(a, b).value)
  {
    MergeSameVariables(a, b);
    if Limited(a) {
      MergeLimited(a, b);
    }
    if WithinMax(a) {
      MergeWithin(a, b);
    }
  }

  lemma ReleasedSame(st: Store, v: Outcome<Visit>)
    requires Released(v).Ok? && SameScope(st, v.value.st)
    ensures SameScope(st, Released(v).value)
  {
    ReleaseSame(v.value.st, OwnerToDeps(v.value));
  }

  ghost predicate VisitSame(st: Store, v: Outcome<Visit>) {
    v.Ok? ==> SameScope(st, v.value.st)
  }

  lemma BothReleasedSame(st: Store, x: Expr, y: Expr)
    requires VisitSame(st, VisitExpr(st, x))
    requires Released(VisitExpr(st, x)).Ok? ==>
      VisitSame(Released(VisitExpr(st, x)).value, VisitExpr(Released(VisitExpr(st, x)).value, y))
    ensures var left := Released(VisitExpr(st, x));
      && (left.Ok? ==> SameScope(st, left.value))
      && (left.Ok? && Released(VisitExpr(left.value, y)).Ok? ==> SameScope(left.value, Released(VisitExpr(left.value, y)).value))
  {
    hide SameScope, VisitExpr, Release;
    var left := VisitExpr(st, x);
    if Released(left).Ok? {
      ReleasedSame(st, left);
      var right := VisitExpr(Released(left).value, y);
      if Released(right).Ok? {
        ReleasedSame(Released(left).value, right);
      }
    }
  }

  lemma BinarySame(st: Store, x: Expr, y: Expr)
    requires VisitSame(st, VisitExpr(st, x))
    requires Released(VisitExpr(st, x)).Ok? ==>
      VisitSame(Released(VisitExpr(st, x)).value, VisitExpr(Released(VisitExpr(st, x)).value, y))
    ensures VisitSame(st, VisitExpr(st, Binary(x, y)))
  {
    hide SameScope, Released, Has, VisitArgs, VisitIndex, VisitIdent, MoveOrCopy, SelectPath, SliceResult;
    BothReleasedSame(st, x, y);
    if VisitExpr(st, Binary(x, y)).Ok? {
      var left := Released(VisitExpr(st, x)).value;
      SameTransitive(st, left, Released(VisitExpr(left, y)).value);
    }
  }

  lemma LogicalSame(st: Store, x: Expr, y: Expr)
    requires VisitSame(st, VisitExpr(st, x))
    requires Released(VisitExpr(st, x)).Ok? ==>
      VisitSame(Released(VisitExpr(st, x)).value, VisitExpr(Released(VisitExpr(st, x)).value, y))
    ensures VisitSame(st, VisitExpr(st, Logical(x, y)))
  {
    hide SameScope, Released, MergeStores, Has, VisitArgs, VisitIndex, VisitIdent, MoveOrCopy, SelectPath, SliceResult;
    BothReleasedSame(st, x, y);
    if VisitExpr(st, Logical(x, y)).Ok? {
      var left := Released(VisitExpr(st, x)).value;
      var right := Released(VisitExpr(left, y)).value;
      MergeSame(left, right);
      SameTransitive(st, left, MergeStores(left, right).value);
    }
  }

  lemma IndexSame(st: Store, v: Visit, i: Visit)
    requires SameScope(st, i.st)
    ensures VisitSame(st, VisitIndex(v, i))
  {
    if VisitIndex(v, i).Ok? {
      if v.perm.kind.Array? || v.perm.kind.Slice? {
        ReleaseSame(i.st, OwnerList(i.owner) + i.deps);
      } else {
        MoveOrCopySame(i.st, i.perm, v.perm.parts[0], i.owner, i.deps);
      }
    }
  }

  /** Evaluating an expression keeps the scope, and effective permissions below their maxima. */
  lemma {:induction false} VisitKeepsScope(st: Store, e: Expr)
    ensures VisitSame(st, VisitExpr(st, e))
    decreases e, 0
  {
    hide SameScope;
    match e
    case Absent | Literal => SameSelf(st);
    case Ident(name) => IdentSame(st, name);
    case Paren(x) => VisitKeepsScope(st, x);
    case Star(x) => VisitKeepsScope(st, x);
    case AddressOf(x) => VisitKeepsScope(st, x);
    case Select(x, _) => VisitKeepsScope(st, x);
    case Receive(x) => VisitKeepsScope(st, x); UnarySame(st, x);
    case Unary(x) => VisitKeepsScope(st, x); UnarySame(st, x);
    case Binary(x, y) =>
      VisitKeepsScope(st, x);
      if Released(VisitExpr(st, x)).Ok? {
        VisitKeepsScope(Released(VisitExpr(st, x)).value, y);
      }
      BinarySame(st, x, y);
    case Logical(x, y) =>
      VisitKeepsScope(st, x);
      if Released(VisitExpr(st, x)).Ok? {
        VisitKeepsScope(Released(VisitExpr(st, x)).value, y);
      }
      LogicalSame(st, x, y);
    case Index(x, index) =>
      var v := VisitExpr(st, x);
      VisitKeepsScope(st, x);
      if v.Ok? {
        var i := VisitExpr(v.value.st, index);
        VisitKeepsScope(v.value.st, index);
        if i.Ok? {
          SameTransitive(st, v.value.st, i.value.st);
          IndexSame(st, v.value, i.value);
          assert VisitExpr(st, e).Ok? ==> VisitExpr(st, e) == VisitIndex(v.value, i.value);
        }
      }
    case SliceOf(x, low, high, max) =>
      if VisitExpr(st, e).Ok? {
        SliceKeepsOwner(st, x, low, high, max);
        var v := VisitExpr(st, x).value;
        var l := VisitExpr(v.st, low).value;
        var h := VisitExpr(l.st, high).value;
        var m := VisitExpr(h.st, max).value;
        VisitKeepsScope(st, x);
        VisitKeepsScope(v.st, low);
        VisitKeepsScope(l.st, high);
        VisitKeepsScope(h.st, max);
        var undo := OwnerToDeps(m) + OwnerToDeps(h) + OwnerToDeps(l);
        ReleaseSame(m.st, undo);
        SameTransitive(st, v.st, l.st);
        SameTransitive(st, l.st, h.st);
        SameTransitive(st, h.st, m.st);
        SameTransitive(st, m.st, Release(m.st, undo).value);
      }
    case Call(fun, args) =>
      if VisitExpr(st, e).Ok? {
        var f := VisitExpr(st, fun).value;
        var a := VisitArgs(f.st, args, Params(f.perm)).value;
        VisitKeepsScope(st, fun);
        ArgsKeepScope(f.st, args, Params(f.perm));
        var undo := a.deps + f.deps + OwnerList(f.owner);
        ReleaseSame(a.st, undo);
        SameTransitive(st, f.st, a.st);
        SameTransitive(st, a.st, Release(a.st, undo).value);
      }
  }

  lemma SameSelf(st: Store)
    ensures SameScope(st, st)
  {
  }

  lemma IdentSame(st: Store, name: string)
    ensures VisitSame(st, VisitIdent(st, name))
  {
    var v := VisitIdent(st, name);
    if v.Ok? && v.value.owner.OwnedBy? {
      SetSame(st, name, Dead(GetEffective(st, name).value));
    }
  }

  lemma UnarySame(st: Store, x: Expr)
    requires VisitSame(st, VisitExpr(st, x))
    ensures VisitSame(st, VisitExpr(st, Receive(x))) && VisitSame(st, VisitExpr(st, Unary(x)))
  {
    hide SameScope, MergeStores, Release, Has, VisitArgs, VisitIndex, VisitIdent, MoveOrCopy, SelectPath, SliceResult;
    var v := VisitExpr(st, x);
    if v.Ok? && Release(v.value.st, OwnerList(v.value.owner) + v.value.deps).Ok? {
      var undo := OwnerList(v.value.owner) + v.value.deps;
      ReleaseSame(v.value.st, undo);
      SameTransitive(st, v.value.st, Release(v.value.st, undo).value);
    }
  }

  lemma {:induction false} ArgsKeepScope(st: Store, args: seq<Expr>, params: seq<Perm>)
    ensures VisitArgs(st, args, params).Ok? ==> SameScope(st, VisitArgs(st, args, params).value.st)
    decreases args, 1
  {
    if args != [] && VisitArgs(st, args, params).Ok? {
      var v := VisitExpr(st, args[0]).value;
      VisitKeepsScope(st, args[0]);
      MoveOrCopySame(v.st, v.perm, params[0], v.owner, v.deps);
      var t := MoveOrCopy(v.st, v.perm, params[0], v.owner, v.deps).value;
      ArgsKeepScope(t.st, args[1..], params[1..]);
    }
  }

  // ----- statements

  lemma DefineGrew(st: Store, name: string, p: Perm)
    requires Define(st, name, p).Ok?
    ensures Grew(st, Define(st, name, p).value)
  {
    if Find(st, name) < FrameEnd(st) {
      SetSame(st, name, p);
      SameGrew(st, Define(st, name, p).value);
    } else {
      assert ([Var(name, p, p)] + st)[1..] == st;
      Idempotent(p, Intersection);
    }
  }

  lemma NothingToRelease(st: Store, from: Perm, to: Perm)
    ensures MoveOrCopy(st, from, to, NoOwner, []).Ok? ==> MoveOrCopy(st, from, to, NoOwner, []).value.st == st
  {
  }

  /** What is bound to the left-hand side before the place is looked at is what the binding leaves. */
  lemma BoundStays(st: Store, lhs: Expr, rhs: Perm, define: bool, allowUnowned: bool)
    requires DefineOrAssign(st, lhs, rhs, define, allowUnowned).Ok?
    ensures var after := DefineOrAssign(st, lhs, rhs, define, allowUnowned);
      if !lhs.Ident? || lhs.name == "_" then after == Ok(st)
      else if define then after == Define(st, lhs.name, rhs)
      else GetMaximum(st, lhs.name).Ok? &&
           var max := GetMaximum(st, lhs.name).value;
           after == SetEffective(st, lhs.name, if AssignableTo(rhs, max, Copy) then max else rhs)
  {
    hide MoveOrCopy, AssignableTo, VisitExpr, Has, Define, SetEffective, GetMaximum;
    forall bound: Store, to: Perm
      ensures MoveOrCopy(bound, rhs, to, NoOwner, []).Ok? ==> MoveOrCopy(bound, rhs, to, NoOwner, []).value.st == bound
    {
      NothingToRelease(bound, rhs, to);
    }
  }

  lemma DefineOrAssignGrew(st: Store, lhs: Expr, rhs: Perm, define: bool, allowUnowned: bool)
    requires DefineOrAssign(st, lhs, rhs, define, allowUnowned).Ok?
    ensures Grew(st, DefineOrAssign(st, lhs, rhs, define, allowUnowned).value)
  {
    hide DefineOrAssign, Define, SetEffective, GetMaximum, AssignableTo, SameScope, Grew;
    BoundStays(st, lhs, rhs, define, allowUnowned);
    SameSelf(st);
    SameGrew(st, st);
    if lhs.Ident? && lhs.name != "_" {
      if define {
        DefineGrew(st, lhs.name, rhs);
      } else {
        var p := if AssignableTo(rhs, GetMaximum(st, lhs.name).value, Copy) then GetMaximum(st, lhs.name).value else rhs;
        SetSame(st, lhs.name, p);
        SameGrew(st, SetEffective(st, lhs.name, p).value);
      }
    }
  }

  lemma {:induction false} BindAllGrew(st: Store, lhs: seq<Expr>, perms: seq<Perm>, define: bool)
    requires |lhs| == |perms| && BindAll(st, lhs, perms, define).Ok?
    ensures Grew(st, BindAll(st, lhs, perms, define).value)
    decreases |lhs|
  {
    if lhs == [] {
      SameGrew(st, st);
    } else {
      DefineOrAssignGrew(st, lhs[0], perms[0], define, false);
      var next := DefineOrAssign(st, lhs[0], perms[0], define, false).value;
      BindAllGrew(next, lhs[1..], perms[1..], define);
      GrewTransitive(st, next, BindAll(next, lhs[1..], perms[1..], define).value);
    }
  }

  lemma {:induction false} RhsSame(st: Store, rhs: seq<Expr>)
    requires VisitRhs(st, rhs).Ok?
    ensures SameScope(st, VisitRhs(st, rhs).value.2)
    decreases |rhs|
  {
    if rhs != [] {
      var v := VisitExpr(st, rhs[0]).value;
      VisitKeepsScope(st, rhs[0]);
      MoveOrCopySame(v.st, v.perm, v.perm, v.owner, v.deps);
      RhsSame(MoveOrCopy(v.st, v.perm, v.perm, v.owner, v.deps).value.st, rhs[1..]);
    }
  }

  /** Evaluating, binding variables and releasing, in that order. */
  lemma BindGrew(st: Store, evaluated: Store, lhs: seq<Expr>, perms: seq<Perm>, define: bool, undo: seq<Borrowed>)
    requires SameScope(st, evaluated) && |lhs| == |perms| && BindAll(evaluated, lhs, perms, define).Ok?
    requires Release(BindAll(evaluated, lhs, perms, define).value, undo).Ok?
    ensures Grew(st, Release(BindAll(evaluated, lhs, perms, define).value, undo).value)
  {
    var bound := BindAll(evaluated, lhs, perms, define).value;
    var released := Release(bound, undo).value;
    SameGrew(st, evaluated);
    BindAllGrew(evaluated, lhs, perms, define);
    ReleaseSame(bound, undo);
    SameGrew(bound, released);
    GrewTransitive(st, evaluated, bound);
    GrewTransitive(st, bound, released);
  }

  lemma AssignGrew(st: Store, lhs: seq<Expr>, rhs: seq<Expr>, define: bool)
    requires AssignMany(st, lhs, rhs, define).Ok?
    ensures Grew(st, AssignMany(st, lhs, rhs, define).value)
  {
    if |rhs| == 1 && |lhs| > 1 {
      var v := VisitExpr(st, rhs[0]).value;
      VisitKeepsScope(st, rhs[0]);
      BindGrew(st, v.st, lhs, v.perm.parts, define, OwnerToDeps(v));
    } else {
      var r := VisitRhs(st, rhs).value;
      RhsSame(st, rhs);
      BindGrew(st, r.2, lhs, r.0, define, r.1);
    }
  }

  lemma {:induction false} ResultsSame(st: Store, exprs: seq<Expr>, declared: seq<Perm>)
    requires BindResults(st, exprs, declared).Ok?
    ensures SameScope(st, BindResults(st, exprs, declared).value)
    decreases |exprs|
  {
    if exprs != [] {
      var v := VisitExpr(st, exprs[0]).value;
      VisitKeepsScope(st, exprs[0]);
      MoveOrCopySame(v.st, v.perm, declared[0], v.owner, v.deps);
      ResultsSame(MoveOrCopy(v.st, v.perm, declared[0], v.owner, v.deps).value.st, exprs[1..], declared[1..]);
    }
  }

  lemma SendSame(st: Store, channel: Expr, sent: Expr)
    requires VisitSend(st, channel, sent).Ok?
    ensures SameScope(st, VisitSend(st, channel, sent).value)
  {
    var c := VisitExpr(st, channel).value;
    var v := VisitExpr(c.st, sent).value;
    var t := MoveOrCopy(v.st, v.perm, c.perm.parts[0], v.owner, v.deps).value;
    VisitKeepsScope(st, channel);
    VisitKeepsScope(c.st, sent);
    MoveOrCopySame(v.st, v.perm, c.perm.parts[0], v.owner, v.deps);
    ReleaseSame(t.st, OwnerList(t.owner) + t.deps + OwnerToDeps(c));
  }

  lemma ReleaseVisitSame(st: Store, e: Expr, rights: Rights)
    requires VisitAndRelease(st, e, rights).Ok?
    ensures SameScope(st, VisitAndRelease(st, e, rights).value)
  {
    VisitKeepsScope(st, e);
    ReleasedSame(st, VisitExpr(st, e));
  }

  lemma LoopVarGrew(st: Store, v: Expr, perm: Outcome<Perm>, define: bool)
    requires BindLoopVar(st, v, perm, define).Ok?
    ensures Grew(st, BindLoopVar(st, v, perm, define).value)
  {
    if v.Absent? || v == Ident("_") {
      SameGrew(st, st);
    } else {
      DefineOrAssignGrew(st, v, perm.value, define, define);
    }
  }

  lemma IterationGrew(st: Store, key: Expr, val: Expr, define: bool, container: Perm)
    requires IterationStart(st, key, val, define, container).Ok?
    ensures Grew(BeginBlock(st), IterationStart(st, key, val, define, container).value)
  {
    LoopVarGrew(BeginBlock(st), key, RangePerms(container).0, define);
    var bound := BindLoopVar(BeginBlock(st), key, RangePerms(container).0, define).value;
    LoopVarGrew(bound, val, RangePerms(container).1, define);
    GrewTransitive(BeginBlock(st), bound, BindLoopVar(bound, val, RangePerms(container).1, define).value);
  }

  /** Every exit of a statement, whatever branch it carries, has the scope of the entry store, with more
      variables at most in the innermost frame; an exit of a block, conditional or loop has exactly that scope.
      Effective permissions that were below their maxima still are. */
  lemma {:induction false} ExitKeepsScope(results: seq<Perm>, st: Store, stmt: Stmt, exit: Exit)
    requires HasExit(results, st, stmt, exit)
    ensures Grew(st, exit.store)
    ensures stmt.Block? || stmt.If? || stmt.Range? ==> SameScope(st, exit.store)
    decreases stmt, 4
  {
    match stmt
    case Empty => SameGrew(st, st);
    case BranchTo(_) => SameGrew(st, st);
    case ExprStmt(x) => ReleaseVisitSame(st, x, NO_RIGHTS); SameGrew(st, exit.store);
    case IncDec(x) => ReleaseVisitSame(st, x, Rights(false, true, true, false, false)); SameGrew(st, exit.store);
    case Send(channel, sent) => SendSame(st, channel, sent); SameGrew(st, exit.store);
    case Assign(lhs, rhs, define) => AssignGrew(st, lhs, rhs, define);
    case Return(exprs) => ResultsSame(st, exprs, results); SameGrew(st, exit.store);
    case Labeled(_, inner) => ExitKeepsScope(results, st, inner, exit);
    case Block(list) =>
      var inner: Exit :| ListExits(results, BeginBlock(st), list, inner) && Ends(inner, exit);
      ListKeepsScope(results, BeginBlock(st), list, inner);
      EndGrew(st, inner.store);
      SameGrew(st, exit.store);
    case If(_, _, _, _) =>
      IfKeepsScope(results, st, stmt, exit);
      SameGrew(st, exit.store);
    case Range(_, _, _, _, _) =>
      RangeKeepsScope(results, st, stmt, exit);
      SameGrew(st, exit.store);
  }

  lemma {:induction false} IfKeepsScope(results: seq<Perm>, st: Store, stmt: Stmt, exit: Exit)
    requires stmt.If? && HasExit(results, st, stmt, exit)
    ensures SameScope(st, exit.store)
    decreases stmt, 3
  {
    hide SameScope, Grew, VisitAndRelease;
    var start: Exit, inner: Exit :|
      && HasExit(results, BeginBlock(st), stmt.init, start)
      && AfterTest(results, VisitAndRelease(start.store, stmt.cond, READ), stmt, inner)
      && Ends(inner, exit);
    ExitKeepsScope(results, BeginBlock(st), stmt.init, start);
    ReleaseVisitSame(start.store, stmt.cond, READ);
    var tested := VisitAndRelease(start.store, stmt.cond, READ).value;
    SameGrew(start.store, tested);
    if HasExit(results, tested, stmt.thn, inner) {
      ExitKeepsScope(results, tested, stmt.thn, inner);
    } else {
      ExitKeepsScope(results, tested, stmt.els, inner);
    }
    GrewTransitive(BeginBlock(st), start.store, tested);
    GrewTransitive(BeginBlock(st), tested, inner.store);
    EndGrew(st, inner.store);
  }

  lemma RouteKeepsStore(b: W.Block, at: nat, e: Exit)
    ensures match W.RouteOf(b, at, e) case Go(w) => w.store == e.store case Leave(exit) => exit.store == e.store
  {
  }

  lemma {:induction false} PathKeepsScope(results: seq<Perm>, init: Store, list: seq<Stmt>, path: seq<W.Work<Store>>, last: W.Work<Store>)
    requires IsListPath(results, init, list, path, last)
    ensures Grew(init, last.store)
    decreases list, 2, |path|
  {
    if |path| == 1 {
      SameGrew(init, init);
    } else {
      var before := path[|path| - 2];
      assert ListStep(results, list, before, last);
      var e: Exit :| HasExit(results, before.store, list[before.at], e) && W.RouteOf(BlockOf(list), before.at, e) == W.Go(last);
      RouteKeepsStore(BlockOf(list), before.at, e);
      hide HasExit, Grew, W.RouteOf, ListStep;
      PathKeepsScope(results, init, list, path[..|path| - 1], before);
      ExitKeepsScope(results, before.store, list[before.at], e);
      GrewTransitive(init, before.store, last.store);
    }
  }

  lemma {:induction false} ListKeepsScope(results: seq<Perm>, init: Store, list: seq<Stmt>, exit: Exit)
    requires ListExits(results, init, list, exit)
    ensures Grew(init, exit.store)
    decreases list, 3
  {
    if list == [] {
      SameGrew(init, init);
    } else {
      var path: seq<W.Work<Store>>, w: W.Work<Store>, e: Exit :|
        && IsListPath(results, init, list, path, w)
        && HasExit(results, w.store, list[w.at], e)
        && W.RouteOf(BlockOf(list), w.at, e) == W.Leave(exit);
      RouteKeepsStore(BlockOf(list), w.at, e);
      hide HasExit, Grew, W.RouteOf;
      PathKeepsScope(results, init, list, path, w);
      ExitKeepsScope(results, w.store, list[w.at], e);
      GrewTransitive(init, w.store, exit.store);
    }
  }

  lemma {:induction false} BodyKeepsScope(results: seq<Perm>, stmt: Stmt, container: Visit, st: Store, exit: Exit)
    requires stmt.Range? && BodyExit(results, stmt, container, st, exit)
    ensures SameScope(st, exit.store)
    decreases stmt, 0
  {
    var start := IterationStart(st, stmt.key, stmt.val, stmt.define, container.perm).value;
    var inner: Exit :| HasExit(results, start, stmt.body, inner) && Ends(inner, exit);
    IterationGrew(st, stmt.key, stmt.val, stmt.define, container.perm);
    ExitKeepsScope(results, start, stmt.body, inner);
    GrewTransitive(BeginBlock(st), start, inner.store);
    EndGrew(st, inner.store);
  }

  lemma {:induction false} IterationKeepsScope(results: seq<Perm>, stmt: Stmt, container: Visit, path: seq<Store>, last: Store)
    requires stmt.Range? && IsIteration(results, stmt, container, path, last)
    ensures SameScope(container.st, last)
    decreases stmt, 1, |path|
  {
    if |path| > 1 {
      var before := path[|path| - 2];
      assert Repeats(results, stmt, container, before, last);
      var b: W.Branch :| BodyExit(results, stmt, container, before, W.StmtExit(last, b)) && Iterates(b);
      IterationKeepsScope(results, stmt, container, path[..|path| - 1], before);
      BodyKeepsScope(results, stmt, container, before, W.StmtExit(last, b));
    }
  }

  lemma {:induction false} LoopKeepsScope(results: seq<Perm>, stmt: Stmt, container: Visit, raw: Exit)
    requires stmt.Range? && LoopExits(results, stmt, container, raw)
    ensures SameScope(container.st, raw.store)
    decreases stmt, 2
  {
    var path: seq<Store>, last: Store, inner: Exit :|
      && IsIteration(results, stmt, container, path, last)
      && BodyExit(results, stmt, container, last, inner)
      && raw == W.StmtExit(inner.store, LoopBranch(inner.branch));
    IterationKeepsScope(results, stmt, container, path, last);
    BodyKeepsScope(results, stmt, container, last, inner);
  }

  lemma {:induction false} RangeKeepsScope(results: seq<Perm>, st: Store, stmt: Stmt, exit: Exit)
    requires stmt.Range? && HasExit(results, st, stmt, exit)
    ensures SameScope(st, exit.store)
    decreases stmt, 3
  {
    var v := VisitExpr(st, stmt.x).value;
    VisitKeepsScope(st, stmt.x);
    var release := RangeReleases(results, stmt, v);
    var raw: Exit :| (raw == W.StmtExit(st, W.Normal) || LoopExits(results, stmt, v, raw)) && IsReleased(raw, release, OwnerToDeps(v), exit);
    if LoopExits(results, stmt, v, raw) {
      LoopKeepsScope(results, stmt, v, raw);
    }
    if release {
      ReleaseSame(raw.store, OwnerToDeps(v));
    }
  }

  /** Wherever a run of statements gets from a store with limited permissions, evaluation that only borrows can be
      undone. */
  lemma ReleaseAfterRun(results: seq<Perm>, st: Store, stmt: Stmt, exit: Exit, x: Expr)
    requires WithinMax(st) && HasExit(results, st, stmt, exit)
    ensures WithinMax(exit.store)
    ensures OnlyBorrows(exit.store, x) && VisitExpr(exit.store, x).Ok? ==> Released(VisitExpr(exit.store, x)) == Ok(exit.store)
  {
    ExitKeepsScope(results, st, stmt, exit);
    hide HasExit, OnlyBorrows, VisitExpr, Released, WithinMax;
    if OnlyBorrows(exit.store, x) && VisitExpr(exit.store, x).Ok? {
      BorrowThenRelease(exit.store, x);
    }
  }
}
