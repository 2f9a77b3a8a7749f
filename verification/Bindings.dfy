/** What statements bind to what: loop variables, definitions, swaps, sent values and results. */
module Bindings {
  import opened Wrappers
  import opened BasePermission
  import opened Permission
  import opened Assignable
  import opened Stores
  import opened StoreLaws
  import opened Interpreter
  import opened Statements
  import W = Worklist
  import opened Scope
  import opened Results

  // ----- loop variables

  /** The loop variable of a defining range statement is a new variable of the frame of the iteration. */
  lemma LoopVarDefined(st: Store, name: string, p: Perm)
    requires name != "_" && !InBlock(st, name) && BindLoopVar(st, Ident(name), Ok(p), true).Ok?
    ensures BindLoopVar(st, Ident(name), Ok(p), true).value == [Var(name, p, p)] + st
  {
    InBlockIff(st, name);
    BoundStays(st, Ident(name), p, true, true);
  }

  /** An ignored loop variable is bound to nothing. */
  lemma LoopVarIgnored(st: Store, v: Expr, p: Outcome<Perm>, define: bool)
    requires v.Absent? || v == Ident("_")
    ensures BindLoopVar(st, v, p, define) == Ok(st)
  {
  }

  /** What an iteration binds keys and values of its container to: unowned integers and the elements of an array or
      slice, the keys and values of a map. */
  predicate LoopPerms(container: Perm, key: Perm, val: Perm) {
    container.Node? &&
      match container.kind
      case Array | Slice => container.parts != [] && key == Base(Rights(false, true, true, true, true)) && val == container.parts[0]
      case Map => |container.parts| == 2 && key == container.parts[0] && val == container.parts[1]
      case _ => false
  }

  /** An iteration with two loop variables starts in a new frame that has the value and the key, in this order, with
      the permissions of the container; no other container has any. */
  lemma IterationBinds(st: Store, k: string, v: string, container: Perm) returns (key: Perm, val: Perm)
    requires k != v && k != "_" && v != "_" && IterationStart(st, Ident(k), Ident(v), true, container).Ok?
    ensures LoopPerms(container, key, val)
    ensures IterationStart(st, Ident(k), Ident(v), true, container).value == [Var(v, val, val)] + ([Var(k, key, key)] + BeginBlock(st))
  {
    Beginning(st, k);
    Beginning(st, v);
    hide BindLoopVar, RangePerms, InBlock, Known, EndBlock, LoopPerms;
    var perms := RangePerms(container);
    var begun := BeginBlock(st);
    LoopVarPerm(begun, k, perms.0);
    key := perms.0.value;
    LoopVarDefined(begun, k, key);
    var one := [Var(k, key, key)] + begun;
    LoopVarPerm(one, v, perms.1);
    val := perms.1.value;
    Pushed(Var(k, key, key), begun, v);
    LoopVarDefined(one, v, val);
    PermsOfLoop(container);
  }

  lemma LoopVarPerm(st: Store, name: string, p: Outcome<Perm>)
    requires name != "_" && BindLoopVar(st, Ident(name), p, true).Ok?
    ensures p.Ok?
  {
  }

  lemma PermsOfLoop(container: Perm)
    ensures RangePerms(container).0.Ok? || RangePerms(container).1.Ok? ==>
      RangePerms(container).0.Ok? && RangePerms(container).1.Ok?
      && LoopPerms(container, RangePerms(container).0.value, RangePerms(container).1.value)
  {
  }

  /** So the loop variables have these permissions, and every other variable is as it was. */
  lemma IterationSees(st: Store, k: string, v: string, container: Perm, other: string) returns (key: Perm, val: Perm)
    requires k != v && k != "_" && v != "_" && IterationStart(st, Ident(k), Ident(v), true, container).Ok?
    ensures var start := IterationStart(st, Ident(k), Ident(v), true, container).value;
      && LoopPerms(container, key, val)
      && Known(start, k) == Some((key, key)) && Known(start, v) == Some((val, val))
      && (other != k && other != v ==> Known(start, other) == Known(st, other))
  {
    key, val := IterationBinds(st, k, v, container);
    hide Known, InBlock, EndBlock, IterationStart;
    Beginning(st, other);
    var inner := [Var(k, key, key)] + BeginBlock(st);
    Pushed(Var(k, key, key), BeginBlock(st), other);
    Pushed(Var(k, key, key), BeginBlock(st), k);
    Pushed(Var(v, val, val), inner, k);
    Pushed(Var(v, val, val), inner, v);
    Pushed(Var(v, val, val), inner, other);
  }

  /** With the value alone the same holds of it. */
  lemma IterationSeesValue(st: Store, ignored: Expr, v: string, container: Perm) returns (key: Perm, val: Perm)
    requires (ignored.Absent? || ignored == Ident("_")) && v != "_" && IterationStart(st, ignored, Ident(v), true, container).Ok?
    ensures LoopPerms(container, key, val)
    ensures IterationStart(st, ignored, Ident(v), true, container).value == [Var(v, val, val)] + BeginBlock(st)
  {
    Beginning(st, v);
    LoopVarIgnored(BeginBlock(st), ignored, RangePerms(container).0, true);
    hide BindLoopVar, RangePerms, InBlock, Known, EndBlock, LoopPerms;
    var perms := RangePerms(container);
    LoopVarPerm(BeginBlock(st), v, perms.1);
    PermsOfLoop(container);
    key, val := perms.0.value, perms.1.value;
    LoopVarDefined(BeginBlock(st), v, val);
  }

  /** The container may be released after a loop over an array or slice exactly if its elements are not owned. */
  lemma ElementsUnowned(stmt: Stmt, container: Visit, st: Store, k: string, v: string)
    requires stmt.Range? && stmt.define && stmt.key == Ident(k) && stmt.val == Ident(v) && k != v && k != "_" && v != "_"
    requires container.perm.Node? && (container.perm.kind.Array? || container.perm.kind.Slice?)
    requires IterationStart(st, Ident(k), Ident(v), true, container.perm).Ok?
    ensures LeavesUnowned(stmt, container, st) <==>
      !container.perm.parts[0].Wildcard? && !BaseOf(container.perm.parts[0]).o
  {
    var key, val := IterationBinds(st, k, v, container.perm);
    Beginning(st, k);
    KeyBound(st, stmt, k, container.perm);
    var afterKey := [Var(k, key, key)] + BeginBlock(st);
    FrontEffective(k, key, BeginBlock(st));
    FrontEffective(v, val, afterKey);
    UnownedIs(afterKey, k, key);
    UnownedIs([Var(v, val, val)] + afterKey, v, val);
    hide BindLoopVar, IterationStart, Unowned, GetEffective, RangePerms;
  }

  lemma KeyBound(st: Store, stmt: Stmt, k: string, container: Perm)
    requires k != "_" && !InBlock(BeginBlock(st), k) && container.Node? && (container.kind.Array? || container.kind.Slice?)
    ensures BindLoopVar(BeginBlock(st), Ident(k), RangePerms(container).0, true).Ok? ==>
      container.parts != [] && var key := Base(Rights(false, true, true, true, true));
      BindLoopVar(BeginBlock(st), Ident(k), RangePerms(container).0, true) == Ok([Var(k, key, key)] + BeginBlock(st))
  {
    hide DefineOrAssign, InBlock;
    if BindLoopVar(BeginBlock(st), Ident(k), RangePerms(container).0, true).Ok? {
      LoopVarDefined(BeginBlock(st), k, RangePerms(container).0.value);
    }
  }

  lemma FrontEffective(name: string, p: Perm, st: Store)
    ensures GetEffective([Var(name, p, p)] + st, name) == Ok(p)
  {
  }

  lemma UnownedIs(st: Store, name: string, p: Perm)
    requires name != "_" && GetEffective(st, name) == Ok(p)
    ensures Unowned(st, Ident(name)) <==> !p.Wildcard? && !BaseOf(p).o
  {
  }

  // ----- definitions and assignments

  /** `x := p` for a name that is not in the innermost block makes a new variable, for one that is assigns it. */
  lemma DefinesVariable(st: Store, x: string, p: Perm)
    requires x != "_" && DefineOrAssign(st, Ident(x), p, true, false).Ok?
    ensures var after := DefineOrAssign(st, Ident(x), p, true, false).value;
      && (!InBlock(st, x) ==> after == [Var(x, p, p)] + st)
      && (InBlock(st, x) ==> SetEffective(st, x, p) == Ok(after))
  {
    InBlockIff(st, x);
    BoundStays(st, Ident(x), p, true, false);
  }

  /** The place must own what is assigned to it, and be able to take it. */
  lemma AssignedIsOwned(st: Store, lhs: Expr, p: Perm, define: bool) returns (bound: Store)
    requires lhs != Ident("_") && DefineOrAssign(st, lhs, p, define, false).Ok?
    ensures var place := VisitExpr(bound, lhs);
      && place.Ok? && !place.value.perm.Wildcard? && BaseOf(place.value.perm).o
      && (AssignableTo(p, place.value.perm, Copy) || AssignableTo(p, place.value.perm, Move))
      && (!lhs.Ident? ==> bound == st)
  {
    hide VisitExpr, AssignableTo, Define, SetEffective, GetMaximum;
    var outcome :=
      if !lhs.Ident? then Ok(st)
      else if define then Define(st, lhs.name, p)
      else
        var max := GetMaximum(st, lhs.name);
        if !max.Ok? then Panic
        else if AssignableTo(p, max.value, Copy) then SetEffective(st, lhs.name, max.value)
        else SetEffective(st, lhs.name, p);
    assert outcome.Ok?;
    bound := outcome.value;
    var place := VisitExpr(bound, lhs);
    assert place.Ok?;
    TransferAllowed(bound, p, place.value.perm, NoOwner, []);
    assert Has(place.value.perm, OWNED);
  }

  /** The right-hand side is visited in `st`, and its value put aside at its own permission, which leaves `next`. */
  ghost predicate PutAside(st: Store, e: Expr, p: Perm, next: Store) {
    var v := VisitExpr(st, e);
    && v.Ok? && v.value.perm == p
    && var t := MoveOrCopy(v.value.st, p, p, v.value.owner, v.value.deps); t.Ok? && t.value.st == next
  }

  /** All right-hand sides are visited, from left to right. */
  lemma {:induction false} RhsInOrder(st: Store, rhs: seq<Expr>) returns (stores: seq<Store>)
    requires VisitRhs(st, rhs).Ok?
    ensures var (perms, deps, last) := VisitRhs(st, rhs).value;
      && |perms| == |rhs| && |stores| == |rhs| + 1 && stores[0] == st && stores[|rhs|] == last
      && forall k :: 0 <= k < |rhs| ==> PutAside(stores[k], rhs[k], perms[k], stores[k + 1])
    decreases |rhs|
  {
    hide VisitExpr, MoveOrCopy;
    if rhs == [] {
      stores := [st];
    } else {
      var v := VisitExpr(st, rhs[0]).value;
      var t := MoveOrCopy(v.st, v.perm, v.perm, v.owner, v.deps).value;
      var rest := RhsInOrder(t.st, rhs[1..]);
      stores := [st] + rest;
      var more := VisitRhs(t.st, rhs[1..]).value;
      assert PutAside(st, rhs[0], v.perm, t.st);
      forall k | 0 < k < |rhs|
        ensures PutAside(stores[k], rhs[k], VisitRhs(st, rhs).value.0[k], stores[k + 1])
      {
        assert PutAside(rest[k - 1], rhs[1..][k - 1], more.0[k - 1], rest[k]);
      }
    }
  }

  /** Left-hand sides are bound from left to right, each to the permission of its position. */
  lemma {:induction false} BoundInOrder(st: Store, lhs: seq<Expr>, perms: seq<Perm>, define: bool) returns (stores: seq<Store>)
    requires |lhs| == |perms| && BindAll(st, lhs, perms, define).Ok?
    ensures |stores| == |lhs| + 1 && stores[0] == st && stores[|lhs|] == BindAll(st, lhs, perms, define).value
    ensures forall k :: 0 <= k < |lhs| ==> DefineOrAssign(stores[k], lhs[k], perms[k], define, false) == Ok(stores[k + 1])
    decreases |lhs|
  {
    hide DefineOrAssign;
    if lhs == [] {
      stores := [st];
    } else {
      var next := DefineOrAssign(st, lhs[0], perms[0], define, false).value;
      var rest := BoundInOrder(next, lhs[1..], perms[1..], define);
      stores := [st] + rest;
      forall k | 0 < k < |lhs|
        ensures DefineOrAssign(stores[k], lhs[k], perms[k], define, false) == Ok(stores[k + 1])
      {
        assert DefineOrAssign(rest[k - 1], lhs[1..][k - 1], perms[1..][k - 1], define, false) == Ok(rest[k]);
      }
    }
  }

  /** `a, b = x, y` visits all right-hand sides before it binds any left-hand side, so that `a, b = b, a` exchanges the
      permissions; what the right-hand sides leave borrowed is released last. */
  lemma AssignsInOrder(st: Store, lhs: seq<Expr>, rhs: seq<Expr>, define: bool)
    returns (perms: seq<Perm>, visits: seq<Store>, binds: seq<Store>, undo: seq<Borrowed>)
    requires AssignMany(st, lhs, rhs, define).Ok? && !(|rhs| == 1 && |lhs| > 1)
    ensures |lhs| == |rhs| == |perms| && |visits| == |binds| == |lhs| + 1
    ensures visits[0] == st && binds[0] == visits[|lhs|] && Release(binds[|lhs|], undo) == AssignMany(st, lhs, rhs, define)
    ensures forall k :: 0 <= k < |lhs| ==> PutAside(visits[k], rhs[k], perms[k], visits[k + 1])
    ensures forall k :: 0 <= k < |lhs| ==> DefineOrAssign(binds[k], lhs[k], perms[k], define, false) == Ok(binds[k + 1])
  {
    hide DefineOrAssign, VisitRhs, BindAll, PutAside;
    var r := VisitRhs(st, rhs).value;
    perms, undo := r.0, r.1;
    visits := RhsInOrder(st, rhs);
    binds := BoundInOrder(r.2, lhs, perms, define);
  }

  /** A tuple is bound to several left-hand sides element by element, and its owner released afterwards. */
  lemma TupleInOrder(st: Store, lhs: seq<Expr>, e: Expr, define: bool) returns (binds: seq<Store>)
    requires AssignMany(st, lhs, [e], define).Ok? && |lhs| > 1
    ensures var v := VisitExpr(st, e);
      && v.Ok? && v.value.perm.Node? && v.value.perm.kind.Tuple? && |v.value.perm.parts| == |lhs|
      && |binds| == |lhs| + 1 && binds[0] == v.value.st
      && (forall k :: 0 <= k < |lhs| ==> DefineOrAssign(binds[k], lhs[k], v.value.perm.parts[k], define, false) == Ok(binds[k + 1]))
      && Release(binds[|lhs|], OwnerToDeps(v.value)) == AssignMany(st, lhs, [e], define)
  {
    hide DefineOrAssign, VisitExpr, BindAll, Release;
    var v := VisitExpr(st, e).value;
    binds := BoundInOrder(v.st, lhs, v.perm.parts, define);
  }

  // ----- sending, returning, counting, testing

  /** Sending asks for a channel that may be written, and a value that can be copied or moved to its element. */
  lemma SendAsks(st: Store, channel: Expr, sent: Expr)
    requires VisitSend(st, channel, sent).Ok?
    ensures var c := VisitExpr(st, channel);
      && c.Ok? && c.value.perm.Node? && c.value.perm.kind.Chan? && c.value.perm.base.w && c.value.perm.parts != []
      && var v := VisitExpr(c.value.st, sent);
         && v.Ok?
         && (AssignableTo(v.value.perm, c.value.perm.parts[0], Copy) || AssignableTo(v.value.perm, c.value.perm.parts[0], Move))
         && var t := MoveOrCopy(v.value.st, v.value.perm, c.value.perm.parts[0], v.value.owner, v.value.deps);
            t.Ok? && Release(t.value.st, OwnerList(t.value.owner) + t.value.deps + OwnerToDeps(c.value)) == VisitSend(st, channel, sent)
  {
    hide VisitExpr, AssignableTo, MoveOrCopy, Release;
    var c := VisitExpr(st, channel).value;
    var v := VisitExpr(c.st, sent).value;
    TransferAllowed(v.st, v.perm, c.perm.parts[0], v.owner, v.deps);
  }

  /** A return has as many results as the function declares, each, from left to right, copied or moved to the declared
      one of its position. */
  lemma {:induction false} ReturnsInOrder(st: Store, results: seq<Expr>, declared: seq<Perm>) returns (stores: seq<Store>)
    requires BindResults(st, results, declared).Ok?
    ensures |results| == |declared| && |stores| == |results| + 1
    ensures stores[0] == st && stores[|results|] == BindResults(st, results, declared).value
    ensures forall k :: 0 <= k < |results| ==> ArgFits(stores[k], results[k], declared[k], stores[k + 1])
    decreases |results|
  {
    hide VisitExpr, AssignableTo, MoveOrCopy;
    if results == [] {
      stores := [st];
    } else {
      var v := VisitExpr(st, results[0]).value;
      var t := MoveOrCopy(v.st, v.perm, declared[0], v.owner, v.deps);
      TransferAllowed(v.st, v.perm, declared[0], v.owner, v.deps);
      var rest := ReturnsInOrder(t.value.st, results[1..], declared[1..]);
      stores := [st] + rest;
      assert ArgFits(st, results[0], declared[0], t.value.st);
      forall k | 0 < k < |results|
        ensures ArgFits(stores[k], results[k], declared[k], stores[k + 1])
      {
        assert ArgFits(rest[k - 1], results[1..][k - 1], declared[1..][k - 1], rest[k]);
      }
    }
  }

  /** `x++` asks for reading and writing, a condition for reading; both release what they borrow. */
  lemma RightsAsked(st: Store, e: Expr)
    ensures VisitAndRelease(st, e, Rights(false, true, true, false, false)).Ok? ==>
      var v := VisitExpr(st, e);
      v.Ok? && !v.value.perm.Wildcard? && BaseOf(v.value.perm).r && BaseOf(v.value.perm).w
    ensures VisitAndRelease(st, e, READ).Ok? ==> VisitExpr(st, e).Ok? && MayRead(VisitExpr(st, e).value.perm)
    ensures forall rights :: VisitAndRelease(st, e, rights).Ok? ==>
      VisitExpr(st, e).Ok? && Release(VisitExpr(st, e).value.st, OwnerToDeps(VisitExpr(st, e).value)) == VisitAndRelease(st, e, rights)
  {
    hide VisitExpr, Release;
  }

  /** What the exits of simple statements ask for, and what branch they carry. */
  lemma SimpleExits(results: seq<Perm>, st: Store, stmt: Stmt, exit: Exit)
    requires HasExit(results, st, stmt, exit)
    ensures match stmt
      case Empty => exit.store == st && exit.branch == W.Normal
      case BranchTo(branch) => exit.store == st && exit.branch == branch
      case ExprStmt(x) => exit.branch == W.Normal && VisitExpr(st, x).Ok?
      case IncDec(x) =>
        exit.branch == W.Normal && VisitExpr(st, x).Ok? && !VisitExpr(st, x).value.perm.Wildcard?
        && BaseOf(VisitExpr(st, x).value.perm).r && BaseOf(VisitExpr(st, x).value.perm).w
      case Send(_, _) | Assign(_, _, _) => exit.branch == W.Normal
      case Return(exprs) => exit.branch == W.Return && |exprs| == |results|
      case Range(_, _, _, x, _) => VisitExpr(st, x).Ok? && MayRead(VisitExpr(st, x).value.perm)
      case _ => true
  {
    hide VisitExpr, AssignMany, VisitSend;
    match stmt
    case ExprStmt(x) => RightsAsked(st, x);
    case IncDec(x) => RightsAsked(st, x);
    case Range(_, _, _, x, _) =>
      if VisitExpr(st, x).Ok? {
        ReadIsHas(VisitExpr(st, x).value.perm);
      }
    case Return(exprs) => var stores := ReturnsInOrder(st, exprs, results);
    case _ =>
  }

  /** A conditional has its condition tested, and so readable, after the only exit of its initializer, and the exits of
      either branch, with the block ended. */
  lemma ConditionalExit(results: seq<Perm>, st: Store, stmt: Stmt, exit: Exit) returns (start: Exit, inner: Exit)
    requires stmt.If? && HasExit(results, st, stmt, exit)
    ensures HasExit(results, BeginBlock(st), stmt.init, start)
    ensures var v := VisitExpr(start.store, stmt.cond);
      && v.Ok? && MayRead(v.value.perm) && Release(v.value.st, OwnerToDeps(v.value)).Ok?
      && var tested := Release(v.value.st, OwnerToDeps(v.value)).value;
         HasExit(results, tested, stmt.thn, inner) || HasExit(results, tested, stmt.els, inner)
    ensures EndBlock(inner.store) == Ok(exit.store) && exit.branch == inner.branch
  {
    start, inner :|
      && HasExit(results, BeginBlock(st), stmt.init, start)
      && AfterTest(results, VisitAndRelease(start.store, stmt.cond, READ), stmt, inner)
      && Ends(inner, exit);
    RightsAsked(start.store, stmt.cond);
  }
}
