/** What the value of each expression is, what it asks for, and who owns it. */
module Results {
  import opened BasePermission
  import opened Permission
  import opened Assignable
  import opened Stores
  import opened Interpreter
  import opened Borrowing
  import opened Evaluation
  import opened Places
  import Calls

  /** The value may be read; a wildcard may not. */
  predicate MayRead(p: Perm) {
    match p
    case Base(b) => b.r
    case Node(_, b, _) => b.r
    case Nil => true
    case Wildcard => false
  }

  lemma ReadIsHas(p: Perm)
    ensures Has(p, READ) <==> MayRead(p)
  {
  }

  // ----- constants and variables

  /** Literals and the two truth values are new owned values, nil is nil; none of them is owned or changes anything. A
      variable gives its effective permission and is owned by itself. */
  lemma ConstantResults(st: Store)
    ensures VisitExpr(st, Literal) == Ok(Visit(Base(Rights(true, true, true, true, true)), NoOwner, [], st))
    ensures VisitExpr(st, Ident("true")) == VisitExpr(st, Ident("false")) == VisitExpr(st, Literal)
    ensures VisitExpr(st, Ident("nil")) == Ok(Visit(Nil, NoOwner, [], st))
    ensures forall name :: name !in ["nil", "true", "false"] && VisitExpr(st, Ident(name)).Ok? ==>
      && GetEffective(st, name) == Ok(VisitExpr(st, Ident(name)).value.perm)
      && VisitExpr(st, Ident(name)).value.owner == OwnedBy(Borrowed(name, VisitExpr(st, Ident(name)).value.perm))
  {
    hide SetEffective, GetEffective, Release;
  }

  // ----- parts of values

  /** Field `i` of a struct, or of the struct a pointer points to, and of nothing else. */
  lemma SelectField(st: Store, x: Expr, i: nat)
    ensures var v, s := VisitExpr(st, x), VisitExpr(st, Select(x, [i]));
      if !v.Ok? then s == Panic
      else
        var p := v.value.perm;
        if p.Node? && p.kind.Struct? && i < |p.parts| then s == Ok(Visit(p.parts[i], v.value.owner, v.value.deps, v.value.st))
        else if p.Node? && p.kind.Pointer? && p.parts != [] && p.parts[0].Node? && p.parts[0].kind.Struct? && i < |p.parts[0].parts| then
          s == Ok(Visit(p.parts[0].parts[i], v.value.owner, v.value.deps, v.value.st))
        else s == Panic
  {
    hide Release, SliceResult, VisitIndex, VisitArgs, VisitIdent, MoveOrCopy;
    SelectOne(VisitExpr(st, x), i);
  }

  lemma SelectOne(v: Outcome<Visit>, i: nat)
    ensures v.Ok? ==>
      var p := v.value.perm;
      SelectPath(p, [i]) ==
        if p.Node? && p.kind.Struct? && i < |p.parts| then Ok(p.parts[i])
        else if p.Node? && p.kind.Pointer? && p.parts != [] && p.parts[0].Node? && p.parts[0].kind.Struct? && i < |p.parts[0].parts| then
          Ok(p.parts[0].parts[i])
        else Panic
  {
    assert [i][1..] == [];
    assert forall q :: SelectPath(q, []) == Ok(q);
  }

  /** Dereferencing asks for a readable pointer and gives its target. */
  lemma StarTarget(st: Store, x: Expr)
    ensures var v, s := VisitExpr(st, x), VisitExpr(st, Star(x));
      if v.Ok? && v.value.perm.Node? && v.value.perm.kind.Pointer? && v.value.perm.parts != [] && v.value.perm.base.r then
        s == Ok(Visit(v.value.perm.parts[0], v.value.owner, v.value.deps, v.value.st))
      else s == Panic
  {
    hide Release, SliceResult, VisitIndex, VisitArgs, VisitIdent, MoveOrCopy, SelectPath;
  }

  /** An address is an owned mutable pointer to what may be read; it is owned by the owner of its target. */
  lemma AddressTarget(st: Store, x: Expr)
    ensures var v, s := VisitExpr(st, x), VisitExpr(st, AddressOf(x));
      if v.Ok? && MayRead(v.value.perm) then
        s == Ok(Visit(Node(Pointer, Rights(true, true, true, true, true), [v.value.perm]), v.value.owner, v.value.deps, v.value.st))
      else s == Panic
  {
    hide Release, SliceResult, VisitIndex, VisitArgs, VisitIdent, MoveOrCopy, SelectPath;
    if VisitExpr(st, x).Ok? {
      ReadIsHas(VisitExpr(st, x).value.perm);
    }
  }

  /** Indexing asks for a readable container and index, and gives the element of an array or slice and the value of a
      map, owned by the owner of the container. */
  lemma ElementOrValue(st: Store, x: Expr, index: Expr)
    requires VisitExpr(st, Index(x, index)).Ok?
    ensures var v, s := VisitExpr(st, x), VisitExpr(st, Index(x, index)).value;
      && v.Ok? && MayRead(v.value.perm) && v.value.perm.Node? && s.owner == v.value.owner && s.deps == v.value.deps
      && (match v.value.perm.kind
          case Array | Slice => v.value.perm.parts != [] && s.perm == v.value.perm.parts[0]
          case Map => |v.value.perm.parts| == 2 && s.perm == v.value.perm.parts[1]
          case _ => false)
      && var i := VisitExpr(v.value.st, index);
         && i.Ok? && MayRead(i.value.perm)
         && (v.value.perm.kind.Map? ==>
               AssignableTo(i.value.perm, v.value.perm.parts[0], Copy) || AssignableTo(i.value.perm, v.value.perm.parts[0], Move))
  {
    hide Release, SliceResult, VisitArgs, VisitIdent, SelectPath, AssignableTo;
    var v := VisitExpr(st, x);
    assert v.Ok?;
    var i := VisitExpr(v.value.st, index);
    assert i.Ok?;
    ReadIsHas(v.value.perm);
    ReadIsHas(i.value.perm);
  }

  /** A channel gives its elements, owned by nobody. */
  lemma ReceivedElement(st: Store, x: Expr)
    requires VisitExpr(st, Receive(x)).Ok?
    ensures var v, s := VisitExpr(st, x), VisitExpr(st, Receive(x)).value;
      && v.Ok? && v.value.perm.Node? && v.value.perm.kind.Chan? && v.value.perm.base.r && v.value.perm.parts != []
      && s.perm == v.value.perm.parts[0] && s.owner.NoOwner? && s.deps == []
  {
    hide Release, SliceResult, VisitIndex, VisitArgs, VisitIdent, MoveOrCopy, SelectPath;
  }

  /** Operators ask for readable operands, from left to right and each released before the next, and give a new owned
      value; the store after a short-circuit operator is the merge of those with and without its right operand. */
  lemma OperatorResults(st: Store, x: Expr, y: Expr, lazy: bool)
    requires VisitExpr(st, if lazy then Logical(x, y) else Binary(x, y)).Ok?
    ensures var s, v := VisitExpr(st, if lazy then Logical(x, y) else Binary(x, y)).value, VisitExpr(st, x);
      && s.perm == Base(Rights(true, true, true, true, true)) && s.owner.NoOwner? && s.deps == []
      && v.Ok? && MayRead(v.value.perm) && Release(v.value.st, OwnerToDeps(v.value)).Ok?
      && var left := Release(v.value.st, OwnerToDeps(v.value)).value;
         var w := VisitExpr(left, y);
         && w.Ok? && MayRead(w.value.perm) && Release(w.value.st, OwnerToDeps(w.value)).Ok?
         && var right := Release(w.value.st, OwnerToDeps(w.value)).value;
            if lazy then MergeStores(left, right) == Ok(s.st) else s.st == right
  {
    hide Release, SliceResult, VisitIndex, VisitArgs, VisitIdent, MoveOrCopy, SelectPath, MergeStores, OwnerToDeps;
    var v := VisitExpr(st, x);
    assert v.Ok? && Released(v).Ok?;
    var w := VisitExpr(Released(v).value, y);
    assert w.Ok?;
    ReadIsHas(v.value.perm);
    ReadIsHas(w.value.perm);
  }

  /** A slice of an array is an owned mutable slice of its elements, a slice of a slice is the slice. */
  lemma SliceOfSliceable(st: Store, x: Expr, low: Expr, high: Expr, max: Expr)
    requires VisitExpr(st, SliceOf(x, low, high, max)).Ok?
    ensures var v, s := VisitExpr(st, x), VisitExpr(st, SliceOf(x, low, high, max)).value;
      && v.Ok? && v.value.perm.Node? && s.owner == v.value.owner && s.deps == v.value.deps
      && (match v.value.perm.kind
          case Array => s.perm == Node(Slice, Rights(true, true, true, true, true), v.value.perm.parts)
          case Slice => s.perm == v.value.perm
          case _ => false)
  {
    SliceVisits(st, x, low, high, max);
    hide VisitExpr, Release;
  }

  // ----- calls

  /** The parameters and results are the parts between and after receivers and parameters; a function of one result
      gives it, any other a tuple of them. */
  lemma CallSignature(st: Store, fun: Expr, args: seq<Expr>)
    requires VisitExpr(st, Call(fun, args)).Ok?
    ensures var f, c := VisitExpr(st, fun), VisitExpr(st, Call(fun, args)).value;
      && f.Ok? && f.value.perm.Node? && f.value.perm.kind.Func?
      && var p := f.value.perm;
         var inputs := p.kind.receivers + p.kind.params;
         inputs <= |p.parts| ==>
           && Params(p) == p.parts[p.kind.receivers..inputs]
           && c.perm == if |p.parts| == inputs + 1 then p.parts[inputs] else Node(Tuple, Rights(true, true, true, true, true), p.parts[inputs..])
  {
    CallPerm(st, fun, args);
    hide VisitExpr;
  }

  lemma CallPerm(st: Store, fun: Expr, args: seq<Expr>)
    requires VisitExpr(st, Call(fun, args)).Ok?
    ensures var f := VisitExpr(st, fun);
      f.Ok? && f.value.perm.Node? && f.value.perm.kind.Func? && VisitExpr(st, Call(fun, args)).value.perm == CallResult(f.value.perm)
  {
    hide Release, SliceResult, VisitIndex, VisitArgs, VisitIdent, MoveOrCopy, SelectPath, CallResult, Params;
    assert VisitExpr(st, fun).Ok?;
  }

  /** More arguments than parameters are refused, and each argument, in the store that the one before leaves, can be
      copied or moved to its parameter. */
  lemma {:induction false} ArgsFitParams(st: Store, args: seq<Expr>, params: seq<Perm>) returns (stores: seq<Store>)
    requires VisitArgs(st, args, params).Ok?
    ensures |args| <= |params| && |stores| == |args| + 1 && stores[0] == st && stores[|args|] == VisitArgs(st, args, params).value.st
    ensures forall k :: 0 <= k < |args| ==> ArgFits(stores[k], args[k], params[k], stores[k + 1])
    decreases |args|
  {
    if args == [] {
      stores := [st];
    } else {
      Calls.ArgsUnfold(st, args, params);
      hide VisitExpr, VisitArgs, MoveOrCopy, AssignableTo;
      var v := VisitExpr(st, args[0]).value;
      var t := MoveOrCopy(v.st, v.perm, params[0], v.owner, v.deps);
      TransferAllowed(v.st, v.perm, params[0], v.owner, v.deps);
      var rest := ArgsFitParams(t.value.st, args[1..], params[1..]);
      stores := [st] + rest;
      assert ArgFits(st, args[0], params[0], t.value.st);
      forall k | 0 < k < |args|
        ensures ArgFits(stores[k], args[k], params[k], stores[k + 1])
      {
        assert ArgFits(rest[k - 1], args[1..][k - 1], params[1..][k - 1], rest[k]);
      }
    }
  }

  /** The argument is visited in `st` and bound to the parameter, which leaves `next`. */
  ghost predicate ArgFits(st: Store, arg: Expr, param: Perm, next: Store) {
    var v := VisitExpr(st, arg);
    && v.Ok? && (AssignableTo(v.value.perm, param, Copy) || AssignableTo(v.value.perm, param, Move))
    && var t := MoveOrCopy(v.value.st, v.value.perm, param, v.value.owner, v.value.deps); t.Ok? && t.value.st == next
  }

  /** A value that can be neither copied nor moved is refused, and only that is. */
  lemma TransferAllowed(st: Store, from: Perm, to: Perm, owner: Owner, deps: seq<Borrowed>)
    ensures MoveOrCopy(st, from, to, owner, deps) == Error <==> !AssignableTo(from, to, Copy) && !AssignableTo(from, to, Move)
  {
  }

  // ----- places

  /** Following the path of fields from `p`, through pointers to structs, gives `q`. */
  ghost predicate FieldAlong(p: Perm, path: seq<nat>, q: Perm)
    decreases |path|
  {
    if path == [] then q == p
    else
      exists s: Perm ::
        && (s == p || (p.Node? && p.kind.Pointer? && p.parts != [] && s == p.parts[0]))
        && s.Node? && s.kind.Struct? && path[0] < |s.parts| && FieldAlong(s.parts[path[0]], path[1..], q)
  }

  /** Starting with the permission `root` of its variable, the place spells `q`: the target for a star, the element of
      an array or slice, the value of a map, the field selected. */
  ghost predicate Spells(e: Expr, root: Perm, q: Perm)
    requires IsPlace(e)
  {
    match e
    case Ident(_) => q == root
    case Paren(x) => Spells(x, root, q)
    case Star(x) => exists p :: Spells(x, root, p) && p.Node? && p.kind.Pointer? && p.parts != [] && q == p.parts[0]
    case Index(x, _) =>
      exists p :: Spells(x, root, p) && p.Node? &&
        (((p.kind.Array? || p.kind.Slice?) && p.parts != [] && q == p.parts[0]) || (p.kind.Map? && |p.parts| == 2 && q == p.parts[1]))
    case Select(x, path) => exists p :: Spells(x, root, p) && FieldAlong(p, path, q)
  }

  lemma {:induction false} SelectedAlong(p: Perm, path: seq<nat>)
    requires SelectPath(p, path).Ok?
    ensures FieldAlong(p, path, SelectPath(p, path).value)
    decreases |path|
  {
    if path != [] {
      var target := if p.Node? && p.kind.Pointer? && p.parts != [] then p.parts[0] else p;
      SelectedAlong(target.parts[path[0]], path[1..]);
    }
  }

  /** Evaluating a place borrows the variable at its root and no other, and gives the part of that variable's
      permission that the expression spells. */
  lemma {:induction false} PlaceSpells(st: Store, e: Expr)
    requires IsPlace(e) && VisitExpr(st, e).Ok?
    ensures var v := VisitExpr(st, e).value;
      OwnedPart(st, Root(e), v) && Spells(e, Eff(st, Root(e)), v.perm)
  {
    PlaceIsPart(st, e);
    match e
    case Ident(name) =>
    case Paren(x) => PlaceSpells(st, x);
    case Star(x) => PlaceSpells(st, x); StarTarget(st, x);
    case Select(x, path) =>
      PlaceSpells(st, x);
      SelectedAlong(VisitExpr(st, x).value.perm, path);
    case Index(x, index) =>
      ElementOrValue(st, x, index);
      PlaceSpells(st, x);
  }
}
