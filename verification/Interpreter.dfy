/** Abstract interpretation of expressions: evaluating borrows variables, and what is borrowed is released. */
module Interpreter {
  import opened BasePermission
  import opened Permission
  import opened Assignable
  import opened Convert
  import opened Stores

  /** A variable that has been borrowed, with the permission it had. */
  datatype Borrowed = Borrowed(name: string, perm: Perm)

  /** The variable that owns the result of an expression, if any. */
  datatype Owner = NoOwner | OwnedBy(b: Borrowed)

  /** Expressions. Absent is the missing bound of a slice expression; a selection gives the path of field
      positions that the type checker found. */
  datatype Expr =
    | Absent
    | Literal
    | Ident(name: string)
    | Paren(x: Expr)
    | Star(x: Expr)
    | AddressOf(x: Expr)
    | Receive(x: Expr)
    | Unary(x: Expr)
    | Binary(x: Expr, y: Expr)
    | Logical(x: Expr, y: Expr)
    | Index(x: Expr, index: Expr)
    | SliceOf(x: Expr, low: Expr, high: Expr, max: Expr)
    | Select(x: Expr, path: seq<nat>)
    | Call(fun: Expr, args: seq<Expr>)

  /** The permission of the result, its owner, other borrowed variables, and the store afterwards. */
  datatype Visit = Visit(perm: Perm, owner: Owner, deps: seq<Borrowed>, st: Store)

  datatype Transfer = Transfer(st: Store, owner: Owner, deps: seq<Borrowed>)

  function OwnerList(owner: Owner): seq<Borrowed> {
    if owner.OwnedBy? then [owner.b] else []
  }

  /** The variables a visit leaves borrowed, the owner last. */
  function OwnerToDeps(v: Visit): seq<Borrowed> {
    v.deps + OwnerList(v.owner)
  }

  /** Gives borrowed variables their permissions back, in order. Every error abandons the interpretation. */
  function Release(st: Store, undo: seq<Borrowed>): Outcome<Store>
    decreases |undo|
  {
    if undo == [] then Ok(st)
    else
      var next := SetEffective(st, undo[0].name, undo[0].perm);
      if next.Ok? then Release(next.value, undo[1..]) else Panic
  }

  /** The subject has at least the given rights; a wildcard has no base permission to ask. */
  predicate Has(subject: Perm, rights: Rights) {
    !subject.Wildcard? && Within(rights, BaseOf(subject))
  }

  /** The permission left in a borrowed variable: no rights at all. */
  function Dead(p: Perm): Perm
    requires Convertible(p, false)
  {
    ConvertToBase(p, NO_RIGHTS, false)
  }

  function VisitIdent(st: Store, name: string): Outcome<Visit> {
    if name == "nil" then Ok(Visit(Nil, NoOwner, [], st))
    else if name == "true" || name == "false" then Ok(Visit(Base(OWNED_MUTABLE), NoOwner, [], st))
    else
      var perm := GetEffective(st, name);
      if !perm.Ok? || !Convertible(perm.value, false) then Panic
      else
        var next := SetEffective(st, name, Dead(perm.value));
        if next.Ok? then Ok(Visit(perm.value, OwnedBy(Borrowed(name, perm.value)), [], next.value)) else Panic
  }

  /** The owner's permission without exclusive rights and writing, for a value that stops being linear. */
  function Frozen(p: Perm): Perm
    requires !p.Wildcard? && Convertible(p, false)
  {
    ConvertToBase(p, Minus(BaseOf(p), Rights(false, false, true, true, true)), false)
  }

  function ReleaseBoth(st: Store, owner: Owner, deps: seq<Borrowed>): Outcome<Transfer> {
    var next := Release(st, OwnerList(owner) + deps);
    if next.Ok? then Ok(Transfer(next.value, NoOwner, [])) else Panic
  }

  /** Binding a value of permission `from` to a place of permission `to`: it is copied, borrowed by an unowned
      place, frozen, or moved for good. */
  ghost function MoveOrCopy(st: Store, from: Perm, to: Perm, owner: Owner, deps: seq<Borrowed>): Outcome<Transfer> {
    if AssignableTo(from, to, Copy) then ReleaseBoth(st, owner, deps)
    else if !AssignableTo(from, to, Move) then Error
    else if !BaseOf(to).o then Ok(Transfer(st, owner, deps))
    else if Linear(BaseOf(from)) && !Linear(BaseOf(to)) then
      if owner.NoOwner? then ReleaseBoth(st, owner, deps)
      else if owner.b.perm.Wildcard? || !Convertible(owner.b.perm, false) then Panic
      else ReleaseBoth(st, OwnedBy(owner.b.(perm := Frozen(owner.b.perm))), deps)
    else Ok(Transfer(st, NoOwner, []))
  }

  /** Field selection through the path; a pointer is followed to the struct it points to. */
  function SelectPath(p: Perm, path: seq<nat>): Outcome<Perm>
    decreases |path|
  {
    if path == [] then Ok(p)
    else
      var target := if p.Node? && p.kind.Pointer? && p.parts != [] then p.parts[0] else p;
      if target.Node? && target.kind.Struct? && path[0] < |target.parts| then SelectPath(target.parts[path[0]], path[1..]) else Panic
  }

  /** `VisitExpr` followed by releasing whatever the visit left borrowed. */
  function Released(v: Outcome<Visit>): Outcome<Store> {
    if v.Ok? then Release(v.value.st, OwnerToDeps(v.value)) else Panic
  }

  function Params(f: Perm): seq<Perm>
    requires f.Node? && f.kind.Func?
  {
    if f.kind.receivers + f.kind.params <= |f.parts| then f.parts[f.kind.receivers..f.kind.receivers + f.kind.params] else []
  }

  function CallResult(f: Perm): Perm
    requires f.Node? && f.kind.Func?
  {
    var n := f.kind.receivers + f.kind.params;
    var results := if n <= |f.parts| then f.parts[n..] else [];
    if |results| == 1 then results[0] else Node(Tuple, OWNED_MUTABLE, results)
  }

  ghost function VisitExpr(st: Store, e: Expr): Outcome<Visit>
    decreases e, 1
  {
    match e
    case Absent => Ok(Visit(Base(NO_RIGHTS), NoOwner, [], st))
    case Literal => Ok(Visit(Base(OWNED_MUTABLE), NoOwner, [], st))
    case Ident(name) => VisitIdent(st, name)
    case Paren(x) => VisitExpr(st, x)
    case Star(x) =>
      var v := VisitExpr(st, x);
      if !v.Ok? || !Has(v.value.perm, READ) then Panic
      else if v.value.perm.Node? && v.value.perm.kind.Pointer? && v.value.perm.parts != [] then
        Ok(v.value.(perm := v.value.perm.parts[0]))
      else Panic
    case AddressOf(x) =>
      var v := VisitExpr(st, x);
      if !v.Ok? || !Has(v.value.perm, READ) then Panic
      else Ok(v.value.(perm := Node(Pointer, OWNED_MUTABLE, [v.value.perm])))
    case Receive(x) =>
      var v := VisitExpr(st, x);
      if !v.Ok? || !Has(v.value.perm, READ) || !v.value.perm.Node? || !v.value.perm.kind.Chan? || v.value.perm.parts == [] then Panic
      else
        var next := Release(v.value.st, OwnerList(v.value.owner) + v.value.deps);
        if next.Ok? then Ok(Visit(v.value.perm.parts[0], NoOwner, [], next.value)) else Panic
    case Unary(x) =>
      var v := VisitExpr(st, x);
      if !v.Ok? || !Has(v.value.perm, READ) then Panic
      else
        var next := Release(v.value.st, OwnerList(v.value.owner) + v.value.deps);
        if next.Ok? then Ok(Visit(Base(OWNED_MUTABLE), NoOwner, [], next.value)) else Panic
    case Binary(x, y) =>
      var left := VisitExpr(st, x);
      var afterLeft := Released(left);
      if !afterLeft.Ok? || !Has(left.value.perm, READ) then Panic
      else
        var right := VisitExpr(afterLeft.value, y);
        var afterRight := Released(right);
        if !afterRight.Ok? || !Has(right.value.perm, READ) then Panic
        else Ok(Visit(Base(OWNED_MUTABLE), NoOwner, [], afterRight.value))
    case Logical(x, y) =>
      var left := VisitExpr(st, x);
      var afterLeft := Released(left);
      if !afterLeft.Ok? || !Has(left.value.perm, READ) then Panic
      else
        var right := VisitExpr(afterLeft.value, y);
        var afterRight := Released(right);
        if !afterRight.Ok? || !Has(right.value.perm, READ) then Panic
        else
          var merged := MergeStores(afterLeft.value, afterRight.value);
          if merged.Ok? then Ok(Visit(Base(OWNED_MUTABLE), NoOwner, [], merged.value)) else Panic
    case Index(x, index) =>
      var v := VisitExpr(st, x);
      if !v.Ok? then Panic
      else
        var i := VisitExpr(v.value.st, index);
        if !i.Ok? || !Has(v.value.perm, READ) || !Has(i.value.perm, READ) then Panic
        else VisitIndex(v.value, i.value)
    case SliceOf(_, _, _, _) => VisitSliceOf(st, e)
    case Select(x, path) =>
      var v := VisitExpr(st, x);
      if !v.Ok? then Panic
      else
        var p := SelectPath(v.value.perm, path);
        if p.Ok? then Ok(v.value.(perm := p.value)) else Panic
    case Call(fun, args) =>
      var f := VisitExpr(st, fun);
      if !f.Ok? || !f.value.perm.Node? || !f.value.perm.kind.Func? then Panic
      else
        var a := VisitArgs(f.value.st, args, Params(f.value.perm));
        if !a.Ok? then Panic
        else
          var next := Release(a.value.st, a.value.deps + f.value.deps + OwnerList(f.value.owner));
          if next.Ok? then Ok(Visit(CallResult(f.value.perm), NoOwner, [], next.value)) else Panic
  }

  predicate BoundReadable(bound: Expr, v: Visit) {
    bound.Absent? || Has(v.perm, READ)
  }

  /** Indexing: an array or slice has no use for its index afterwards; a map may take its key over. */
  ghost function VisitIndex(v: Visit, i: Visit): Outcome<Visit> {
    if !v.perm.Node? then Panic
    else if (v.perm.kind.Array? || v.perm.kind.Slice?) && v.perm.parts != [] then
      var next := Release(i.st, OwnerList(i.owner) + i.deps);
      if next.Ok? then Ok(Visit(v.perm.parts[0], v.owner, v.deps, next.value)) else Panic
    else if v.perm.kind.Map? && |v.perm.parts| == 2 then
      var t := MoveOrCopy(i.st, i.perm, v.perm.parts[0], i.owner, i.deps);
      if t.Ok? then Ok(Visit(v.perm.parts[1], v.owner, v.deps, t.value.st)) else Panic
    else Panic
  }

  /** The sliced expression and the bounds, visited from left to right. */
  ghost function VisitSliceOf(st: Store, e: Expr): Outcome<Visit>
    requires e.SliceOf?
    decreases e, 0
  {
    var v := VisitExpr(st, e.x);
    var l := if v.Ok? then VisitExpr(v.value.st, e.low) else Panic;
    var h := if l.Ok? then VisitExpr(l.value.st, e.high) else Panic;
    var m := if h.Ok? then VisitExpr(h.value.st, e.max) else Panic;
    if m.Ok? then VisitSlice(e, v.value, l.value, h.value, m.value) else Panic
  }

  /** Slicing, after the visits of the sliced expression and the bounds: the bounds are released. */
  function VisitSlice(e: Expr, v: Visit, l: Visit, h: Visit, m: Visit): Outcome<Visit>
    requires e.SliceOf?
  {
    if !BoundReadable(e.low, l) || !BoundReadable(e.high, h) || !BoundReadable(e.max, m) then Panic
    else
      var next := Release(m.st, OwnerToDeps(m) + OwnerToDeps(h) + OwnerToDeps(l));
      if next.Ok? then SliceResult(v, next.value) else Panic
  }

  function SliceResult(v: Visit, st: Store): Outcome<Visit> {
    if v.perm.Node? && v.perm.kind.Array? then Ok(v.(perm := Node(Slice, OWNED_MUTABLE, v.perm.parts), st := st))
    else if v.perm.Node? && v.perm.kind.Slice? then Ok(v.(st := st))
    else Panic
  }

  /** The arguments of a call, bound to the parameters from left to right; what stays borrowed accumulates. */
  ghost function VisitArgs(st: Store, args: seq<Expr>, params: seq<Perm>): Outcome<Transfer>
    decreases args, 1
  {
    if args == [] then Ok(Transfer(st, NoOwner, []))
    else if params == [] then Panic
    else
      var v := VisitExpr(st, args[0]);
      if !v.Ok? then Panic
      else
        var t := MoveOrCopy(v.value.st, v.value.perm, params[0], v.value.owner, v.value.deps);
        if !t.Ok? then Panic
        else
          var rest := VisitArgs(t.value.st, args[1..], params[1..]);
          if rest.Ok? then Ok(Transfer(rest.value.st, NoOwner, OwnerList(t.value.owner) + t.value.deps + rest.value.deps)) else Panic
  }
}
