/** Abstract interpretation of statements: the exits a statement can have from a store. */
module Statements {
  import opened BasePermission
  import opened Permission
  import opened Assignable
  import opened Stores
  import opened Interpreter
  import W = Worklist

  type Exit = W.StmtExit<Store>

  datatype Stmt =
    | Empty
    | ExprStmt(x: Expr)
    | IncDec(x: Expr)
    | Send(channel: Expr, sent: Expr)
    | Assign(lhs: seq<Expr>, rhs: seq<Expr>, define: bool)
    | Return(results: seq<Expr>)
    | BranchTo(branch: W.Branch)
    | Labeled(label_: string, stmt: Stmt)
    | Block(list: seq<Stmt>)
    | If(init: Stmt, cond: Expr, thn: Stmt, els: Stmt)
    | Range(key: Expr, val: Expr, define: bool, x: Expr, body: Stmt)

  // ----- assignments

  /** Binds `rhs` to one left-hand side: a variable is defined or assigned, and in any case the place must be
      able to take the value. `allowUnowned` admits unowned places. */
  ghost function DefineOrAssign(st: Store, lhs: Expr, rhs: Perm, define: bool, allowUnowned: bool): Outcome<Store> {
    if lhs == Ident("_") then Ok(st)
    else if !lhs.Ident? && define then Panic
    else
      var bound :=
        if !lhs.Ident? then Ok(st)
        else if define then Define(st, lhs.name, rhs)
        else
          var max := GetMaximum(st, lhs.name);
          if !max.Ok? then Panic
          else if AssignableTo(rhs, max.value, Copy) then SetEffective(st, lhs.name, max.value)
          else SetEffective(st, lhs.name, rhs);
      if !bound.Ok? then Panic
      else
        var place := VisitExpr(bound.value, lhs);
        if !place.Ok? || (!allowUnowned && !Has(place.value.perm, OWNED)) then Panic
        else
          var t := MoveOrCopy(bound.value, rhs, place.value.perm, NoOwner, []);
          if t.Ok? then Ok(t.value.st) else Panic
  }

  /** The right-hand sides, each copied or moved into a temporary: their permissions, what they leave borrowed,
      and the store. */
  ghost function VisitRhs(st: Store, rhs: seq<Expr>): Outcome<(seq<Perm>, seq<Borrowed>, Store)>
    decreases |rhs|
  {
    if rhs == [] then Ok(([], [], st))
    else
      var v := VisitExpr(st, rhs[0]);
      if !v.Ok? then Panic
      else
        var t := MoveOrCopy(v.value.st, v.value.perm, v.value.perm, v.value.owner, v.value.deps);
        if !t.Ok? then Panic
        else
          var rest := VisitRhs(t.value.st, rhs[1..]);
          if !rest.Ok? then Panic
          else Ok(([v.value.perm] + rest.value.0, OwnerList(t.value.owner) + t.value.deps + rest.value.1, rest.value.2))
  }

  ghost function BindAll(st: Store, lhs: seq<Expr>, perms: seq<Perm>, define: bool): Outcome<Store>
    requires |lhs| == |perms|
    decreases |lhs|
  {
    if lhs == [] then Ok(st)
    else
      var next := DefineOrAssign(st, lhs[0], perms[0], define, false);
      if next.Ok? then BindAll(next.value, lhs[1..], perms[1..], define) else Panic
  }

  /** `lhs = rhs` and `lhs := rhs`; one right-hand side may be a tuple for several left-hand sides. */
  ghost function AssignMany(st: Store, lhs: seq<Expr>, rhs: seq<Expr>, define: bool): Outcome<Store> {
    if |rhs| == 1 && |lhs| > 1 then
      var v := VisitExpr(st, rhs[0]);
      if !v.Ok? || !v.value.perm.Node? || !v.value.perm.kind.Tuple? || |v.value.perm.parts| != |lhs| then Panic
      else
        var bound := BindAll(v.value.st, lhs, v.value.perm.parts, define);
        if bound.Ok? then Release(bound.value, OwnerToDeps(v.value)) else Panic
    else
      var r := VisitRhs(st, rhs);
      if !r.Ok? || |r.value.0| != |lhs| then Panic
      else
        var bound := BindAll(r.value.2, lhs, r.value.0, define);
        if bound.Ok? then Release(bound.value, r.value.1) else Panic
  }

  /** The results of a return statement, bound to the results of the function. */
  ghost function BindResults(st: Store, results: seq<Expr>, declared: seq<Perm>): Outcome<Store>
    decreases |results|
  {
    if |results| != |declared| then Panic
    else if results == [] then Ok(st)
    else
      var v := VisitExpr(st, results[0]);
      if !v.Ok? then Panic
      else
        var t := MoveOrCopy(v.value.st, v.value.perm, declared[0], v.value.owner, v.value.deps);
        if t.Ok? then BindResults(t.value.st, results[1..], declared[1..]) else Panic
  }

  ghost function VisitSend(st: Store, channel: Expr, sent: Expr): Outcome<Store> {
    var c := VisitExpr(st, channel);
    if !c.Ok? || !c.value.perm.Node? || !c.value.perm.kind.Chan? || c.value.perm.parts == [] || !c.value.perm.base.w then Panic
    else
      var v := VisitExpr(c.value.st, sent);
      if !v.Ok? then Panic
      else
        var t := MoveOrCopy(v.value.st, v.value.perm, c.value.perm.parts[0], v.value.owner, v.value.deps);
        if t.Ok? then Release(t.value.st, OwnerList(t.value.owner) + t.value.deps + OwnerToDeps(c.value)) else Panic
  }

  /** A visit whose borrowed variables are released at once, with the rights the statement asks for. */
  ghost function VisitAndRelease(st: Store, e: Expr, rights: Rights): Outcome<Store> {
    var v := VisitExpr(st, e);
    if !v.Ok? || (rights != NO_RIGHTS && !Has(v.value.perm, rights)) then Panic else Released(v)
  }

  // ----- ranges

  /** The permissions of the keys and values of a container. */
  function RangePerms(p: Perm): (Outcome<Perm>, Outcome<Perm>) {
    if p.Node? && (p.kind.Array? || p.kind.Slice?) && p.parts != [] then (Ok(Base(MUTABLE)), Ok(p.parts[0]))
    else if p.Node? && p.kind.Map? && |p.parts| == 2 then (Ok(p.parts[0]), Ok(p.parts[1]))
    else (Panic, Panic)
  }

  /** One loop variable at the start of an iteration; Absent if the statement has none. A container without keys or
      values is no obstacle to ignoring them. */
  ghost function BindLoopVar(st: Store, v: Expr, perm: Outcome<Perm>, define: bool): Outcome<Store> {
    if v.Absent? || v == Ident("_") then Ok(st)
    else if !perm.Ok? then Panic
    else DefineOrAssign(st, v, perm.value, define, define)
  }

  /** The store in which the body of an iteration starts. */
  ghost function IterationStart(st: Store, key: Expr, val: Expr, define: bool, container: Perm): Outcome<Store> {
    var bound := BindLoopVar(BeginBlock(st), key, RangePerms(container).0, define);
    if bound.Ok? then BindLoopVar(bound.value, val, RangePerms(container).1, define) else Panic
  }

  /** The loop variable does not own what it is bound to, so that the container can be released. */
  predicate Unowned(st: Store, v: Expr) {
    || v.Absent?
    || (v.Ident? && (v.name == "_" || (GetEffective(st, v.name).Ok? && !GetEffective(st, v.name).value.Wildcard?
                                       && !BaseOf(GetEffective(st, v.name).value).o)))
  }

  /** The exits of an iteration that start another one. */
  predicate Iterates(b: W.Branch) {
    b == W.Normal || b == W.Continue("")
  }

  /** The branch an exit of the body has as an exit of the loop. */
  function LoopBranch(b: W.Branch): W.Branch {
    if Iterates(b) || b == W.Break("") then W.Normal else b
  }

  // ----- statements

  function LabelsOf(list: seq<Stmt>): (labels: map<string, nat>)
    ensures forall name <- labels :: labels[name] < |list|
  {
    if list == [] then map[]
    else
      var n := |list| - 1;
      if list[n].Labeled? then LabelsOf(list[..n])[list[n].label_ := n] else LabelsOf(list[..n])
  }

  function BlockOf(list: seq<Stmt>): W.Block {
    W.Block(|list|, LabelsOf(list), false)
  }

  /** `exit` is an exit of the statement visited in the store `st`, in a function with the given results. A
      visit that panics has none. */
  ghost predicate HasExit(results: seq<Perm>, st: Store, stmt: Stmt, exit: Exit)
    decreases stmt, 4
  {
    match stmt
    case Empty => exit == W.StmtExit(st, W.Normal)
    case ExprStmt(x) => IsNormal(VisitAndRelease(st, x, NO_RIGHTS), exit)
    case IncDec(x) => IsNormal(VisitAndRelease(st, x, Rights(false, true, true, false, false)), exit)
    case Send(channel, sent) => IsNormal(VisitSend(st, channel, sent), exit)
    case Assign(lhs, rhs, define) => IsNormal(AssignMany(st, lhs, rhs, define), exit)
    case Return(exprs) => BindResults(st, exprs, results) == Ok(exit.store) && exit.branch == W.Return
    case BranchTo(branch) => exit == W.StmtExit(st, branch)
    case Labeled(_, inner) => HasExit(results, st, inner, exit)
    case Block(list) => exists inner: Exit :: ListExits(results, BeginBlock(st), list, inner) && Ends(inner, exit)
    case If(init, cond, _, _) =>
      exists start: Exit, inner: Exit ::
        && HasExit(results, BeginBlock(st), init, start)
        && (forall other: Exit :: HasExit(results, BeginBlock(st), init, other) ==> other == start)
        && AfterTest(results, VisitAndRelease(start.store, cond, READ), stmt, inner)
        && Ends(inner, exit)
    case Range(_, _, _, x, _) =>
      var v := VisitExpr(st, x);
      && v.Ok? && Has(v.value.perm, READ)
      && exists raw: Exit ::
           && (raw == W.StmtExit(st, W.Normal) || LoopExits(results, stmt, v.value, raw))
           && IsReleased(raw, RangeReleases(results, stmt, v.value), OwnerToDeps(v.value), exit)
  }

  predicate IsNormal(next: Outcome<Store>, exit: Exit) {
    next == Ok(exit.store) && exit.branch == W.Normal
  }

  /** `outer` is the exit `inner` of a block, seen from outside. */
  predicate Ends(inner: Exit, outer: Exit) {
    EndBlock(inner.store) == Ok(outer.store) && outer.branch == inner.branch
  }

  /** `exit` is `raw`, with the container of a range released if it may be. */
  predicate IsReleased(raw: Exit, release: bool, undo: seq<Borrowed>, exit: Exit) {
    exit.branch == raw.branch && if release then Release(raw.store, undo) == Ok(exit.store) else exit.store == raw.store
  }

  /** Either branch of a conditional, from the store after its condition. The original panics when a branch has
      no exit at all. */
  ghost predicate AfterTest(results: seq<Perm>, tested: Outcome<Store>, stmt: Stmt, exit: Exit)
    requires stmt.If?
    decreases stmt, 0
  {
    && tested.Ok?
    && (exists e: Exit :: HasExit(results, tested.value, stmt.thn, e))
    && (exists e: Exit :: HasExit(results, tested.value, stmt.els, e))
    && (HasExit(results, tested.value, stmt.thn, exit) || HasExit(results, tested.value, stmt.els, exit))
  }

  // ----- statement lists

  /** An exit of the statement at `v` leads to `w`. */
  ghost predicate ListStep(results: seq<Perm>, list: seq<Stmt>, v: W.Work<Store>, w: W.Work<Store>)
    decreases list, 0
  {
    v.at < |list| && exists e: Exit :: HasExit(results, v.store, list[v.at], e) && W.RouteOf(BlockOf(list), v.at, e) == W.Go(w)
  }

  /** An execution of the list that gets from its first statement, in the store `init`, to `last`. */
  ghost predicate IsListPath(results: seq<Perm>, init: Store, list: seq<Stmt>, path: seq<W.Work<Store>>, last: W.Work<Store>)
    decreases list, 1
  {
    && path != [] && path[0] == W.Work(init, 0) && path[|path| - 1] == last && last.at < |list|
    && forall k :: 0 < k < |path| ==> ListStep(results, list, path[k-1], path[k])
  }

  /** The exits of a statement list: those by which a work that some execution gets to leaves the list. */
  ghost predicate ListExits(results: seq<Perm>, init: Store, list: seq<Stmt>, exit: Exit)
    decreases list, 2
  {
    if list == [] then exit == W.StmtExit(init, W.Normal)
    else
      exists path: seq<W.Work<Store>>, w: W.Work<Store>, e: Exit ::
        && IsListPath(results, init, list, path, w)
        && HasExit(results, w.store, list[w.at], e)
        && W.RouteOf(BlockOf(list), w.at, e) == W.Leave(exit)
  }

  // ----- loops

  /** An exit of the loop body started in the store `st`, with the iteration's frame ended. */
  ghost predicate BodyExit(results: seq<Perm>, stmt: Stmt, container: Visit, st: Store, exit: Exit)
    requires stmt.Range?
    decreases stmt, 0
  {
    var start := IterationStart(st, stmt.key, stmt.val, stmt.define, container.perm);
    start.Ok? && exists inner: Exit :: HasExit(results, start.value, stmt.body, inner) && Ends(inner, exit)
  }

  /** The iteration that starts in `st` can be followed by one that starts in `next`. */
  ghost predicate Repeats(results: seq<Perm>, stmt: Stmt, container: Visit, st: Store, next: Store)
    requires stmt.Range?
    decreases stmt, 1
  {
    exists b: W.Branch :: BodyExit(results, stmt, container, st, W.StmtExit(next, b)) && Iterates(b)
  }

  /** An iteration can start in the store `last`, after the iterations that started in the stores before it. */
  ghost predicate IsIteration(results: seq<Perm>, stmt: Stmt, container: Visit, path: seq<Store>, last: Store)
    requires stmt.Range?
    decreases stmt, 2
  {
    && path != [] && path[0] == container.st && path[|path| - 1] == last
    && forall k :: 0 < k < |path| ==> Repeats(results, stmt, container, path[k-1], path[k])
  }

  /** The exits of a loop that runs at least one iteration. Going on with the next iteration is an exit too,
      since the container may be exhausted. */
  ghost predicate LoopExits(results: seq<Perm>, stmt: Stmt, container: Visit, raw: Exit)
    requires stmt.Range?
    decreases stmt, 3
  {
    exists path: seq<Store>, last: Store, inner: Exit ::
      && IsIteration(results, stmt, container, path, last)
      && BodyExit(results, stmt, container, last, inner)
      && raw == W.StmtExit(inner.store, LoopBranch(inner.branch))
  }

  /** The container is released after the loop if no iteration owned what it was bound to. */
  ghost predicate RangeReleases(results: seq<Perm>, stmt: Stmt, container: Visit)
    requires stmt.Range?
    decreases stmt, 3
  {
    forall path: seq<Store>, last: Store :: IsIteration(results, stmt, container, path, last) ==> LeavesUnowned(stmt, container, last)
  }

  /** The loop variables of the iteration that starts in `st` do not own what they are bound to. */
  ghost predicate LeavesUnowned(stmt: Stmt, container: Visit, st: Store)
    requires stmt.Range?
  {
    var afterKey := BindLoopVar(BeginBlock(st), stmt.key, RangePerms(container.perm).0, stmt.define);
    var start := IterationStart(st, stmt.key, stmt.val, stmt.define, container.perm);
    (afterKey.Ok? ==> Unowned(afterKey.value, stmt.key)) && (start.Ok? ==> Unowned(start.value, stmt.val))
  }
}
