/** The interpreter of statements as a whole: worklists within worklists, with nothing assumed of nested statements. */
module Execution {
  import opened Wrappers
  import opened BasePermission
  import opened Permission
  import opened Stores
  import opened Interpreter
  import opened Statements
  import opened Worklist
  import opened Exploration
  import opened Ranges

  // ----- the visit of a statement

  function Normally(next: Outcome<Store>): Option<seq<Exit>> {
    if next.Ok? then Some([StmtExit(next.value, Normal)]) else None
  }

  /** The block ended in every exit. */
  function EndEach(inner: seq<Exit>): Option<seq<Exit>> {
    if forall i :: 0 <= i < |inner| ==> EndBlock(inner[i].store).Ok? then
      Some(seq(|inner|, i requires 0 <= i < |inner| => StmtExit(EndBlock(inner[i].store).value, inner[i].branch)))
    else None
  }

  /** The container released in every exit. */
  function ReleaseEach(raw: seq<Exit>, undo: seq<Borrowed>): Option<seq<Exit>> {
    if forall i :: 0 <= i < |raw| ==> Release(raw[i].store, undo).Ok? then
      Some(seq(|raw|, i requires 0 <= i < |raw| => StmtExit(Release(raw[i].store, undo).value, raw[i].branch)))
    else None
  }

  /** The exits of a statement, in some order. None is a panic, or a worklist that never gets empty. */
  ghost function Run(results: seq<Perm>, st: Store, stmt: Stmt): Option<seq<Exit>>
    decreases stmt, 3
  {
    match stmt
    case Empty => Some([StmtExit(st, Normal)])
    case ExprStmt(x) => Normally(VisitAndRelease(st, x, NO_RIGHTS))
    case IncDec(x) => Normally(VisitAndRelease(st, x, Rights(false, true, true, false, false)))
    case Send(channel, sent) => Normally(VisitSend(st, channel, sent))
    case Assign(lhs, rhs, define) => Normally(AssignMany(st, lhs, rhs, define))
    case Return(exprs) =>
      var bound := BindResults(st, exprs, results);
      if bound.Ok? then Some([StmtExit(bound.value, Worklist.Return)]) else None
    case BranchTo(branch) => Some([StmtExit(st, branch)])
    case Labeled(_, inner) => Run(results, st, inner)
    case Block(list) =>
      var inner := RunList(results, BeginBlock(st), list);
      if inner.Some? then EndEach(inner.value) else None
    case If(_, _, _, _) => RunIf(results, st, stmt)
    case Range(_, _, _, x, _) =>
      var v := VisitExpr(st, x);
      if v.Ok? && Has(v.value.perm, READ) then RunRange(results, st, stmt, v.value) else None
  }

  /** The initializer must have one exit, and each branch at least one. */
  ghost function RunIf(results: seq<Perm>, st: Store, stmt: Stmt): Option<seq<Exit>>
    requires stmt.If?
    decreases stmt, 2
  {
    var start := Run(results, BeginBlock(st), stmt.init);
    if start.None? || |start.value| != 1 then None
    else
      var tested := VisitAndRelease(start.value[0].store, stmt.cond, READ);
      if !tested.Ok? then None
      else
        var thn, els := Run(results, tested.value, stmt.thn), Run(results, tested.value, stmt.els);
        if thn.None? || els.None? || thn.value == [] || els.value == [] then None else EndEach(thn.value + els.value)
  }

  ghost function Steps(results: seq<Perm>, list: seq<Stmt>): StepFunction<Store>
    decreases list, 0
  {
    (st: Store, i: nat) => if i < |list| then Run(results, st, list[i]) else None
  }

  /** A statement list: the exits of all works that a worklist visits. */
  ghost function RunList(results: seq<Perm>, init: Store, list: seq<Stmt>): Option<seq<Exit>>
    decreases list, 1
  {
    if list == [] then Some([StmtExit(init, Normal)])
    else if visited: seq<Work<Store>> :| VisitedOnce(BlockOf(list), Steps(results, list), init, visited) then
      Some(LeavingAll(BlockOf(list), Steps(results, list), visited))
    else None
  }

  /** One iteration of a loop, in a frame of its own. */
  ghost function RunIteration(results: seq<Perm>, stmt: Stmt, container: Visit, st: Store): Option<Iteration>
    requires stmt.Range?
    decreases stmt, 0
  {
    var start := IterationStart(st, stmt.key, stmt.val, stmt.define, container.perm);
    if !start.Ok? then None
    else
      var inner := Run(results, start.value, stmt.body);
      if inner.None? then None
      else
        var exits := EndEach(inner.value);
        if exits.None? then None else Some(Iteration(exits.value, LeavesUnowned(stmt, container, st)))
  }

  ghost function Iterations(results: seq<Perm>, stmt: Stmt, container: Visit): Iterate
    requires stmt.Range?
    decreases stmt, 1
  {
    (st: Store) => RunIteration(results, stmt, container, st)
  }

  ghost function RunRange(results: seq<Perm>, st: Store, stmt: Stmt, container: Visit): Option<seq<Exit>>
    requires stmt.Range?
    decreases stmt, 2
  {
    var iterate := Iterations(results, stmt, container);
    if visited: seq<Work<Store>> :| VisitedOnce(LOOP, Again(iterate), container.st, visited) then
      var raw := [StmtExit(st, Normal)] + OutcomesAll(iterate, visited);
      if AllUnowned(iterate, visited) then ReleaseEach(raw, OwnerToDeps(container)) else Some(raw)
    else None
  }

  // ----- the visit finds the exits of the statement

  /** The visit, unless it panics, returns exactly the exits. */
  ghost predicate RunExact(results: seq<Perm>, st: Store, stmt: Stmt) {
    Run(results, st, stmt).Some? ==>
      forall exit: Exit :: exit in Run(results, st, stmt).value <==> HasExit(results, st, stmt, exit)
  }

  lemma EndEachExact(inner: seq<Exit>, exit: Exit)
    requires EndEach(inner).Some?
    ensures |EndEach(inner).value| == |inner| && forall i :: 0 <= i < |inner| ==> Ends(inner[i], EndEach(inner).value[i])
    ensures exit in EndEach(inner).value <==> exists e: Exit :: e in inner && Ends(e, exit)
  {
    var ends := EndEach(inner).value;
    if exit in ends {
      var i :| 0 <= i < |ends| && ends[i] == exit;
      assert inner[i] in inner && Ends(inner[i], exit);
    }
    if e: Exit :| e in inner && Ends(e, exit) {
      var i :| 0 <= i < |inner| && inner[i] == e;
      assert ends[i] == exit;
    }
  }

  /** For every statement, by induction on nesting: visiting it with worklists all the way down finds exactly its
      exits. */
  lemma {:induction false} RunIsExact(results: seq<Perm>, st: Store, stmt: Stmt)
    ensures RunExact(results, st, stmt)
    decreases stmt, 3
  {
    match stmt
    case Empty | ExprStmt(_) | IncDec(_) | Send(_, _) | Assign(_, _, _) | Return(_) | BranchTo(_) =>
    case Labeled(_, inner) => RunIsExact(results, st, inner);
    case Block(list) => BlockIsExact(results, st, list);
    case If(_, _, _, _) => IfIsExact(results, st, stmt);
    case Range(_, _, _, _, _) => RangeStmtIsExact(results, st, stmt);
  }

  /** The visits of the statements of a list are what the worklist of the list asks for. */
  lemma {:induction false} StepsEnumerate(results: seq<Perm>, list: seq<Stmt>)
    ensures Enumerates(results, list, Steps(results, list))
    decreases list, 0
  {
    hide HasExit;
    forall st: Store, i: nat | i < |list| && Steps(results, list)(st, i).Some?
      ensures forall e: Exit :: e in Steps(results, list)(st, i).value <==> HasExit(results, st, list[i], e)
    {
      RunIsExact(results, st, list[i]);
    }
  }

  lemma RunListVisits(results: seq<Perm>, init: Store, list: seq<Stmt>) returns (visited: seq<Work<Store>>)
    requires RunList(results, init, list).Some?
    ensures var inner := RunList(results, init, list).value;
      if list == [] then inner == [StmtExit(init, Normal)]
      else VisitedOnce(BlockOf(list), Steps(results, list), init, visited)
           && inner == LeavingAll(BlockOf(list), Steps(results, list), visited)
  {
    if list != [] {
      visited :| VisitedOnce(BlockOf(list), Steps(results, list), init, visited)
        && RunList(results, init, list).value == LeavingAll(BlockOf(list), Steps(results, list), visited);
    } else {
      visited := [];
    }
  }

  lemma {:induction false} BlockIsExact(results: seq<Perm>, st: Store, list: seq<Stmt>)
    ensures RunExact(results, st, Stmt.Block(list))
    decreases list, 1
  {
    StepsEnumerate(results, list);
    var inner := RunList(results, BeginBlock(st), list);
    if Run(results, st, Stmt.Block(list)).Some? {
      var visited := RunListVisits(results, BeginBlock(st), list);
      forall exit: Exit
        ensures exit in Run(results, st, Stmt.Block(list)).value <==> HasExit(results, st, Stmt.Block(list), exit)
      {
        EndEachExact(inner.value, exit);
        BlockExit(results, list, st, Steps(results, list), visited, inner.value, EndEach(inner.value).value, exit);
      }
    }
  }

  lemma {:induction false} IfIsExact(results: seq<Perm>, st: Store, stmt: Stmt)
    requires stmt.If?
    ensures RunExact(results, st, stmt)
    decreases stmt, 0
  {
    if RunIf(results, st, stmt).Some? {
      var start := Run(results, BeginBlock(st), stmt.init).value[0];
      var tested := VisitAndRelease(start.store, stmt.cond, READ);
      var thn, els := Run(results, tested.value, stmt.thn).value, Run(results, tested.value, stmt.els).value;
      RunIsExact(results, BeginBlock(st), stmt.init);
      RunIsExact(results, tested.value, stmt.thn);
      RunIsExact(results, tested.value, stmt.els);
      assert Run(results, BeginBlock(st), stmt.init).value == [start];
      OnlyStart(results, st, stmt, start);
      forall exit: Exit
        ensures exit in EndEach(thn + els).value <==> HasExit(results, st, stmt, exit)
      {
        EndEachExact(thn + els, exit);
        IfExit(results, st, stmt, start, thn, els, exit);
      }
    }
  }

  lemma OnlyStart(results: seq<Perm>, st: Store, stmt: Stmt, start: Exit)
    requires stmt.If? && Run(results, BeginBlock(st), stmt.init) == Some([start]) && RunExact(results, BeginBlock(st), stmt.init)
    ensures forall e: Exit :: HasExit(results, BeginBlock(st), stmt.init, e) <==> e == start
  {
    hide Run, HasExit;
    assert forall e: Exit :: e in [start] <==> e == start;
  }

  /** The exits of a conditional are those of its branches, from the only exit of its initializer. */
  lemma IfExit(results: seq<Perm>, st: Store, stmt: Stmt, start: Exit, thn: seq<Exit>, els: seq<Exit>, exit: Exit)
    requires stmt.If? && thn != [] && els != []
    requires forall e: Exit :: HasExit(results, BeginBlock(st), stmt.init, e) <==> e == start
    requires var tested := VisitAndRelease(start.store, stmt.cond, READ);
      && tested.Ok?
      && (forall e: Exit :: e in thn <==> HasExit(results, tested.value, stmt.thn, e))
      && (forall e: Exit :: e in els <==> HasExit(results, tested.value, stmt.els, e))
    ensures HasExit(results, st, stmt, exit) <==> exists e: Exit :: e in thn + els && Ends(e, exit)
  {
    hide VisitAndRelease;
    var tested := VisitAndRelease(start.store, stmt.cond, READ);
    assert thn[0] in thn && els[0] in els;
    assert forall e: Exit :: AfterTest(results, tested, stmt, e) <==> e in thn + els;
    if e: Exit :| e in thn + els && Ends(e, exit) {
      assert HasExit(results, BeginBlock(st), stmt.init, start) && AfterTest(results, tested, stmt, e);
    }
  }

  lemma {:induction false} IterationIsExact(results: seq<Perm>, stmt: Stmt, container: Visit, st: Store)
    requires stmt.Range? && RunIteration(results, stmt, container, st).Some?
    ensures var it := RunIteration(results, stmt, container, st).value;
      && (forall e: Exit :: e in it.exits <==> BodyExit(results, stmt, container, st, e))
      && (it.unowned <==> LeavesUnowned(stmt, container, st))
    decreases stmt, 0
  {
    var start := IterationStart(st, stmt.key, stmt.val, stmt.define, container.perm).value;
    var inner := Run(results, start, stmt.body).value;
    RunIsExact(results, start, stmt.body);
    var it := RunIteration(results, stmt, container, st).value;
    forall e: Exit
      ensures e in it.exits <==> BodyExit(results, stmt, container, st, e)
    {
      EndEachExact(inner, e);
      BodyIsInner(results, stmt, container, st, inner, e);
    }
  }

  lemma BodyIsInner(results: seq<Perm>, stmt: Stmt, container: Visit, st: Store, inner: seq<Exit>, exit: Exit)
    requires stmt.Range? && IterationStart(st, stmt.key, stmt.val, stmt.define, container.perm).Ok?
    requires var start := IterationStart(st, stmt.key, stmt.val, stmt.define, container.perm).value;
      forall e: Exit :: e in inner <==> HasExit(results, start, stmt.body, e)
    ensures BodyExit(results, stmt, container, st, exit) <==> exists e: Exit :: e in inner && Ends(e, exit)
  {
    hide IterationStart;
  }

  /** The iterations are what the worklist of the loop asks for. */
  lemma {:induction false} IterationsIterate(results: seq<Perm>, stmt: Stmt, container: Visit)
    requires stmt.Range?
    ensures Iterated(results, stmt, container, Iterations(results, stmt, container))
    decreases stmt, 1
  {
    hide BodyExit, LeavesUnowned, RunIteration;
    var iterate := Iterations(results, stmt, container);
    forall st: Store | iterate(st).Some?
      ensures forall e: Exit :: e in iterate(st).value.exits <==> BodyExit(results, stmt, container, st, e)
      ensures iterate(st).value.unowned <==> LeavesUnowned(stmt, container, st)
    {
      assert iterate(st) == RunIteration(results, stmt, container, st);
      IterationIsExact(results, stmt, container, st);
    }
  }

  lemma ReleaseEachExact(raw: seq<Exit>, undo: seq<Borrowed>)
    requires ReleaseEach(raw, undo).Some?
    ensures var r := ReleaseEach(raw, undo).value;
      |r| == |raw| && forall i :: 0 <= i < |raw| ==> IsReleased(raw[i], true, undo, r[i])
  {
  }

  lemma {:induction false} RangeStmtIsExact(results: seq<Perm>, st: Store, stmt: Stmt)
    requires stmt.Range?
    ensures RunExact(results, st, stmt)
    decreases stmt, 2
  {
    var v := VisitExpr(st, stmt.x);
    if Run(results, st, stmt).Some? {
      var container := v.value;
      var iterate := Iterations(results, stmt, container);
      IterationsIterate(results, stmt, container);
      var visited := RunRangeVisits(results, st, stmt, container);
      var raw := [StmtExit(st, Normal)] + OutcomesAll(iterate, visited);
      var undo := OwnerToDeps(container);
      if AllUnowned(iterate, visited) {
        ReleaseEachExact(raw, undo);
      }
      forall exit: Exit
        ensures exit in RunRange(results, st, stmt, container).value <==> HasExit(results, st, stmt, exit)
      {
        RangeExit(results, stmt, st, container, iterate, visited, raw, AllUnowned(iterate, visited),
                  RunRange(results, st, stmt, container).value, exit);
      }
    }
  }

  lemma RunRangeVisits(results: seq<Perm>, st: Store, stmt: Stmt, container: Visit) returns (visited: seq<Work<Store>>)
    requires stmt.Range? && RunRange(results, st, stmt, container).Some?
    ensures var iterate := Iterations(results, stmt, container);
      && VisitedOnce(LOOP, Again(iterate), container.st, visited)
      && var raw := [StmtExit(st, Normal)] + OutcomesAll(iterate, visited);
         RunRange(results, st, stmt, container)
           == if AllUnowned(iterate, visited) then ReleaseEach(raw, OwnerToDeps(container)) else Some(raw)
  {
    var iterate := Iterations(results, stmt, container);
    visited :|
      && VisitedOnce(LOOP, Again(iterate), container.st, visited)
      && var raw := [StmtExit(st, Normal)] + OutcomesAll(iterate, visited);
         RunRange(results, st, stmt, container)
           == if AllUnowned(iterate, visited) then ReleaseEach(raw, OwnerToDeps(container)) else Some(raw);
  }

  // ----- when a visit has a result

  /** Where a block stays in finitely many stores, its visit has a result exactly if no statement that is reached
      panics. */
  lemma BlockRuns(results: seq<Perm>, st: Store, list: seq<Stmt>, stores: set<Store>)
    requires BeginBlock(st) in stores && ClosedUnder(BlockOf(list), Steps(results, list), stores)
    ensures Run(results, st, Stmt.Block(list)).Some? <==>
      forall w :: Reachable(BlockOf(list), Steps(results, list), BeginBlock(st), w) ==> Exits(BlockOf(list), Steps(results, list), w).Some?
  {
    hide ClosedUnder, Exits, Reachable, Enumerates, LeavingAll;
    var b, step, init := BlockOf(list), Steps(results, list), BeginBlock(st);
    BlockIsList(list);
    if list == [] {
      NothingReached(b, step, init);
      assert FrameEnd(init) == 0;
    } else if forall w :: Reachable(b, step, init, w) ==> Exits(b, step, w).Some? {
      var some := VisitExists(b, step, init, stores);
      assert RunList(results, init, list).Some?;
      StepsEnumerate(results, list);
      var visited := RunListVisits(results, init, list);
      BlockEnds(results, list, st, step, visited, RunList(results, init, list).value);
    } else if Run(results, st, Stmt.Block(list)).Some? {
      var visited := RunListVisits(results, init, list);
    }
  }

  lemma NothingReached(b: Worklist.Block, step: StepFunction<Store>, init: Store)
    requires b.length == 0
    ensures forall w :: !Reachable(b, step, init, w)
  {
  }

  /** Where a loop stays in finitely many stores and no iteration that is reached panics, its visit has a result,
      unless the container cannot be released in some exit. */
  lemma RangeRuns(results: seq<Perm>, st: Store, stmt: Stmt, container: Visit, stores: set<Store>)
    requires stmt.Range? && VisitExpr(st, stmt.x) == Ok(container) && Has(container.perm, READ)
    requires container.st in stores && ClosedUnder(LOOP, Again(Iterations(results, stmt, container)), stores)
    requires AllRun(Iterations(results, stmt, container), container.st)
    ensures Run(results, st, stmt).Some? || exists raw: Exit ::
      (raw == StmtExit(st, Normal) || LoopExits(results, stmt, container, raw)) && !Release(raw.store, OwnerToDeps(container)).Ok?
  {
    hide ClosedUnder, Reachable, OutcomesAll, LoopExits, Iterated, Release;
    var iterate := Iterations(results, stmt, container);
    AllExit(iterate, container.st);
    var some := VisitExists(LOOP, Again(iterate), container.st, stores);
    IterationsIterate(results, stmt, container);
    if RunRange(results, st, stmt, container).None? {
      var visited, i := FailedRelease(results, st, stmt, container, some);
      var raw := [StmtExit(st, Normal)] + OutcomesAll(iterate, visited);
      assert raw[i] in raw;
      RangeIsExact(results, stmt, container, iterate, visited, raw[i]);
    }
  }

  lemma AllExit(iterate: Iterate, start: Store)
    requires AllRun(iterate, start)
    ensures forall w :: Reachable(LOOP, Again(iterate), start, w) ==> Exits(LOOP, Again(iterate), w).Some?
  {
    forall w | Reachable(LOOP, Again(iterate), start, w)
      ensures Exits(LOOP, Again(iterate), w).Some?
    {
      ReachedAtZero(iterate, start, w);
    }
  }

  lemma FailedRelease(results: seq<Perm>, st: Store, stmt: Stmt, container: Visit, some: seq<Work<Store>>)
    returns (visited: seq<Work<Store>>, i: nat)
    requires stmt.Range? && RunRange(results, st, stmt, container).None?
    requires VisitedOnce(LOOP, Again(Iterations(results, stmt, container)), container.st, some)
    ensures var iterate := Iterations(results, stmt, container);
      && VisitedOnce(LOOP, Again(iterate), container.st, visited)
      && var raw := [StmtExit(st, Normal)] + OutcomesAll(iterate, visited);
         i < |raw| && !Release(raw[i].store, OwnerToDeps(container)).Ok?
  {
    var iterate := Iterations(results, stmt, container);
    visited :|
      && VisitedOnce(LOOP, Again(iterate), container.st, visited)
      && ReleaseEach([StmtExit(st, Normal)] + OutcomesAll(iterate, visited), OwnerToDeps(container)).None?;
    i := ReleaseEachFails([StmtExit(st, Normal)] + OutcomesAll(iterate, visited), OwnerToDeps(container));
  }

  lemma ReleaseEachFails(raw: seq<Exit>, undo: seq<Borrowed>) returns (i: nat)
    requires ReleaseEach(raw, undo).None?
    ensures i < |raw| && !Release(raw[i].store, undo).Ok?
  {
    i :| 0 <= i < |raw| && !Release(raw[i].store, undo).Ok?;
  }
}
