/** The worklist of a range statement finds exactly the exits of the statement, and whether the container can
    be released. */
module Ranges {
  import opened Wrappers
  import opened BasePermission
  import opened Permission
  import opened Stores
  import opened Interpreter
  import opened Statements
  import opened Worklist

  /** What an iteration does: the exits of the body, outside the frame of the iteration, and whether its loop
      variables left what they are bound to unowned. */
  datatype Iteration = Iteration(exits: seq<Exit>, unowned: bool)

  /** The iteration that starts in a store; None if the interpreter panics. */
  type Iterate = Store -> Option<Iteration>

  // ----- the loops over exits

  function Starting(exits: seq<Exit>): seq<Work<Store>> {
    if exits == [] then []
    else
      var last := exits[|exits| - 1];
      Starting(exits[..|exits| - 1]) + if Iterates(last.branch) then [Work(last.store, 0)] else []
  }

  function Ending(exits: seq<Exit>): seq<Exit> {
    if exits == [] then []
    else
      var last := exits[|exits| - 1];
      Ending(exits[..|exits| - 1]) + if Iterates(last.branch) then [] else [StmtExit(last.store, LoopBranch(last.branch))]
  }

  /** Splits the exits of the body into those that start another iteration and those out of the loop. */
  method CollectLoopExits(exits: seq<Exit>) returns (next: seq<Work<Store>>, ends: seq<Exit>)
    ensures next == Starting(exits) && ends == Ending(exits)
  {
    next, ends := [], [];
    for i := 0 to |exits|
      invariant next == Starting(exits[..i]) && ends == Ending(exits[..i])
    {
      assert exits[..i + 1][..i] == exits[..i];
      var exit := exits[i];
      match exit.branch
      case Normal => next := next + [Work(exit.store, 0)];
      case Return => ends := ends + [exit];
      case Break(label_) => ends := ends + [if label_ == "" then StmtExit(exit.store, Normal) else exit];
      case Continue(label_) =>
        if label_ == "" {
          next := next + [Work(exit.store, 0)];
        } else {
          ends := ends + [exit];
        }
      case Goto(_) => ends := ends + [exit];
      case Fallthrough => ends := ends + [exit];
    }
    assert exits[..|exits|] == exits;
  }

  lemma {:induction false} StartingExact(exits: seq<Exit>, w: Work<Store>)
    ensures w in Starting(exits) <==> w.at == 0 && exists i :: 0 <= i < |exits| && exits[i].store == w.store && Iterates(exits[i].branch)
  {
    hide Iterates, LoopBranch;
    if exits != [] {
      var n := |exits| - 1;
      StartingExact(exits[..n], w);
      assert forall i :: 0 <= i < n ==> exits[..n][i] == exits[i];
    }
  }

  lemma {:induction false} EndingExact(exits: seq<Exit>, e: Exit)
    ensures e in Ending(exits) <==>
      exists i :: 0 <= i < |exits| && !Iterates(exits[i].branch) && e == StmtExit(exits[i].store, LoopBranch(exits[i].branch))
  {
    hide Iterates, LoopBranch;
    if exits != [] {
      var n := |exits| - 1;
      EndingExact(exits[..n], e);
      assert forall i :: 0 <= i < n ==> exits[..n][i] == exits[i];
    }
  }

  /** The exits in which the loop can end after this iteration: the container may be exhausted. */
  function Outcomes(exits: seq<Exit>): seq<Exit> {
    var next := Starting(exits);
    Ending(exits) + seq(|next|, i requires 0 <= i < |next| => StmtExit(next[i].store, Normal))
  }

  lemma OutcomesExact(exits: seq<Exit>, e: Exit)
    ensures e in Outcomes(exits) <==> exists i :: 0 <= i < |exits| && e == StmtExit(exits[i].store, LoopBranch(exits[i].branch))
  {
    EndingExact(exits, e);
    StartingExact(exits, Work(e.store, 0));
    var next := Starting(exits);
    var normal := seq(|next|, i requires 0 <= i < |next| => StmtExit(next[i].store, Normal));
    if e in normal {
      var i :| 0 <= i < |normal| && normal[i] == e;
      assert next[i] in next;
      StartingExact(exits, next[i]);
    }
    if e.branch.Normal? && Work(e.store, 0) in next {
      var i :| 0 <= i < |next| && next[i] == Work(e.store, 0);
      assert normal[i] == e;
    }
  }

  // ----- the loop as a block

  /** The flow of control between iterations is that of a block of one statement that jumps back to itself. */
  const LOOP: Worklist.Block := Worklist.Block.Block(1, map["" := 0], false)

  function Jumps(next: seq<Work<Store>>): seq<Exit> {
    seq(|next|, i requires 0 <= i < |next| => StmtExit(next[i].store, Goto("")))
  }

  function Again(iterate: Iterate): StepFunction<Store> {
    (st, at) => var it := iterate(st); if it.Some? then Some(Jumps(Starting(it.value.exits))) else None
  }

  lemma {:induction false} NoneLeave(es: seq<Exit>)
    requires forall i :: 0 <= i < |es| ==> es[i].branch == Goto("")
    ensures Leaving(LOOP, 0, es) == []
  {
    if es != [] {
      NoneLeave(es[..|es| - 1]);
    }
  }

  /** One iteration can follow another exactly if some exit of the first starts it. */
  lemma EdgeIsIteration(iterate: Iterate, v: Store, w: Work<Store>)
    ensures Edge(LOOP, Again(iterate), Work(v, 0), w) <==> iterate(v).Some? && w in Starting(iterate(v).value.exits)
  {
    if iterate(v).Some? {
      var next := Starting(iterate(v).value.exits);
      var es := Jumps(next);
      assert Exits(LOOP, Again(iterate), Work(v, 0)) == Some(es);
      if w in next {
        var i :| 0 <= i < |next| && next[i] == w;
        StartingExact(iterate(v).value.exits, w);
        assert RouteOf(LOOP, 0, es[i]) == Go(w);
      }
      if i :| 0 <= i < |es| && RouteOf(LOOP, 0, es[i]) == Go(w) {
        assert next[i] in next;
        StartingExact(iterate(v).value.exits, next[i]);
        assert w == next[i];
      }
    }
  }

  lemma ReachedAtZero(iterate: Iterate, start: Store, w: Work<Store>)
    requires Reachable(LOOP, Again(iterate), start, w)
    ensures w.at == 0
  {
    var path :| IsPath(LOOP, Again(iterate), start, path) && path[|path| - 1] == w;
    if |path| > 1 {
      assert Edge(LOOP, Again(iterate), path[|path| - 2], w);
    }
  }

  /** The exits from the visited iterations, in order of the visits. */
  function OutcomesAll(iterate: Iterate, visited: seq<Work<Store>>): seq<Exit> {
    if visited == [] then []
    else
      var it := iterate(visited[|visited| - 1].store);
      OutcomesAll(iterate, visited[..|visited| - 1]) + if it.Some? then Outcomes(it.value.exits) else []
  }

  predicate AllUnowned(iterate: Iterate, visited: seq<Work<Store>>) {
    forall w <- visited :: iterate(w.store).Some? ==> iterate(w.store).value.unowned
  }

  /** Adds the exits in which the loop can end after an iteration. */
  method AddOutcomes(bm: BlockManager<Store>, exits: seq<Exit>) returns (next: seq<Work<Store>>)
    modifies bm`exits
    ensures next == Starting(exits) && bm.exits == old(bm.exits) + Outcomes(exits)
  {
    var ends;
    next, ends := CollectLoopExits(exits);
    for i := 0 to |ends|
      invariant bm.exits == old(bm.exits) + ends[..i]
    {
      bm.AddExit(ends[i]);
    }
    ghost var normal := seq(|next|, i requires 0 <= i < |next| => StmtExit(next[i].store, Normal));
    for i := 0 to |next|
      invariant bm.exits == old(bm.exits) + ends + normal[..i]
    {
      bm.AddExit(StmtExit(next[i].store, Normal));
    }
  }

  /** One iteration. */
  method VisitIteration(bm: BlockManager<Store>, iterate: Iterate, ghost start: Store, ghost stores: set<Store>,
                        ghost visited: seq<Work<Store>>, ghost first: seq<Exit>)
    returns (it: Option<Iteration>, ghost w: Work<Store>)
    requires bm.todo != [] && ClosedUnder(LOOP, Again(iterate), stores)
    requires Explored(LOOP, Again(iterate), start, bm.seen, bm.todo, visited, |visited|) && Bounded(LOOP, start, stores, bm.seen)
    requires bm.exits == first + OutcomesAll(iterate, visited)
    modifies bm
    ensures Reachable(LOOP, Again(iterate), start, w) && it == iterate(w.store)
    ensures it.Some? ==>
      && Explored(LOOP, Again(iterate), start, bm.seen, bm.todo, visited + [w], |visited + [w]|) && Bounded(LOOP, start, stores, bm.seen)
      && Remaining(LOOP, stores, visited + [w]) < Remaining(LOOP, stores, visited)
      && bm.exits == first + OutcomesAll(iterate, visited + [w])
  {
    hide Explored, Reachable, ClosedUnder, Remaining, AllSeen, Starting, Outcomes, Bounded, Exits, OutcomesAll, Leaving, Again, Universe;
    var next := bm.NextWork();
    w := next;
    Taken(LOOP, Again(iterate), start, bm.seen, bm.todo, visited, w);
    ReachedAtZero(iterate, start, w);
    it := iterate(next.store);
    if it.None? {
      return;
    }
    var more := AddOutcomes(bm, it.value.exits);
    ghost var exits := bm.exits;
    var jumps := Jumps(more);
    ExitsJump(iterate, w);
    InUniverse(LOOP, start, stores, bm.seen, w);
    FollowExits(bm, LOOP, Again(iterate), next, jumps, start, stores, visited);
    NoneLeave(jumps);
    assert bm.exits == exits;
    VisitDone(LOOP, Again(iterate), start, stores, bm.seen, bm.todo, visited, w);
    OneMore(iterate, visited, w);
  }

  lemma ExitsJump(iterate: Iterate, w: Work<Store>)
    requires w.at == 0 && iterate(w.store).Some?
    ensures Exits(LOOP, Again(iterate), w) == Some(Jumps(Starting(iterate(w.store).value.exits)))
  {
  }

  lemma OneMore(iterate: Iterate, visited: seq<Work<Store>>, w: Work<Store>)
    requires iterate(w.store).Some?
    ensures OutcomesAll(iterate, visited + [w]) == OutcomesAll(iterate, visited) + Outcomes(iterate(w.store).value.exits)
  {
    assert (visited + [w])[..|visited|] == visited;
  }

  /** The loop of `visitRangeStmt`, entered in the store `start` after the container was evaluated in the store
      `before`. It panics only if an iteration that can be reached does. Otherwise every iteration that can be
      reached is visited exactly once, the exits are those after the visited iterations and that of an empty
      container, and the container may be released if none of the iterations owned anything. */
  method VisitRange(iterate: Iterate, before: Store, start: Store, ghost stores: set<Store>)
    returns (r: Option<seq<Exit>>, canRelease: bool, ghost visited: seq<Work<Store>>)
    requires start in stores && ClosedUnder(LOOP, Again(iterate), stores)
    ensures r.None? ==> exists w :: Reachable(LOOP, Again(iterate), start, w) && iterate(w.store).None?
    ensures r.Some? ==>
      && VisitedOnce(LOOP, Again(iterate), start, visited)
      && r.value == [StmtExit(before, Normal)] + OutcomesAll(iterate, visited)
      && canRelease == AllUnowned(iterate, visited)
  {
    hide Explored, Reachable, ClosedUnder, Remaining, Universe, VisitedOnce, OutcomesAll;
    visited, canRelease := [], true;
    var bm := AddStarts(LOOP, start, Again(iterate), stores);
    bm.AddExit(StmtExit(before, Normal));
    assert OutcomesAll(iterate, []) == [] by { NoOutcomes(iterate); }
    while bm.todo != []
      invariant Explored(LOOP, Again(iterate), start, bm.seen, bm.todo, visited, |visited|) && Bounded(LOOP, start, stores, bm.seen)
      invariant bm.exits == [StmtExit(before, Normal)] + OutcomesAll(iterate, visited)
      invariant canRelease == AllUnowned(iterate, visited)
      decreases Remaining(LOOP, stores, visited)
    {
      var it, w := VisitIteration(bm, iterate, start, stores, visited, [StmtExit(before, Normal)]);
      if it.None? {
        return None, false, visited;
      }
      canRelease := canRelease && it.value.unowned;
      visited := visited + [w];
    }
    ExploredOnce(LOOP, Again(iterate), start, bm.seen, visited);
    r := Some(bm.exits);
  }

  lemma NoOutcomes(iterate: Iterate)
    ensures OutcomesAll(iterate, []) == []
  {
  }

  // ----- the exits found are those of the statement

  /** Where `iterate` does not panic, it returns the exits of the loop body. */
  ghost predicate Iterated(results: seq<Perm>, stmt: Stmt, container: Visit, iterate: Iterate)
    requires stmt.Range?
  {
    forall st: Store | iterate(st).Some? ::
      && (forall e: Exit :: e in iterate(st).value.exits <==> BodyExit(results, stmt, container, st, e))
      && (iterate(st).value.unowned <==> LeavesUnowned(stmt, container, st))
  }

  lemma EdgeIsRepeat(results: seq<Perm>, stmt: Stmt, container: Visit, iterate: Iterate, v: Store, w: Store)
    requires stmt.Range? && Iterated(results, stmt, container, iterate) && iterate(v).Some?
    ensures Edge(LOOP, Again(iterate), Work(v, 0), Work(w, 0)) <==> Repeats(results, stmt, container, v, w)
  {
    hide BodyExit, LeavesUnowned, Edge;
    var exits := iterate(v).value.exits;
    EdgeIsIteration(iterate, v, Work(w, 0));
    StartingExact(exits, Work(w, 0));
    if Repeats(results, stmt, container, v, w) {
      var b: Branch :| BodyExit(results, stmt, container, v, StmtExit(w, b)) && Iterates(b);
      assert StmtExit(w, b) in exits;
    }
    if i :| 0 <= i < |exits| && exits[i].store == w && Iterates(exits[i].branch) {
      assert exits[i] in exits;
      assert exits[i] == StmtExit(w, exits[i].branch);
    }
  }

  /** Every iteration that can be reached was run. */
  ghost predicate AllRun(iterate: Iterate, start: Store) {
    forall w :: Reachable(LOOP, Again(iterate), start, w) ==> iterate(w.store).Some?
  }

  lemma {:induction false} IterationIsReachable(results: seq<Perm>, stmt: Stmt, container: Visit, iterate: Iterate,
                                                path: seq<Store>, last: Store)
    requires stmt.Range? && Iterated(results, stmt, container, iterate) && AllRun(iterate, container.st)
    requires IsIteration(results, stmt, container, path, last)
    ensures Reachable(LOOP, Again(iterate), container.st, Work(last, 0))
    decreases |path|
  {
    hide Reachable, Edge, Repeats, Iterated;
    if |path| == 1 {
      StartReachable(LOOP, Again(iterate), container.st, Work(last, 0));
    } else {
      var before := path[|path| - 2];
      IterationIsReachable(results, stmt, container, iterate, path[..|path| - 1], before);
      assert Repeats(results, stmt, container, before, last);
      EdgeIsRepeat(results, stmt, container, iterate, before, last);
      EdgeReachable(LOOP, Again(iterate), container.st, Work(before, 0), Work(last, 0));
    }
  }

  lemma {:induction false} ReachableIsIteration(results: seq<Perm>, stmt: Stmt, container: Visit, iterate: Iterate,
                                                path: seq<Work<Store>>)
    returns (stores: seq<Store>)
    requires stmt.Range? && Iterated(results, stmt, container, iterate) && AllRun(iterate, container.st)
    requires IsPath(LOOP, Again(iterate), container.st, path)
    ensures IsIteration(results, stmt, container, stores, path[|path| - 1].store)
    decreases |path|
  {
    hide Reachable, Edge, Repeats, Iterated;
    var last := path[|path| - 1];
    if |path| == 1 {
      stores := [last.store];
    } else {
      var before := path[|path| - 2];
      var init := path[..|path| - 1];
      var more := ReachableIsIteration(results, stmt, container, iterate, init);
      assert Edge(LOOP, Again(iterate), before, last);
      PathReachable(iterate, container.st, init);
      PathReachable(iterate, container.st, path);
      EdgeIsRepeat(results, stmt, container, iterate, before.store, last.store);
      stores := more + [last.store];
    }
  }

  lemma PathReachable(iterate: Iterate, start: Store, path: seq<Work<Store>>)
    requires IsPath(LOOP, Again(iterate), start, path)
    ensures Reachable(LOOP, Again(iterate), start, path[|path| - 1]) && path[|path| - 1].at == 0
  {
    ReachedAtZero(iterate, start, path[|path| - 1]);
  }

  lemma {:induction false} OutcomesAllExact(iterate: Iterate, visited: seq<Work<Store>>, e: Exit)
    ensures e in OutcomesAll(iterate, visited) <==>
      exists w :: w in visited && iterate(w.store).Some? && e in Outcomes(iterate(w.store).value.exits)
  {
    if visited != [] {
      var n := |visited| - 1;
      OutcomesAllExact(iterate, visited[..n], e);
      assert visited == visited[..n] + [visited[n]];
    }
  }

  /** A loop exit after some iteration is a loop exit after some visited iteration. */
  lemma OutcomeIsExit(results: seq<Perm>, stmt: Stmt, container: Visit, iterate: Iterate, st: Store, raw: Exit)
    requires stmt.Range? && Iterated(results, stmt, container, iterate) && iterate(st).Some?
    ensures raw in Outcomes(iterate(st).value.exits) <==>
      exists inner: Exit :: BodyExit(results, stmt, container, st, inner) && raw == StmtExit(inner.store, LoopBranch(inner.branch))
  {
    hide BodyExit, LeavesUnowned, Outcomes;
    var exits := iterate(st).value.exits;
    OutcomesExact(exits, raw);
    if i :| 0 <= i < |exits| && raw == StmtExit(exits[i].store, LoopBranch(exits[i].branch)) {
      assert exits[i] in exits;
    }
    if inner: Exit :| BodyExit(results, stmt, container, st, inner) && raw == StmtExit(inner.store, LoopBranch(inner.branch)) {
      assert inner in exits;
      var i :| 0 <= i < |exits| && exits[i] == inner;
    }
  }

  /** An iteration starts in every visited work. */
  lemma VisitedIsIteration(results: seq<Perm>, stmt: Stmt, container: Visit, iterate: Iterate, visited: seq<Work<Store>>, w: Work<Store>)
    returns (path: seq<Store>)
    requires stmt.Range? && Iterated(results, stmt, container, iterate)
    requires VisitedOnce(LOOP, Again(iterate), container.st, visited) && w in visited
    ensures IsIteration(results, stmt, container, path, w.store)
  {
    hide Iterated;
    assert AllRun(iterate, container.st);
    assert multiset(visited)[w] > 0;
    var works :| IsPath(LOOP, Again(iterate), container.st, works) && works[|works| - 1] == w;
    path := ReachableIsIteration(results, stmt, container, iterate, works);
  }

  /** Wherever an iteration starts, the work is visited. */
  lemma IterationIsVisited(results: seq<Perm>, stmt: Stmt, container: Visit, iterate: Iterate, visited: seq<Work<Store>>,
                           path: seq<Store>, last: Store)
    requires stmt.Range? && Iterated(results, stmt, container, iterate)
    requires VisitedOnce(LOOP, Again(iterate), container.st, visited)
    requires IsIteration(results, stmt, container, path, last)
    ensures Work(last, 0) in visited
  {
    hide Iterated;
    assert AllRun(iterate, container.st);
    IterationIsReachable(results, stmt, container, iterate, path, last);
    assert multiset(visited)[Work(last, 0)] > 0;
  }

  lemma VisitedAtZero(iterate: Iterate, start: Store, visited: seq<Work<Store>>, w: Work<Store>)
    requires VisitedOnce(LOOP, Again(iterate), start, visited) && w in visited
    ensures w == Work(w.store, 0) && iterate(w.store).Some?
  {
    assert multiset(visited)[w] > 0;
    ReachedAtZero(iterate, start, w);
  }

  lemma LastIteration(results: seq<Perm>, stmt: Stmt, container: Visit, raw: Exit) returns (path: seq<Store>, last: Store, inner: Exit)
    requires stmt.Range? && LoopExits(results, stmt, container, raw)
    ensures IsIteration(results, stmt, container, path, last)
    ensures BodyExit(results, stmt, container, last, inner) && raw == StmtExit(inner.store, LoopBranch(inner.branch))
  {
    path, last, inner :|
      && IsIteration(results, stmt, container, path, last)
      && BodyExit(results, stmt, container, last, inner)
      && raw == StmtExit(inner.store, LoopBranch(inner.branch));
  }

  /** The exits after the visited iterations are the exits of the loop. */
  lemma RangeIsExact(results: seq<Perm>, stmt: Stmt, container: Visit, iterate: Iterate, visited: seq<Work<Store>>, raw: Exit)
    requires stmt.Range? && Iterated(results, stmt, container, iterate)
    requires VisitedOnce(LOOP, Again(iterate), container.st, visited)
    ensures raw in OutcomesAll(iterate, visited) <==> LoopExits(results, stmt, container, raw)
  {
    hide Iterated, VisitedOnce, OutcomesAll, Outcomes, Reachable;
    OutcomesAllExact(iterate, visited, raw);
    if w :| w in visited && iterate(w.store).Some? && raw in Outcomes(iterate(w.store).value.exits) {
      VisitedAtZero(iterate, container.st, visited, w);
      var path := VisitedIsIteration(results, stmt, container, iterate, visited, w);
      OutcomeIsExit(results, stmt, container, iterate, w.store, raw);
    }
    if LoopExits(results, stmt, container, raw) {
      var path, last, inner := LastIteration(results, stmt, container, raw);
      IterationIsVisited(results, stmt, container, iterate, visited, path, last);
      VisitedAtZero(iterate, container.st, visited, Work(last, 0));
      OutcomeIsExit(results, stmt, container, iterate, last, raw);
    }
  }

  /** The container may be released after the visited iterations exactly if it may be after all. */
  lemma ReleaseIsExact(results: seq<Perm>, stmt: Stmt, container: Visit, iterate: Iterate, visited: seq<Work<Store>>)
    requires stmt.Range? && Iterated(results, stmt, container, iterate)
    requires VisitedOnce(LOOP, Again(iterate), container.st, visited)
    ensures AllUnowned(iterate, visited) <==> RangeReleases(results, stmt, container)
  {
    hide VisitedOnce, Reachable, LeavesUnowned;
    forall path: seq<Store>, last: Store | IsIteration(results, stmt, container, path, last) && AllUnowned(iterate, visited)
      ensures LeavesUnowned(stmt, container, last)
    {
      IterationIsVisited(results, stmt, container, iterate, visited, path, last);
      VisitedAtZero(iterate, container.st, visited, Work(last, 0));
      assert iterate(Work(last, 0).store).value.unowned;
    }
    forall w | w in visited && RangeReleases(results, stmt, container)
      ensures iterate(w.store).Some? ==> iterate(w.store).value.unowned
    {
      VisitedAtZero(iterate, container.st, visited, w);
      var path := VisitedIsIteration(results, stmt, container, iterate, visited, w);
    }
  }

  // ----- the whole statement

  /** Releases what is borrowed; None is the panic of a failed release. */
  method ReleaseAll(st: Store, undo: seq<Borrowed>) returns (next: Outcome<Store>)
    ensures next == Release(st, undo)
  {
    var now := st;
    for i := 0 to |undo|
      invariant Release(st, undo) == Release(now, undo[i..])
    {
      assert undo[i..][1..] == undo[i + 1..];
      var set_ := SetEffective(now, undo[i].name, undo[i].perm);
      if !set_.Ok? {
        return Panic;
      }
      now := set_.value;
    }
    next := Ok(now);
  }

  /** Releases the container in every exit of the loop. */
  method ReleaseExits(raw: seq<Exit>, undo: seq<Borrowed>) returns (r: Option<seq<Exit>>)
    ensures r.None? ==> exists i :: 0 <= i < |raw| && !Release(raw[i].store, undo).Ok?
    ensures r.Some? ==> |r.value| == |raw| && forall i :: 0 <= i < |raw| ==> IsReleased(raw[i], true, undo, r.value[i])
  {
    var exits: seq<Exit> := [];
    for i := 0 to |raw|
      invariant |exits| == i && forall k :: 0 <= k < i ==> IsReleased(raw[k], true, undo, exits[k])
    {
      var next := ReleaseAll(raw[i].store, undo);
      if !next.Ok? {
        return None;
      }
      exits := exits + [StmtExit(next.value, raw[i].branch)];
    }
    r := Some(exits);
  }

  /** A range statement whose container has been evaluated, as `container`, from the store `st`. Unless something
      panics, the exits returned are exactly those of the statement. */
  method VisitRangeStmt(ghost results: seq<Perm>, ghost stmt: Stmt, st: Store, container: Visit, iterate: Iterate,
                        ghost stores: set<Store>)
    returns (r: Option<seq<Exit>>)
    requires stmt.Range? && VisitExpr(st, stmt.x) == Ok(container) && Has(container.perm, READ)
    requires Iterated(results, stmt, container, iterate)
    requires container.st in stores && ClosedUnder(LOOP, Again(iterate), stores)
    ensures r.Some? ==> forall exit: Exit :: exit in r.value <==> HasExit(results, st, stmt, exit)
    ensures r.None? ==>
      || (exists w :: Reachable(LOOP, Again(iterate), container.st, w) && iterate(w.store).None?)
      || (exists raw: Exit :: (raw == StmtExit(st, Normal) || LoopExits(results, stmt, container, raw))
                              && !Release(raw.store, OwnerToDeps(container)).Ok?)
  {
    hide Iterated, VisitedOnce, OutcomesAll, LoopExits, RangeReleases, ClosedUnder, AllUnowned;
    var raw, canRelease, visited := VisitRange(iterate, st, container.st, stores);
    if raw.None? {
      return None;
    }
    var undo := OwnerToDeps(container);
    r := raw;
    if canRelease {
      r := ReleaseExits(raw.value, undo);
      if r.None? {
        ghost var i :| 0 <= i < |raw.value| && !Release(raw.value[i].store, undo).Ok?;
        assert raw.value[i] in raw.value;
        RangeIsExact(results, stmt, container, iterate, visited, raw.value[i]);
      }
    }
    if r.Some? {
      forall exit: Exit
        ensures exit in r.value <==> HasExit(results, st, stmt, exit)
      {
        RangeExit(results, stmt, st, container, iterate, visited, raw.value, canRelease, r.value, exit);
      }
    }
  }

  lemma RangeExit(results: seq<Perm>, stmt: Stmt, st: Store, container: Visit, iterate: Iterate, visited: seq<Work<Store>>,
                  raw: seq<Exit>, canRelease: bool, exits: seq<Exit>, exit: Exit)
    requires stmt.Range? && VisitExpr(st, stmt.x) == Ok(container) && Has(container.perm, READ)
    requires Iterated(results, stmt, container, iterate) && VisitedOnce(LOOP, Again(iterate), container.st, visited)
    requires raw == [StmtExit(st, Normal)] + OutcomesAll(iterate, visited) && canRelease == AllUnowned(iterate, visited)
    requires |exits| == |raw| && forall i :: 0 <= i < |raw| ==> IsReleased(raw[i], canRelease, OwnerToDeps(container), exits[i])
    ensures exit in exits <==> HasExit(results, st, stmt, exit)
  {
    hide Iterated, VisitedOnce, OutcomesAll, LoopExits, RangeReleases, AllUnowned, VisitExpr;
    var undo := OwnerToDeps(container);
    ReleaseIsExact(results, stmt, container, iterate, visited);
    if exit in exits {
      var i :| 0 <= i < |exits| && exits[i] == exit;
      assert raw[i] in raw;
      RangeIsExact(results, stmt, container, iterate, visited, raw[i]);
      assert IsReleased(raw[i], canRelease, undo, exit);
    }
    if HasExit(results, st, stmt, exit) {
      var one: Exit :| (one == StmtExit(st, Normal) || LoopExits(results, stmt, container, one)) && IsReleased(one, canRelease, undo, exit);
      RangeIsExact(results, stmt, container, iterate, visited, one);
      assert one in raw;
      var i :| 0 <= i < |raw| && raw[i] == one;
      assert exits[i] == exit;
    }
  }
}
