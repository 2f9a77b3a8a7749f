/** The worklist that explores every path through a list of statements. It is generic in the store and in
    what one statement does to it. */
module Worklist {

  import opened Wrappers

  /** How control leaves a statement: normally, or by a branch that some enclosing statement handles. An
      empty label stands for the innermost statement. */
  datatype Branch = Normal | Return | Break(target: string) | Continue(target: string) | Goto(target: string) | Fallthrough

  datatype StmtExit<S> = StmtExit(store: S, branch: Branch)

  /** A store, and the index of the statement to run in it. */
  datatype Work<S> = Work(store: S, at: nat)

  /** What one statement does: its exits, or None if the interpreter panics. */
  type StepFunction<!S> = (S, nat) -> Option<seq<StmtExit<S>>>

  /** A statement list: its length, the positions of its labels, and whether its statements are the clauses of
      a switch. */
  datatype Block = Block(length: nat, labels: map<string, nat>, isSwitch: bool)

  datatype Route<S> = Go(work: Work<S>) | Leave(exit: StmtExit<S>)

  /** Where an exit of the statement at position `at` leads: to another statement, or out of the block. */
  function RouteOf<S>(b: Block, at: nat, e: StmtExit<S>): Route<S> {
    match e.branch
    case Normal => if at + 1 < b.length && !b.isSwitch then Go(Work(e.store, at + 1)) else Leave(StmtExit(e.store, Normal))
    case Return => Leave(e)
    case Break(target) => if b.isSwitch && target == "" then Leave(StmtExit(e.store, Normal)) else Leave(e)
    case Continue(_) => Leave(e)
    case Goto(target) => if target in b.labels then Go(Work(e.store, b.labels[target])) else Leave(e)
    case Fallthrough => if b.isSwitch then Go(Work(e.store, at + 1)) else Leave(e)
  }

  /** The exits of the statement at `w`; running past the end of the list panics. */
  function Exits<S(!new)>(b: Block, step: StepFunction<S>, w: Work<S>): Option<seq<StmtExit<S>>> {
    if w.at < b.length then step(w.store, w.at) else None
  }

  /** The exits that leave the block, in order. */
  function Leaving<S>(b: Block, at: nat, es: seq<StmtExit<S>>): seq<StmtExit<S>> {
    if es == [] then []
    else
      var last := RouteOf(b, at, es[|es| - 1]);
      Leaving(b, at, es[..|es| - 1]) + if last.Leave? then [last.exit] else []
  }

  /** Where execution of the list starts: at every clause of a switch, otherwise at the first statement. */
  predicate Starts<S(==)>(b: Block, init: S, w: Work<S>) {
    w.store == init && w.at < b.length && (b.isSwitch || w.at == 0)
  }

  ghost predicate Edge<S(!new)>(b: Block, step: StepFunction<S>, v: Work<S>, w: Work<S>) {
    var es := Exits(b, step, v);
    es.Some? && exists i :: 0 <= i < |es.value| && RouteOf(b, v.at, es.value[i]) == Go(w)
  }

  ghost predicate IsPath<S(!new)>(b: Block, step: StepFunction<S>, init: S, path: seq<Work<S>>) {
    && path != [] && Starts(b, init, path[0])
    && forall k :: 0 < k < |path| ==> Edge(b, step, path[k-1], path[k])
  }

  /** Some execution of the block gets to `w`. */
  ghost predicate Reachable<S(!new)>(b: Block, step: StepFunction<S>, init: S, w: Work<S>) {
    exists path :: IsPath(b, step, init, path) && path[|path| - 1] == w
  }

  lemma StartReachable<S(!new)>(b: Block, step: StepFunction<S>, init: S, w: Work<S>)
    requires Starts(b, init, w)
    ensures Reachable(b, step, init, w)
  {
    assert IsPath(b, step, init, [w]);
  }

  lemma EdgeReachable<S(!new)>(b: Block, step: StepFunction<S>, init: S, v: Work<S>, w: Work<S>)
    requires Reachable(b, step, init, v) && Edge(b, step, v, w)
    ensures Reachable(b, step, init, w)
  {
    var path :| IsPath(b, step, init, path) && path[|path| - 1] == v;
    assert IsPath(b, step, init, path + [w]);
  }

  /** A set that contains the starts and everything an edge leads to contains everything reachable. */
  lemma {:induction false} ClosedReachable<S(!new)>(b: Block, step: StepFunction<S>, init: S, path: seq<Work<S>>, all: seq<Work<S>>)
    requires IsPath(b, step, init, path)
    requires forall w :: Starts(b, init, w) ==> w in all
    requires forall v, w :: v in all && Edge(b, step, v, w) ==> w in all
    ensures path[|path| - 1] in all
    decreases |path|
  {
    if |path| > 1 {
      ClosedReachable(b, step, init, path[..|path| - 1], all);
      assert Edge(b, step, path[|path| - 2], path[|path| - 1]);
    }
  }

  class BlockManager<S(==, !new)> {
    var todo: seq<Work<S>>
    var seen: seq<Work<S>>
    var exits: seq<StmtExit<S>>

    constructor ()
      ensures todo == [] && seen == [] && exits == []
    {
      todo, seen, exits := [], [], [];
    }

    method IsDuplicate(start: Work<S>) returns (duplicate: bool)
      modifies this`seen
      ensures duplicate == (start in old(seen))
      ensures seen == if duplicate then old(seen) else old(seen) + [start]
    {
      for i := 0 to |seen|
        invariant seen == old(seen) && start !in seen[..i]
      {
        if seen[i] == start {
          return true;
        }
      }
      seen := seen + [start];
      duplicate := false;
    }

    method NextWork() returns (w: Work<S>)
      requires todo != []
      modifies this`todo
      ensures todo + [w] == old(todo)
    {
      w := todo[|todo| - 1];
      todo := todo[..|todo| - 1];
    }

    method AddWork(w: Work<S>)
      modifies this`todo, this`seen
      ensures seen == if w in old(seen) then old(seen) else old(seen) + [w]
      ensures todo == if w in old(seen) then old(todo) else old(todo) + [w]
    {
      var duplicate := IsDuplicate(w);
      if !duplicate {
        todo := todo + [w];
      }
    }

    method AddExit(e: StmtExit<S>)
      modifies this`exits
      ensures exits == old(exits) + [e]
    {
      exits := exits + [e];
    }
  }

  // ----- the exploration

  /** The exits of the block from the visited works, in order of the visits. */
  function LeavingAll<S(!new)>(b: Block, step: StepFunction<S>, visited: seq<Work<S>>): seq<StmtExit<S>> {
    if visited == [] then []
    else
      var w := visited[|visited| - 1];
      var es := Exits(b, step, w);
      LeavingAll(b, step, visited[..|visited| - 1]) + if es.Some? then Leaving(b, w.at, es.value) else []
  }

  /** All works that can come up: the given stores at the positions of the list, and one past its end. */
  function Universe<S>(b: Block, stores: set<S>): set<Work<S>> {
    set s <- stores, i: nat | i <= b.length :: Work(s, i)
  }

  /** The stores are closed under what statements do. */
  ghost predicate ClosedUnder<S(!new)>(b: Block, step: StepFunction<S>, stores: set<S>) {
    forall s: S, i: nat :: s in stores && i < b.length && step(s, i).Some? ==>
      forall k :: 0 <= k < |step(s, i).value| ==> step(s, i).value[k].store in stores
  }

  predicate LabelsInside(b: Block) {
    forall name <- b.labels :: b.labels[name] < b.length
  }

  /** Every work ever added was added once and for a reason, and waits or has been visited; what the first
      `done` visited works lead to has been added. */
  ghost predicate Explored<S(!new)>(b: Block, step: StepFunction<S>, init: S, seen: seq<Work<S>>, todo: seq<Work<S>>,
                                    visited: seq<Work<S>>, done: nat)
  {
    && done <= |visited|
    && multiset(seen) == multiset(visited) + multiset(todo)
    && (forall w :: multiset(seen)[w] <= 1)
    && (forall w :: w in seen ==> Reachable(b, step, init, w))
    && (forall v, w :: v in visited[..done] && Edge(b, step, v, w) ==> w in seen)
    && (forall v :: v in visited ==> Exits(b, step, v).Some?)
  }

  /** When nothing waits any more, every reachable work has been visited once, and no other. */
  lemma ExploredAll<S(!new)>(b: Block, step: StepFunction<S>, init: S, seen: seq<Work<S>>, visited: seq<Work<S>>, w: Work<S>)
    requires Explored(b, step, init, seen, [], visited, |visited|)
    requires forall w :: Starts(b, init, w) ==> w in seen
    ensures multiset(visited)[w] == if Reachable(b, step, init, w) then 1 else 0
    ensures Reachable(b, step, init, w) ==> Exits(b, step, w).Some?
  {
    assert visited[..|visited|] == visited;
    assert multiset(visited) == multiset(seen);
    assert forall w :: w in visited <==> multiset(visited)[w] > 0;
    assert forall w :: w in seen <==> multiset(seen)[w] > 0;
    if Reachable(b, step, init, w) {
      var path :| IsPath(b, step, init, path) && path[|path| - 1] == w;
      ClosedReachable(b, step, init, path, visited);
    }
  }

  /** Every reachable work has been visited exactly once, no other has, and none of them panicked. */
  ghost predicate VisitedOnce<S(!new)>(b: Block, step: StepFunction<S>, init: S, visited: seq<Work<S>>) {
    && (forall w :: multiset(visited)[w] == if Reachable(b, step, init, w) then 1 else 0)
    && (forall w :: Reachable(b, step, init, w) ==> Exits(b, step, w).Some?)
  }

  lemma ExploredOnce<S(!new)>(b: Block, step: StepFunction<S>, init: S, seen: seq<Work<S>>, visited: seq<Work<S>>)
    requires Explored(b, step, init, seen, [], visited, |visited|)
    requires forall w :: Starts(b, init, w) ==> w in seen
    ensures VisitedOnce(b, step, init, visited)
  {
    forall w
      ensures multiset(visited)[w] == if Reachable(b, step, init, w) then 1 else 0
      ensures Reachable(b, step, init, w) ==> Exits(b, step, w).Some?
    {
      ExploredAll(b, step, init, seen, visited, w);
    }
  }

  /** Adding a reachable work, unless it has been added before. */
  lemma Added<S(!new)>(b: Block, step: StepFunction<S>, init: S, seen: seq<Work<S>>, todo: seq<Work<S>>,
                       visited: seq<Work<S>>, done: nat, w: Work<S>)
    requires Explored(b, step, init, seen, todo, visited, done) && Reachable(b, step, init, w) && w !in seen
    ensures Explored(b, step, init, seen + [w], todo + [w], visited, done)
  {
    assert multiset(seen)[w] == 0;
  }

  /** Taking a work to visit. */
  lemma Taken<S(!new)>(b: Block, step: StepFunction<S>, init: S, seen: seq<Work<S>>, todo: seq<Work<S>>,
                       visited: seq<Work<S>>, w: Work<S>)
    requires Explored(b, step, init, seen, todo + [w], visited, |visited|)
    ensures w in seen && w !in visited && Reachable(b, step, init, w)
    ensures Exits(b, step, w).Some? ==> Explored(b, step, init, seen, todo, visited + [w], |visited|)
  {
    assert multiset(todo + [w]) == multiset(todo) + multiset{w};
    assert multiset(visited + [w]) == multiset(visited) + multiset{w};
    assert multiset(seen)[w] == 1 && multiset(visited)[w] == 0;
    assert (visited + [w])[..|visited|] == visited;
  }

  /** All exits of the visited work have been followed. */
  lemma Followed<S(!new)>(b: Block, step: StepFunction<S>, init: S, seen: seq<Work<S>>, todo: seq<Work<S>>,
                          visited: seq<Work<S>>, w: Work<S>)
    requires Explored(b, step, init, seen, todo, visited + [w], |visited|)
    requires Exits(b, step, w).Some? && AllSeen(b, w, Exits(b, step, w).value, seen)
    ensures Explored(b, step, init, seen, todo, visited + [w], |visited + [w]|)
  {
    assert (visited + [w])[..|visited|] == visited;
    assert (visited + [w])[..|visited + [w]|] == visited + [w];
  }

  /** All starts have been added, and nothing but works on the given stores. */
  ghost predicate Bounded<S(!new)>(b: Block, init: S, stores: set<S>, seen: seq<Work<S>>) {
    (forall w :: Starts(b, init, w) ==> w in seen) && (forall w :: w in seen ==> w in Universe(b, stores))
  }

  lemma InUniverse<S(!new)>(b: Block, init: S, stores: set<S>, seen: seq<Work<S>>, w: Work<S>)
    requires Bounded(b, init, stores, seen) && w in seen
    ensures w in Universe(b, stores)
  {
  }

  /** The exits `es` of the visited work `w` lead to works in `seen`. */
  ghost predicate AllSeen<S(!new)>(b: Block, w: Work<S>, es: seq<StmtExit<S>>, seen: seq<Work<S>>) {
    forall k :: 0 <= k < |es| ==> var route := RouteOf(b, w.at, es[k]); route.Go? ==> route.work in seen
  }

  /** Follows the exits of the visited work `w`: each leads to another work or leaves the block. */
  method FollowExits<S(==, !new)>(bm: BlockManager<S>, b: Block, step: StepFunction<S>, w: Work<S>, es: seq<StmtExit<S>>,
                                  ghost init: S, ghost stores: set<S>, ghost visited: seq<Work<S>>)
    requires ClosedUnder(b, step, stores) && LabelsInside(b) && w in Universe(b, stores)
    requires Exits(b, step, w) == Some(es) && Reachable(b, step, init, w)
    requires Explored(b, step, init, bm.seen, bm.todo, visited + [w], |visited|) && Bounded(b, init, stores, bm.seen)
    modifies bm
    ensures Explored(b, step, init, bm.seen, bm.todo, visited + [w], |visited|) && Bounded(b, init, stores, bm.seen)
    ensures AllSeen(b, w, es, bm.seen)
    ensures bm.exits == old(bm.exits) + Leaving(b, w.at, es)
  {
    hide Explored, Reachable, Edge, ClosedUnder, Exits, RouteOf, LabelsInside, Universe;
    for i := 0 to |es|
      invariant Explored(b, step, init, bm.seen, bm.todo, visited + [w], |visited|) && Bounded(b, init, stores, bm.seen)
      invariant AllSeen(b, w, es[..i], bm.seen)
      invariant bm.exits == old(bm.exits) + Leaving(b, w.at, es[..i])
    {
      assert es[..i + 1][..i] == es[..i] && es[..i + 1][i] == es[i];
      match RouteOf(b, w.at, es[i])
      case Go(next) =>
        NextReachable(b, step, init, w, es, i, next);
        if next !in bm.seen {
          Added(b, step, init, bm.seen, bm.todo, visited + [w], |visited|, next);
        }
        NextInUniverse(b, step, stores, w, es, i, next);
        bm.AddWork(next);
      case Leave(e) =>
        bm.AddExit(e);
    }
    assert es[..|es|] == es;
  }

  lemma NextInUniverse<S(!new)>(b: Block, step: StepFunction<S>, stores: set<S>, w: Work<S>, es: seq<StmtExit<S>>, i: nat, next: Work<S>)
    requires ClosedUnder(b, step, stores) && LabelsInside(b) && w in Universe(b, stores)
    requires Exits(b, step, w) == Some(es) && i < |es| && RouteOf(b, w.at, es[i]) == Go(next)
    ensures next in Universe(b, stores)
  {
    assert es[i].store in stores;
  }

  lemma NextReachable<S(!new)>(b: Block, step: StepFunction<S>, init: S, w: Work<S>, es: seq<StmtExit<S>>, i: nat, next: Work<S>)
    requires Exits(b, step, w) == Some(es) && Reachable(b, step, init, w) && i < |es| && RouteOf(b, w.at, es[i]) == Go(next)
    ensures Reachable(b, step, init, next)
  {
    assert Edge(b, step, w, next);
    EdgeReachable(b, step, init, w, next);
  }

  /** Adds the works execution starts at; a switch may also be left without running any clause. */
  method AddStarts<S(==, !new)>(b: Block, init: S, ghost step: StepFunction<S>, ghost stores: set<S>) returns (bm: BlockManager<S>)
    requires b.length > 0 && init in stores
    ensures fresh(bm)
    ensures Explored(b, step, init, bm.seen, bm.todo, [], 0) && Bounded(b, init, stores, bm.seen)
    ensures bm.exits == if b.isSwitch then [StmtExit(init, Normal)] else []
  {
    hide Explored, Reachable, Edge, Bounded;
    bm := new BlockManager<S>();
    NothingExplored(b, step, init);
    if b.isSwitch {
      bm.AddExit(StmtExit(init, Normal));
      for i := 0 to b.length
        invariant Explored(b, step, init, bm.seen, bm.todo, [], 0) && bm.exits == [StmtExit(init, Normal)]
        invariant forall w :: w in bm.seen <==> w.store == init && w.at < i
      {
        StartReachable(b, step, init, Work(init, i));
        Added(b, step, init, bm.seen, bm.todo, [], 0, Work(init, i));
        bm.AddWork(Work(init, i));
      }
    } else {
      StartReachable(b, step, init, Work(init, 0));
      Added(b, step, init, bm.seen, bm.todo, [], 0, Work(init, 0));
      bm.AddWork(Work(init, 0));
    }
    StartsBounded(b, init, stores, bm.seen);
  }

  lemma NothingExplored<S(!new)>(b: Block, step: StepFunction<S>, init: S)
    ensures Explored(b, step, init, [], [], [], 0)
  {
  }

  lemma StartsBounded<S(!new)>(b: Block, init: S, stores: set<S>, seen: seq<Work<S>>)
    requires init in stores && forall w :: w in seen <==> Starts(b, init, w)
    ensures Bounded(b, init, stores, seen)
  {
  }

  /** The works that can still come up. */
  ghost function Remaining<S(!new)>(b: Block, stores: set<S>, visited: seq<Work<S>>): set<Work<S>> {
    Universe(b, stores) - (set w | w in visited)
  }

  lemma VisitShrinks<S(!new)>(b: Block, stores: set<S>, visited: seq<Work<S>>, w: Work<S>)
    requires w in Universe(b, stores) && w !in visited
    ensures Remaining(b, stores, visited + [w]) < Remaining(b, stores, visited)
  {
    assert w in Remaining(b, stores, visited);
    assert Remaining(b, stores, visited + [w]) == Remaining(b, stores, visited) - {w};
  }

  /** One visit: the exploration has one more visited work, and less to do. */
  lemma VisitDone<S(!new)>(b: Block, step: StepFunction<S>, init: S, stores: set<S>, seen: seq<Work<S>>, todo: seq<Work<S>>,
                           visited: seq<Work<S>>, w: Work<S>)
    requires Explored(b, step, init, seen, todo, visited + [w], |visited|)
    requires Exits(b, step, w).Some? && AllSeen(b, w, Exits(b, step, w).value, seen)
    requires w in Universe(b, stores) && w !in visited
    ensures Explored(b, step, init, seen, todo, visited + [w], |visited + [w]|)
    ensures Remaining(b, stores, visited + [w]) < Remaining(b, stores, visited)
    ensures LeavingAll(b, step, visited + [w]) == LeavingAll(b, step, visited) + Leaving(b, w.at, Exits(b, step, w).value)
  {
    Followed(b, step, init, seen, todo, visited, w);
    VisitShrinks(b, stores, visited, w);
    assert (visited + [w])[..|visited|] == visited;
  }

  /** Takes the next work, runs its statement and follows the exits. */
  method VisitNext<S(==, !new)>(bm: BlockManager<S>, b: Block, step: StepFunction<S>,
                                ghost init: S, ghost stores: set<S>, ghost visited: seq<Work<S>>, ghost first: seq<StmtExit<S>>)
    returns (panicked: bool, ghost w: Work<S>)
    requires bm.todo != [] && ClosedUnder(b, step, stores) && LabelsInside(b)
    requires Explored(b, step, init, bm.seen, bm.todo, visited, |visited|) && Bounded(b, init, stores, bm.seen)
    requires bm.exits == first + LeavingAll(b, step, visited)
    modifies bm
    ensures panicked ==> Reachable(b, step, init, w) && Exits(b, step, w).None?
    ensures !panicked ==>
      && Explored(b, step, init, bm.seen, bm.todo, visited + [w], |visited + [w]|) && Bounded(b, init, stores, bm.seen)
      && Remaining(b, stores, visited + [w]) < Remaining(b, stores, visited)
    ensures !panicked ==> bm.exits == first + LeavingAll(b, step, visited + [w])
  {
    hide Explored, Reachable, ClosedUnder, Remaining, AllSeen, LeavingAll, Leaving, Bounded, Universe, LabelsInside, Edge, RouteOf;
    var next := bm.NextWork();
    w := next;
    Taken(b, step, init, bm.seen, bm.todo, visited, w);
    InUniverse(b, init, stores, bm.seen, w);
    if next.at >= b.length {
      return true, w;
    }
    var es := step(next.store, next.at);
    if es.None? {
      return true, w;
    }
    FollowExits(bm, b, step, next, es.value, init, stores, visited);
    VisitDone(b, step, init, stores, bm.seen, bm.todo, visited, w);
    panicked := false;
  }

  /** `visitStmtList`: explores the block from the store `init`. It panics only if some reachable statement
      does. Otherwise it visits every reachable work exactly once and returns the exits of those visits that
      leave the block. `stores` is any finite set of stores that is closed under what statements do. */
  method VisitStmtList<S(==, !new)>(b: Block, step: StepFunction<S>, init: S, ghost stores: set<S>)
    returns (r: Option<seq<StmtExit<S>>>, ghost visited: seq<Work<S>>)
    requires init in stores && ClosedUnder(b, step, stores) && LabelsInside(b)
    ensures b.length == 0 ==> r == Some([StmtExit(init, Normal)])
    ensures r.None? ==> exists w :: Reachable(b, step, init, w) && Exits(b, step, w).None?
    ensures r.Some? && b.length > 0 ==>
      && VisitedOnce(b, step, init, visited)
      && r.value == (if b.isSwitch then [StmtExit(init, Normal)] else []) + LeavingAll(b, step, visited)
  {
    hide Explored, Reachable, ClosedUnder, Remaining, Universe, VisitedOnce, LeavingAll;
    visited := [];
    if b.length == 0 {
      return Some([StmtExit(init, Normal)]), [];
    }
    var bm := AddStarts(b, init, step, stores);
    ghost var first := bm.exits;
    NothingLeaves(b, step);
    while bm.todo != []
      invariant Explored(b, step, init, bm.seen, bm.todo, visited, |visited|) && Bounded(b, init, stores, bm.seen)
      invariant bm.exits == first + LeavingAll(b, step, visited)
      decreases Remaining(b, stores, visited)
    {
      var panicked, w := VisitNext(bm, b, step, init, stores, visited, first);
      if panicked {
        return None, visited;
      }
      visited := visited + [w];
    }
    ExploredOnce(b, step, init, bm.seen, visited);
    r := Some(bm.exits);
  }

  lemma NothingLeaves<S(!new)>(b: Block, step: StepFunction<S>)
    ensures LeavingAll(b, step, []) == []
  {
  }

  lemma {:induction false} LeavingExact<S(!new)>(b: Block, at: nat, es: seq<StmtExit<S>>, e: StmtExit<S>)
    ensures e in Leaving(b, at, es) <==> exists i :: 0 <= i < |es| && RouteOf(b, at, es[i]) == Leave(e)
  {
    if es != [] {
      var n := |es| - 1;
      LeavingExact(b, at, es[..n], e);
      assert forall i :: 0 <= i < n ==> es[..n][i] == es[i];
    }
  }

  /** The exits collected from the visits are those by which some visited work leaves the block. */
  lemma {:induction false} LeavingAllExact<S(!new)>(b: Block, step: StepFunction<S>, visited: seq<Work<S>>, e: StmtExit<S>)
    ensures e in LeavingAll(b, step, visited) <==>
      exists w :: w in visited && LeavesBy(b, step, w, e)
  {
    if visited != [] {
      var n := |visited| - 1;
      LeavingAllExact(b, step, visited[..n], e);
      assert visited == visited[..n] + [visited[n]];
      var es := Exits(b, step, visited[n]);
      if es.Some? {
        LeavingExact(b, visited[n].at, es.value, e);
      }
      assert LeavesBy(b, step, visited[n], e) <==> es.Some? && e in Leaving(b, visited[n].at, es.value);
    }
  }

  /** The statement at `w` leaves the block by `e`. */
  ghost predicate LeavesBy<S(!new)>(b: Block, step: StepFunction<S>, w: Work<S>, e: StmtExit<S>) {
    var es := Exits(b, step, w);
    es.Some? && exists i :: 0 <= i < |es.value| && RouteOf(b, w.at, es.value[i]) == Leave(e)
  }

  /** The exits returned for a block are exactly those by which a reachable statement leaves it. */
  lemma ExitsExact<S(!new)>(b: Block, step: StepFunction<S>, init: S, visited: seq<Work<S>>, e: StmtExit<S>)
    requires VisitedOnce(b, step, init, visited)
    ensures e in LeavingAll(b, step, visited) <==> exists w :: Reachable(b, step, init, w) && LeavesBy(b, step, w, e)
  {
    LeavingAllExact(b, step, visited, e);
    assert forall w :: w in visited <==> multiset(visited)[w] > 0;
  }

  // ----- finitely many stores suffice

  lemma {:induction false} PathInUniverse<S(!new)>(b: Block, step: StepFunction<S>, init: S, stores: set<S>, path: seq<Work<S>>)
    requires init in stores && ClosedUnder(b, step, stores) && LabelsInside(b) && IsPath(b, step, init, path)
    ensures path[|path| - 1] in Universe(b, stores)
    decreases |path|
  {
    hide Universe, ClosedUnder, LabelsInside;
    if |path| == 1 {
      assert path[0] in Universe(b, stores) by { StartInUniverse(b, init, stores, path[0]); }
    } else {
      var v, w := path[|path| - 2], path[|path| - 1];
      PathInUniverse(b, step, init, stores, path[..|path| - 1]);
      assert Edge(b, step, v, w);
      var es := Exits(b, step, v).value;
      var i :| 0 <= i < |es| && RouteOf(b, v.at, es[i]) == Go(w);
      NextInUniverse(b, step, stores, v, es, i, w);
    }
  }

  lemma StartInUniverse<S(!new)>(b: Block, init: S, stores: set<S>, w: Work<S>)
    requires init in stores && Starts(b, init, w)
    ensures w in Universe(b, stores)
  {
  }

  /** The elements of a set, each once. */
  lemma {:induction false} Listed<T(!new)>(all: set<T>) returns (list: seq<T>)
    ensures forall x :: multiset(list)[x] == if x in all then 1 else 0
    decreases all
  {
    if all == {} {
      list := [];
    } else {
      var x :| x in all;
      var rest := Listed(all - {x});
      list := rest + [x];
    }
  }

  /** Where the stores are finitely many and no reachable statement panics, a complete visit exists. */
  lemma VisitExists<S(!new)>(b: Block, step: StepFunction<S>, init: S, stores: set<S>) returns (visited: seq<Work<S>>)
    requires init in stores && ClosedUnder(b, step, stores) && LabelsInside(b)
    requires forall w :: Reachable(b, step, init, w) ==> Exits(b, step, w).Some?
    ensures VisitedOnce(b, step, init, visited)
  {
    hide Universe, ClosedUnder, LabelsInside, Exits;
    var all := set w | w in Universe(b, stores) && Reachable(b, step, init, w);
    visited := Listed(all);
    forall w | Reachable(b, step, init, w)
      ensures w in all
    {
      var path :| IsPath(b, step, init, path) && path[|path| - 1] == w;
      PathInUniverse(b, step, init, stores, path);
    }
  }
}
