/** The worklist run on the statements of the language finds exactly the exits of a statement list. */
module Exploration {
  import opened Wrappers
  import opened Permission
  import opened Stores
  import opened Statements
  import opened Worklist
  import opened Scope

  /** Where `step` does not panic, it returns the exits of the statement. */
  ghost predicate Enumerates(results: seq<Perm>, list: seq<Stmt>, step: StepFunction<Store>) {
    forall st: Store, i: nat | i < |list| && step(st, i).Some? ::
      forall e: Exit :: e in step(st, i).value <==> HasExit(results, st, list[i], e)
  }

  /** No reachable statement panics. */
  ghost predicate NoPanic(list: seq<Stmt>, step: StepFunction<Store>, init: Store) {
    forall w :: Reachable(BlockOf(list), step, init, w) ==> Exits(BlockOf(list), step, w).Some?
  }

  lemma StepIsEdge(results: seq<Perm>, list: seq<Stmt>, step: StepFunction<Store>, v: Work<Store>, w: Work<Store>)
    requires Enumerates(results, list, step) && Exits(BlockOf(list), step, v).Some?
    ensures ListStep(results, list, v, w) <==> Edge(BlockOf(list), step, v, w)
  {
    var es := step(v.store, v.at).value;
    if ListStep(results, list, v, w) {
      var e: Exit :| HasExit(results, v.store, list[v.at], e) && RouteOf(BlockOf(list), v.at, e) == Go(w);
      assert e in es;
      var i :| 0 <= i < |es| && es[i] == e;
    }
    if Edge(BlockOf(list), step, v, w) {
      var i :| 0 <= i < |es| && RouteOf(BlockOf(list), v.at, es[i]) == Go(w);
      assert es[i] in es;
    }
  }

  /** Executions of the list are the paths the worklist follows. */
  lemma {:induction false} PathIsReachable(results: seq<Perm>, list: seq<Stmt>, step: StepFunction<Store>, init: Store,
                                           path: seq<Work<Store>>, last: Work<Store>)
    requires Enumerates(results, list, step) && NoPanic(list, step, init) && IsListPath(results, init, list, path, last)
    ensures Reachable(BlockOf(list), step, init, last)
    decreases |path|
  {
    if |path| == 1 {
      StartReachable(BlockOf(list), step, init, last);
    } else {
      var before := path[|path| - 2];
      assert ListStep(results, list, before, last);
      PathIsReachable(results, list, step, init, path[..|path| - 1], before);
      StepIsEdge(results, list, step, before, last);
      EdgeReachable(BlockOf(list), step, init, before, last);
    }
  }

  lemma {:induction false} ReachableIsPath(results: seq<Perm>, list: seq<Stmt>, step: StepFunction<Store>, init: Store,
                                           path: seq<Work<Store>>)
    requires Enumerates(results, list, step) && NoPanic(list, step, init) && IsPath(BlockOf(list), step, init, path)
    ensures IsListPath(results, init, list, path, path[|path| - 1])
    decreases |path|
  {
    hide HasExit, Enumerates, Edge, BlockOf, Exits;
    BlockIsList(list);
    var last := path[|path| - 1];
    assert Reachable(BlockOf(list), step, init, last);
    if |path| > 1 {
      var before := path[|path| - 2];
      ReachableIsPath(results, list, step, init, path[..|path| - 1]);
      assert Edge(BlockOf(list), step, before, last);
      StepIsEdge(results, list, step, before, last);
      forall k | 0 < k < |path|
        ensures ListStep(results, list, path[k-1], path[k])
      {
        if k < |path| - 1 {
          assert path[..|path| - 1][k] == path[k];
        }
      }
    }
  }

  /** Leaving a block by an exit of the statement language is leaving it by an exit that `step` returns. */
  lemma LeavesIsExit(results: seq<Perm>, list: seq<Stmt>, step: StepFunction<Store>, w: Work<Store>, exit: Exit)
    requires Enumerates(results, list, step) && Exits(BlockOf(list), step, w).Some?
    ensures LeavesBy(BlockOf(list), step, w, exit) <==>
      exists e: Exit :: HasExit(results, w.store, list[w.at], e) && RouteOf(BlockOf(list), w.at, e) == Leave(exit)
  {
    hide HasExit;
    var es := step(w.store, w.at).value;
    if LeavesBy(BlockOf(list), step, w, exit) {
      var i :| 0 <= i < |es| && RouteOf(BlockOf(list), w.at, es[i]) == Leave(exit);
      assert es[i] in es;
    }
    if e: Exit :| HasExit(results, w.store, list[w.at], e) && RouteOf(BlockOf(list), w.at, e) == Leave(exit) {
      assert e in es;
      var i :| 0 <= i < |es| && es[i] == e;
    }
  }

  lemma FoundIsExit(results: seq<Perm>, list: seq<Stmt>, step: StepFunction<Store>, init: Store, w: Work<Store>, exit: Exit)
    requires list != [] && Enumerates(results, list, step) && NoPanic(list, step, init)
    requires Reachable(BlockOf(list), step, init, w) && LeavesBy(BlockOf(list), step, w, exit)
    ensures ListExits(results, init, list, exit)
  {
    LeavesIsExit(results, list, step, w, exit);
    var path :| IsPath(BlockOf(list), step, init, path) && path[|path| - 1] == w;
    ReachableIsPath(results, list, step, init, path);
    hide HasExit, IsListPath, LeavesBy, Enumerates, NoPanic;
    var e: Exit :| HasExit(results, w.store, list[w.at], e) && RouteOf(BlockOf(list), w.at, e) == Leave(exit);
    assert IsListPath(results, init, list, path, w);
  }

  lemma ExitIsFound(results: seq<Perm>, list: seq<Stmt>, step: StepFunction<Store>, init: Store, exit: Exit) returns (w: Work<Store>)
    requires list != [] && Enumerates(results, list, step) && NoPanic(list, step, init) && ListExits(results, init, list, exit)
    ensures Reachable(BlockOf(list), step, init, w) && LeavesBy(BlockOf(list), step, w, exit)
  {
    var path: seq<Work<Store>>, last: Work<Store>, e: Exit :|
      && IsListPath(results, init, list, path, last)
      && HasExit(results, last.store, list[last.at], e)
      && RouteOf(BlockOf(list), last.at, e) == Leave(exit);
    hide HasExit, LeavesBy, Enumerates;
    w := last;
    PathIsReachable(results, list, step, init, path, w);
    LeavesIsExit(results, list, step, w, exit);
  }

  /** What the worklist returns for a statement list is exactly the set of its exits. */
  lemma ExplorationIsExact(results: seq<Perm>, list: seq<Stmt>, step: StepFunction<Store>, init: Store,
                           visited: seq<Work<Store>>, exit: Exit)
    requires list != [] && Enumerates(results, list, step) && VisitedOnce(BlockOf(list), step, init, visited)
    ensures exit in LeavingAll(BlockOf(list), step, visited) <==> ListExits(results, init, list, exit)
  {
    hide ListExits, LeavesBy, Enumerates, Reachable;
    ExitsExact(BlockOf(list), step, init, visited, exit);
    if w :| Reachable(BlockOf(list), step, init, w) && LeavesBy(BlockOf(list), step, w, exit) {
      FoundIsExit(results, list, step, init, w, exit);
    }
    if ListExits(results, init, list, exit) {
      var w := ExitIsFound(results, list, step, init, exit);
    }
  }

  /** Ends the block in every exit. */
  method EndBlocks(inner: seq<Exit>) returns (r: Option<seq<Exit>>)
    ensures r.None? ==> exists i :: 0 <= i < |inner| && !EndBlock(inner[i].store).Ok?
    ensures r.Some? ==> |r.value| == |inner| && forall i :: 0 <= i < |inner| ==> Ends(inner[i], r.value[i])
  {
    var exits: seq<Exit> := [];
    for i := 0 to |inner|
      invariant |exits| == i && forall k :: 0 <= k < i ==> Ends(inner[k], exits[k])
    {
      var outer := EndBlock(inner[i].store);
      if !outer.Ok? {
        return None;
      }
      exits := exits + [StmtExit(outer.value, inner[i].branch)];
    }
    r := Some(exits);
  }

  /** The loop that collects the labels of a list. */
  method CollectLabels(list: seq<Stmt>) returns (labels: map<string, nat>)
    ensures labels == LabelsOf(list)
  {
    labels := map[];
    for k := 0 to |list|
      invariant labels == LabelsOf(list[..k])
    {
      assert list[..k + 1][..k] == list[..k];
      if list[k].Labeled? {
        labels := labels[list[k].label_ := k];
      }
    }
    assert list[..|list|] == list;
  }

  /** The statement at position `k` has the label `name`. */
  predicate LabeledAt(list: seq<Stmt>, k: nat, name: string) {
    k < |list| && list[k].Labeled? && list[k].label_ == name
  }

  /** Every label of the list, with the last position it stands at. */
  lemma {:induction false} LabelsExact(list: seq<Stmt>, name: string)
    ensures name in LabelsOf(list) ==> LabeledAt(list, LabelsOf(list)[name], name)
    ensures forall k: nat :: LabeledAt(list, k, name) ==> name in LabelsOf(list) && k <= LabelsOf(list)[name]
  {
    if list != [] {
      var n := |list| - 1;
      LabelsExact(list[..n], name);
      assert forall k: nat :: k < n ==> LabeledAt(list[..n], k, name) == LabeledAt(list, k, name);
    }
  }

  /** `visitBlockStmt`: the exits returned are exactly those of the block, unless a statement that is reached
      panics. */
  method VisitBlockStmt(ghost results: seq<Perm>, list: seq<Stmt>, st: Store, step: StepFunction<Store>, ghost stores: set<Store>)
    returns (r: Option<seq<Exit>>)
    requires Enumerates(results, list, step)
    requires BeginBlock(st) in stores && ClosedUnder(BlockOf(list), step, stores)
    ensures r.Some? ==> forall exit: Exit :: exit in r.value <==> HasExit(results, st, Stmt.Block(list), exit)
    ensures r.None? ==> exists w :: Reachable(BlockOf(list), step, BeginBlock(st), w) && Exits(BlockOf(list), step, w).None?
  {
    hide ClosedUnder, Enumerates, VisitedOnce, ListExits, BlockOf, LeavingAll, Reachable, Exits, EndBlock;
    var labels := CollectLabels(list);
    var b := Worklist.Block.Block(|list|, labels, false);
    assert b == BlockOf(list) && LabelsInside(b) by { BlockIsList(list); }
    var inner, visited := VisitStmtList(b, step, BeginBlock(st), stores);
    if inner.None? {
      return None;
    }
    BlockEnds(results, list, st, step, visited, inner.value);
    r := EndBlocks(inner.value);
    forall exit: Exit
      ensures exit in r.value <==> HasExit(results, st, Stmt.Block(list), exit)
    {
      BlockExit(results, list, st, step, visited, inner.value, r.value, exit);
    }
  }

  /** The block can be ended in each of its exits. */
  lemma BlockEnds(results: seq<Perm>, list: seq<Stmt>, st: Store, step: StepFunction<Store>, visited: seq<Work<Store>>, inner: seq<Exit>)
    requires Enumerates(results, list, step)
    requires if list == [] then inner == [StmtExit(BeginBlock(st), Normal)]
             else VisitedOnce(BlockOf(list), step, BeginBlock(st), visited) && inner == LeavingAll(BlockOf(list), step, visited)
    ensures forall i :: 0 <= i < |inner| ==> EndBlock(inner[i].store).Ok?
  {
    hide Enumerates, VisitedOnce, LeavingAll, ListExits, EndBlock;
    forall i | 0 <= i < |inner|
      ensures EndBlock(inner[i].store).Ok?
    {
      assert inner[i] in inner;
      ListExact(results, list, BeginBlock(st), step, visited, inner, inner[i]);
      ListKeepsScope(results, BeginBlock(st), list, inner[i]);
      EndGrew(st, inner[i].store);
    }
  }

  lemma BlockIsList(list: seq<Stmt>)
    ensures BlockOf(list) == Worklist.Block.Block(|list|, LabelsOf(list), false) && LabelsInside(BlockOf(list))
  {
  }

  lemma ListExact(results: seq<Perm>, list: seq<Stmt>, init: Store, step: StepFunction<Store>, visited: seq<Work<Store>>,
                  inner: seq<Exit>, e: Exit)
    requires Enumerates(results, list, step)
    requires if list == [] then inner == [StmtExit(init, Normal)]
             else VisitedOnce(BlockOf(list), step, init, visited) && inner == LeavingAll(BlockOf(list), step, visited)
    ensures e in inner <==> ListExits(results, init, list, e)
  {
    hide Enumerates, VisitedOnce, LeavingAll;
    if list != [] {
      hide ListExits;
      ExplorationIsExact(results, list, step, init, visited, e);
    }
  }

  lemma BlockExit(results: seq<Perm>, list: seq<Stmt>, st: Store, step: StepFunction<Store>, visited: seq<Work<Store>>,
                  inner: seq<Exit>, exits: seq<Exit>, exit: Exit)
    requires Enumerates(results, list, step)
    requires if list == [] then inner == [StmtExit(BeginBlock(st), Normal)]
             else VisitedOnce(BlockOf(list), step, BeginBlock(st), visited) && inner == LeavingAll(BlockOf(list), step, visited)
    requires |exits| == |inner| && forall i :: 0 <= i < |inner| ==> Ends(inner[i], exits[i])
    ensures exit in exits <==> HasExit(results, st, Stmt.Block(list), exit)
  {
    hide Enumerates, VisitedOnce, LeavingAll, ListExits, Ends;
    if exit in exits {
      var i :| 0 <= i < |exits| && exits[i] == exit;
      assert inner[i] in inner;
      ListExact(results, list, BeginBlock(st), step, visited, inner, inner[i]);
      assert Ends(inner[i], exit);
    }
    if HasExit(results, st, Stmt.Block(list), exit) {
      var one := InnerExit(results, st, list, exit);
      ListExact(results, list, BeginBlock(st), step, visited, inner, one);
      var i :| 0 <= i < |inner| && inner[i] == one;
      SameEnd(one, exit, exits[i]);
    }
  }

  lemma InnerExit(results: seq<Perm>, st: Store, list: seq<Stmt>, exit: Exit) returns (inner: Exit)
    requires HasExit(results, st, Stmt.Block(list), exit)
    ensures ListExits(results, BeginBlock(st), list, inner) && Ends(inner, exit)
  {
    inner :| ListExits(results, BeginBlock(st), list, inner) && Ends(inner, exit);
  }

  lemma SameEnd(inner: Exit, a: Exit, b: Exit)
    requires Ends(inner, a) && Ends(inner, b)
    ensures a == b
  {
  }

  // ----- where exits lead

  /** A goto leads to the last statement with its label, or out of the list if there is none. */
  lemma GotoLeads(list: seq<Stmt>, at: nat, st: Store, name: string)
    ensures match RouteOf(BlockOf(list), at, StmtExit(st, Goto(name)))
      case Go(w) => w.store == st && LabeledAt(list, w.at, name) && forall k: nat :: LabeledAt(list, k, name) ==> k <= w.at
      case Leave(e) => e == StmtExit(st, Goto(name)) && forall k: nat :: !LabeledAt(list, k, name)
  {
    LabelsExact(list, name);
  }

  /** The end of a statement leads to the next one, or out of the list; returns, breaks and continues leave it. */
  lemma OthersLead(list: seq<Stmt>, at: nat, e: Exit)
    requires at < |list| && !e.branch.Goto?
    ensures RouteOf(BlockOf(list), at, e) ==
      if e.branch.Normal? && at + 1 < |list| then Go(Work(e.store, at + 1)) else Leave(e)
  {
  }

  /** In a switch the end of a clause, and a break without a label, leave it normally; fallthrough leads to the next
      clause. */
  lemma ClausesLead(b: Worklist.Block, at: nat, st: Store)
    requires b.isSwitch
    ensures RouteOf(b, at, StmtExit(st, Normal)) == Leave(StmtExit(st, Normal))
    ensures RouteOf(b, at, StmtExit(st, Break(""))) == Leave(StmtExit(st, Normal))
    ensures RouteOf(b, at, StmtExit(st, Fallthrough)) == Go(Work(st, at + 1))
  {
  }
}
