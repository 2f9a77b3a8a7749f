/** Merging and conversion as the program computes them: a depth-first search that allocates each structure
    of the result, records it as the answer, and only then fills it in. */
module MergeMemo {
  import opened BasePermission
  import opened Permission
  import opened Convert
  import opened Merge
  import opened Graph
  import opened MergeRules

  /** Failed stands for the returned error and for the panic of a wildcard asked for its base permission. */
  datatype Result = Done(r: Ref) | Failed

  // ----- the heap under construction

  /** `r` is the answer for `k`: given by the rules, or recorded. */
  predicate Resolves(g: Heap, state: map<Key, Ref>, k: Key, r: Ref)
    requires Closed(g) && KeyInHeap(g, k)
  {
    match PlanOf(g, k)
    case Fail => false
    case Share(s) => r == s
    case Build(_, _, _) => k in state && state[k] == r
  }

  /** `parts` answer the first `|parts|` of the merges in `subs`. */
  predicate PartsResolve(g: Heap, state: map<Key, Ref>, subs: seq<Key>, parts: seq<Ref>)
    requires Closed(g)
  {
    |parts| <= |subs| && forall i :: 0 <= i < |parts| ==> KeyInHeap(g, subs[i]) && Resolves(g, state, subs[i], parts[i])
  }

  /** The structure recorded for `k` has been filled in. */
  predicate Complete(g: Heap, h: Heap, state: map<Key, Ref>, k: Key)
    requires Closed(g) && KeyInHeap(g, k) && PlanOf(g, k).Build?
    requires k in state && InHeap(state[k], |h|) && state[k].At?
  {
    var c, plan := h[state[k].cell], PlanOf(g, k);
    c.kind == plan.kind && c.base == plan.base && |c.parts| == |plan.subs| && PartsResolve(g, state, plan.subs, c.parts)
  }

  /** Every recorded answer is a cell of its own beyond the original heap, and every such cell an answer. */
  ghost predicate Registered(g: Heap, h: Heap, state: map<Key, Ref>)
    requires Closed(g)
  {
    && (forall j: nat | |g| <= j < |h| :: At(j) in state.Values)
    && (forall k <- state :: KeyInHeap(g, k) && PlanOf(g, k).Build? && state[k].At? && |g| <= state[k].cell < |h|)
    && (forall k <- state, q <- state :: state[k] == state[q] ==> k == q)
  }

  /** The original heap is intact, and every structure whose construction is not under way is complete. */
  ghost predicate Good(g: Heap, h: Heap, state: map<Key, Ref>, open: set<Key>) {
    && Closed(g) && Closed(h) && g <= h
    && Registered(g, h, state)
    && open <= state.Keys
    && (forall k <- state :: k in open || Complete(g, h, state, k))
  }

  /** Later, all cells and answers are still there, unchanged. */
  ghost predicate Extends(h: Heap, state: map<Key, Ref>, later: Heap, laterState: map<Key, Ref>) {
    h <= later && state.Keys <= laterState.Keys && forall k <- state :: laterState[k] == state[k]
  }

  lemma PartsStayResolved(g: Heap, state: map<Key, Ref>, laterState: map<Key, Ref>, subs: seq<Key>, parts: seq<Ref>)
    requires Closed(g) && PartsResolve(g, state, subs, parts)
    requires state.Keys <= laterState.Keys && forall k <- state :: laterState[k] == state[k]
    ensures PartsResolve(g, laterState, subs, parts)
  {
  }

  /** Recording a fresh empty structure as the answer for `k`. */
  lemma Register(g: Heap, h: Heap, state: map<Key, Ref>, open: set<Key>, k: Key, c: Cell)
    requires Good(g, h, state, open) && KeyInHeap(g, k) && PlanOf(g, k).Build? && k !in state && c.parts == []
    ensures Good(g, h + [c], state[k := At(|h|)], open + {k})
    ensures Extends(h, state, h + [c], state[k := At(|h|)])
  {
    var later := state[k := At(|h|)];
    forall j: nat | |g| <= j < |h + [c]|
      ensures At(j) in later.Values
    {
      if j < |h| {
        assert At(j) in state.Values;
        var q :| q in state && state[q] == At(j);
        assert later[q] == At(j);
      } else {
        assert later[k] == At(j);
      }
    }
    forall q <- later | q !in open + {k}
      ensures Complete(g, h + [c], later, q)
    {
      PartsStayResolved(g, state, later, PlanOf(g, q).subs, h[state[q].cell].parts);
    }
  }

  /** Filling in a structure under construction. */
  lemma FillIn(g: Heap, h: Heap, state: map<Key, Ref>, open: set<Key>, k: Key, c: Cell)
    requires Good(g, h, state, open) && k in open && k in state && state[k].At? && state[k].cell < |h|
    requires forall i :: 0 <= i < |c.parts| ==> InHeap(c.parts[i], |h|)
    ensures Good(g, h[state[k].cell := c], state, open)
  {
    var later := h[state[k].cell := c];
    forall q <- state | q !in open
      ensures Complete(g, later, state, q)
    {
      assert state[q] != state[k];
    }
  }

  /** A filled-in structure is no longer under construction. */
  lemma Finish(g: Heap, h: Heap, state: map<Key, Ref>, open: set<Key>, k: Key)
    requires Good(g, h, state, open) && k in open && k in state && KeyInHeap(g, k) && PlanOf(g, k).Build?
    requires state[k].At? && state[k].cell < |h|
    requires Complete(g, h, state, k)
    ensures Good(g, h, state, open - {k})
  {
  }

  /** The answer to a merge is a permission of the heap. */
  lemma ResolvesInHeap(g: Heap, h: Heap, state: map<Key, Ref>, open: set<Key>, k: Key, r: Ref)
    requires Good(g, h, state, open) && KeyInHeap(g, k) && Resolves(g, state, k, r)
    ensures InHeap(r, |h|)
  {
    if PlanOf(g, k).Share? {
      ShareTrees(g, k, 0);
    }
  }

  // ----- the finished heap and the trees

  /** A complete structure whose parts unfold to the merges of the trees unfolds to the merge of the trees. */
  lemma CompleteTrees(g: Heap, h: Heap, k: Key, r: Ref, depth: nat)
    requires Closed(g) && Closed(h) && KeyInHeap(g, k) && PlanOf(g, k).Build? && InHeap(r, |h|) && r.At?
    requires var c, plan := h[r.cell], PlanOf(g, k);
      c.kind == plan.kind && c.base == plan.base && |c.parts| == |plan.subs|
    requires forall i :: 0 <= i < |PlanOf(g, k).subs| ==>
      && KeyInHeap(g, PlanOf(g, k).subs[i]) && TreeMergeable(g, PlanOf(g, k).subs[i], depth)
      && Unfold(h, h[r.cell].parts[i], depth) == TreeMerged(g, PlanOf(g, k).subs[i], depth)
    ensures TreeMergeable(g, k, depth + 1) && Unfold(h, r, depth + 1) == TreeMerged(g, k, depth + 1)
  {
    hide TreeMerged, TreeMergeable;
    BuildMergeable(g, k, depth);
    BuildHead(g, k, depth);
    var merged, built := TreeMerged(g, k, depth + 1), Unfold(h, r, depth + 1);
    forall i | 0 <= i < |merged.parts|
      ensures merged.parts[i] == built.parts[i]
    {
      BuildParts(g, k, depth, i);
    }
    assert merged.parts == built.parts;
  }

  /** Once nothing is under construction, every answer unfolds to the merge of the trees, at every depth. */
  lemma {:induction false} ResolvesTrees(g: Heap, h: Heap, state: map<Key, Ref>, k: Key, r: Ref, depth: nat)
    requires Good(g, h, state, {}) && KeyInHeap(g, k) && Resolves(g, state, k, r)
    ensures InHeap(r, |h|) && TreeMergeable(g, k, depth) && Unfold(h, r, depth) == TreeMerged(g, k, depth)
    decreases depth
  {
    hide TreeMerged, TreeMergeable;
    ResolvesInHeap(g, h, state, {}, k, r);
    if PlanOf(g, k).Share? {
      ShareTrees(g, k, depth);
      UnfoldExtends(g, h, r, depth);
    } else if depth == 0 {
      BuildRoot(g, k);
    } else {
      var subs, parts := PlanOf(g, k).subs, h[r.cell].parts;
      assert Complete(g, h, state, k);
      forall i | 0 <= i < |subs|
        ensures KeyInHeap(g, subs[i]) && TreeMergeable(g, subs[i], depth - 1)
        ensures Unfold(h, parts[i], depth - 1) == TreeMerged(g, subs[i], depth - 1)
      {
        ResolvesTrees(g, h, state, subs[i], parts[i], depth - 1);
      }
      CompleteTrees(g, h, k, r, depth - 1);
    }
  }

  // ----- failure

  /** The merge is undefined on the trees seen to some depth: some merge that can be reached is impossible. */
  ghost predicate Fails(g: Heap, k: Key)
    requires Closed(g) && KeyInHeap(g, k)
  {
    exists depth: nat :: !TreeMergeable(g, k, depth)
  }

  lemma FailHere(g: Heap, k: Key)
    requires Closed(g) && KeyInHeap(g, k) && PlanOf(g, k).Fail?
    ensures Fails(g, k)
  {
    FailTrees(g, k, 1);
  }

  lemma FailPart(g: Heap, k: Key, i: nat)
    requires Closed(g) && KeyInHeap(g, k) && PlanOf(g, k).Build? && i < |PlanOf(g, k).subs|
    requires KeyInHeap(g, PlanOf(g, k).subs[i]) && Fails(g, PlanOf(g, k).subs[i])
    ensures Fails(g, k)
  {
    var depth: nat :| !TreeMergeable(g, PlanOf(g, k).subs[i], depth);
    BuildParts(g, k, depth, i);
    assert !TreeMergeable(g, k, depth + 1);
  }

  // ----- the memoised search

  function Keys(h: Heap): (keys: set<Key>)
    ensures forall k: Key :: k in keys <==> KeyInHeap(h, k)
  {
    var keys := set a <- Refs(h), b <- Refs(h), action: Action | true :: Key(a, b, action);
    assert forall k: Key | KeyInHeap(h, k) :: k in keys by {
      forall k: Key | KeyInHeap(h, k)
        ensures k in keys
      {
        assert k == Key(k.perm, k.goal, k.action) && k.perm in Refs(h) && k.goal in Refs(h);
      }
    }
    keys
  }

  lemma SameCells(g: Heap, h: Heap, state: map<Key, Ref>, open: set<Key>)
    requires Good(g, h, state, open)
    ensures Closed(g) && Closed(h) && |g| <= |h| && forall c :: 0 <= c < |g| ==> h[c] == g[c]
  {
  }

  class MergeState {
    ghost const original: Heap
    var heap: Heap
    var state: map<Key, Ref>
    ghost var open: set<Key>  // structures under construction

    constructor (h: Heap)
      requires Closed(h)
      ensures original == heap == h && state == map[] && open == {}
      ensures Ready()
    {
      original, heap, state, open := h, h, map[], {};
    }

    ghost predicate Ready()
      reads this
    {
      Good(original, heap, state, open)
    }

    /** Nothing that existed before has changed, and the same structures are under construction. */
    twostate predicate Grown()
      reads this
    {
      Extends(old(heap), old(state), heap, state) && open == old(open)
    }

    /** The structure for `k` is cell `next`; its first `n` parts are filled in. */
    ghost predicate UnderConstruction(k: Key, next: nat, n: nat)
      reads this
    {
      && Ready() && KeyInHeap(original, k) && PlanOf(original, k).Build?
      && k in open && k in state && state[k] == At(next) && next < |heap|
      && heap[next].kind == PlanOf(original, k).kind && heap[next].base == PlanOf(original, k).base
      && |heap[next].parts| == n && PartsResolve(original, state, PlanOf(original, k).subs, heap[next].parts)
    }

    /** Allocates an empty structure and records it as the answer for `k`. */
    method Allocate(k: Key, kind: Kind, base: Rights) returns (next: nat)
      requires Ready() && KeyInHeap(original, k) && k !in state
      requires PlanOf(original, k).Build? && kind == PlanOf(original, k).kind && base == PlanOf(original, k).base
      modifies this
      ensures next == |old(heap)| && open == old(open) + {k} && k !in old(open)
      ensures UnderConstruction(k, next, 0) && Extends(old(heap), old(state), heap, state)
    {
      next := |heap|;
      Register(original, heap, state, open, k, Cell(kind, base, []));
      heap := heap + [Cell(kind, base, [])];
      state := state[k := At(next)];
      open := open + {k};
    }

    /** Fills in part `n` of the structure for `k` with the answer to its merge. */
    method FillPart(k: Key, next: nat, n: nat, r: Ref)
      requires UnderConstruction(k, next, n) && n < |PlanOf(original, k).subs|
      requires KeyInHeap(original, PlanOf(original, k).subs[n]) && Resolves(original, state, PlanOf(original, k).subs[n], r)
      modifies this`heap
      ensures UnderConstruction(k, next, n + 1)
      ensures |heap| == |old(heap)| && forall j :: 0 <= j < |heap| && j != next ==> heap[j] == old(heap)[j]
    {
      ResolvesInHeap(original, heap, state, open, PlanOf(original, k).subs[n], r);
      var c := heap[next].(parts := heap[next].parts + [r]);
      FillIn(original, heap, state, open, k, c);
      heap := heap[next := c];
    }

    ghost method Finished(k: Key, next: nat, n: nat)
      requires UnderConstruction(k, next, n) && n == |PlanOf(original, k).subs|
      modifies this`open
      ensures Ready() && Resolves(original, state, k, At(next)) && open == old(open) - {k}
    {
      Finish(original, heap, state, open, k);
      open := open - {k};
    }

    /** Two structures merged part by part. */
    method MergeStructures(k: Key) returns (o: Result)
      requires Ready() && KeyInHeap(original, k) && k !in state && k.perm.At? && k.goal.At?
      modifies this
      ensures o.Done? ==> Ready() && Grown() && Resolves(original, state, k, o.r)
      ensures o.Failed? ==> Fails(original, k)
      decreases Keys(original) - state.Keys, 0
    {
      hide Good, Fails, PartsResolve;
      SameCells(original, heap, state, open);
      var p, p2 := heap[k.perm.cell], heap[k.goal.cell];
      if !SameArity(p.kind, |p.parts|, p2.kind, |p2.parts|) {
        FailHere(original, k);
        return Failed;
      }
      assert k in Keys(original);
      var next := Allocate(k, p.kind, MergeBase(HeadAction(p.kind, k.action), p.base, p2.base));
      for i := 0 to |p.parts|
        invariant UnderConstruction(k, next, i) && next == |old(heap)| && open == old(open) + {k}
        invariant Extends(old(heap), old(state), heap, state)
      {
        var part := Key(p.parts[i], p2.parts[i], PartAction(p.kind, i, k.action));
        assert part == PlanOf(original, k).subs[i];
        SubsInHeap(original, k);
        ghost var known := state;
        o := Merge(part);
        if o.Failed? {
          FailPart(original, k, i);
          return;
        }
        PartsStayResolved(original, known, state, PlanOf(original, k).subs, heap[next].parts);
        FillPart(k, next, i, o.r);
      }
      Finished(k, next, |p.parts|);
      o := Done(At(next));
    }

    /** A structure converted to a base permission part by part. */
    method ConvertStructure(k: Key) returns (o: Result)
      requires Ready() && KeyInHeap(original, k) && k !in state
      requires k.perm.At? && k.goal.OfBase? && IsConversion(k.action)
      modifies this
      ensures o.Done? ==> Ready() && Grown() && Resolves(original, state, k, o.r)
      ensures o.Failed? ==> Fails(original, k)
      decreases Keys(original) - state.Keys, 0
    {
      hide Good, Fails, PartsResolve;
      SameCells(original, heap, state, open);
      var p, strict := heap[k.perm.cell], k.action.StrictConversion?;
      if NoPartBase(p, strict) {
        FailHere(original, k);
        return Failed;
      }
      assert k in Keys(original);
      var next := Allocate(k, p.kind, k.goal.rights);
      for i := 0 to |p.parts|
        invariant UnderConstruction(k, next, i) && next == |old(heap)| && open == old(open) + {k}
        invariant Extends(old(heap), old(state), heap, state)
      {
        SameCells(original, heap, state, open);
        var goal := RefGoal(heap, p.kind, k.goal.rights, p.parts[i], strict);
        assert Key(p.parts[i], OfBase(goal), k.action) == PlanOf(original, k).subs[i];
        SubsInHeap(original, k);
        ghost var known := state;
        o := ConvertToBase(p.parts[i], goal, k.action);
        if o.Failed? {
          FailPart(original, k, i);
          return;
        }
        PartsStayResolved(original, known, state, PlanOf(original, k).subs, heap[next].parts);
        FillPart(k, next, i, o.r);
      }
      Finished(k, next, |p.parts|);
      o := Done(At(next));
    }

    /** `convertToBase` */
    method ConvertToBase(perm: Ref, goal: Rights, action: Action) returns (o: Result)
      requires Ready() && InHeap(perm, |original|) && IsConversion(action)
      modifies this
      ensures o.Done? ==> Ready() && Grown() && Resolves(original, state, Key(perm, OfBase(goal), action), o.r)
      ensures o.Failed? ==> Fails(original, Key(perm, OfBase(goal), action))
      decreases Keys(original) - state.Keys, 1
    {
      var k := Key(perm, OfBase(goal), action);
      if k in state {
        return Done(state[k]);
      }
      match perm
      case OfBase(_) => o := Done(OfBase(goal));
      case OfWildcard => o := Done(OfBase(goal));
      case OfNil => o := Done(OfNil);
      case At(_) => o := ConvertStructure(k);
    }

    /** `merge` */
    method Merge(k: Key) returns (o: Result)
      requires Ready() && KeyInHeap(original, k)
      modifies this
      ensures o.Done? ==> Ready() && Grown() && Resolves(original, state, k, o.r)
      ensures o.Failed? ==> Fails(original, k)
      decreases Keys(original) - state.Keys, 2
    {
      if k in state {
        return Done(state[k]);
      }
      if PlanOf(original, k).Fail? {
        FailHere(original, k);
      }
      SameCells(original, heap, state, open);
      hide Fails;
      if IsConversion(k.action) && !k.perm.OfBase? && k.goal.OfBase? {
        o := ConvertToBase(k.perm, k.goal.rights, k.action);
        return;
      }
      match k.perm
      case OfBase(x) =>
        if k.goal.OfBase? {
          o := Done(OfBase(MergeBase(k.action, x, k.goal.rights)));
        } else {
          o := if k.goal.OfWildcard? then Done(k.perm) else Failed;
        }
      case OfWildcard => o := Done(k.goal);
      case OfNil =>
        if k.goal.OfNil? || (k.goal.At? && Nilable(heap[k.goal.cell].kind)) {
          o := Done(k.goal);
        } else {
          o := if k.goal.OfWildcard? then Done(k.perm) else Failed;
        }
      case At(c) =>
        match k.goal
        case At(_) => o := MergeStructures(k);
        case OfWildcard => o := Done(k.perm);
        case OfNil => o := if Nilable(heap[c].kind) then Done(k.perm) else Failed;
        case OfBase(_) => o := Failed;
    }
  }

  // ----- failure and reachability

  /** Following the merges at the positions in `path` from `k` on leads to an impossible one. */
  ghost predicate Stuck(g: Heap, k: Key, path: seq<nat>)
    requires Closed(g) && KeyInHeap(g, k)
    decreases |path|
  {
    if path == [] then PlanOf(g, k).Fail?
    else
      && PlanOf(g, k).Build? && path[0] < |PlanOf(g, k).subs|
      && KeyInHeap(g, PlanOf(g, k).subs[path[0]]) && Stuck(g, PlanOf(g, k).subs[path[0]], path[1..])
  }

  /** An impossible merge can be reached from `k`. */
  ghost predicate CanGetStuck(g: Heap, k: Key)
    requires Closed(g) && KeyInHeap(g, k)
  {
    exists path :: Stuck(g, k, path)
  }

  lemma {:induction false} StuckFails(g: Heap, k: Key, path: seq<nat>)
    requires Closed(g) && KeyInHeap(g, k) && Stuck(g, k, path)
    ensures Fails(g, k)
    decreases |path|
  {
    if path == [] {
      FailHere(g, k);
    } else {
      StuckFails(g, PlanOf(g, k).subs[path[0]], path[1..]);
      FailPart(g, k, path[0]);
    }
  }

  lemma {:induction false} UndefinedStuck(g: Heap, k: Key, depth: nat) returns (path: seq<nat>)
    requires Closed(g) && KeyInHeap(g, k) && !TreeMergeable(g, k, depth)
    ensures Stuck(g, k, path)
    decreases depth
  {
    hide TreeMergeable;
    if PlanOf(g, k).Fail? {
      path := [];
    } else if PlanOf(g, k).Share? {
      ShareTrees(g, k, depth);
      path := [];
    } else if depth == 0 {
      BuildRoot(g, k);
      path := [];
    } else {
      SubsInHeap(g, k);
      if forall i :: 0 <= i < |PlanOf(g, k).subs| ==> TreeMergeable(g, PlanOf(g, k).subs[i], depth - 1) {
        BuildMergeable(g, k, depth - 1);
        path := [];
      } else {
        var i :| 0 <= i < |PlanOf(g, k).subs| && !TreeMergeable(g, PlanOf(g, k).subs[i], depth - 1);
        var rest := UndefinedStuck(g, PlanOf(g, k).subs[i], depth - 1);
        path := [i] + rest;
      }
    }
  }

  /** A merge fails exactly when an impossible merge can be reached from it. */
  lemma FailsIsReachable(g: Heap, k: Key)
    requires Closed(g) && KeyInHeap(g, k)
    ensures Fails(g, k) <==> CanGetStuck(g, k)
  {
    if Fails(g, k) {
      var depth: nat :| !TreeMergeable(g, k, depth);
      var path := UndefinedStuck(g, k, depth);
    }
    if path: seq<nat> :| Stuck(g, k, path) {
      StuckFails(g, k, path);
    }
  }

  // ----- results are well-shaped

  /** The answer for two functions, or for a function and a base permission, is a function. */
  lemma MethodResolves(g: Heap, h: Heap, state: map<Key, Ref>, k: Key, r: Ref)
    requires Good(g, h, state, {}) && KeyInHeap(g, k) && Resolves(g, state, k, r)
    requires k.perm.At? && g[k.perm.cell].kind.Func? && (k.goal.At? || (k.goal.OfBase? && IsConversion(k.action)))
    ensures r.At? && r.cell < |h| && h[r.cell].kind.Func?
  {
    if PlanOf(g, k).Build? {
      assert Complete(g, h, state, k);
    }
  }

  /** The methods of a new interface are functions. */
  lemma FinishedMethod(g: Heap, h: Heap, state: map<Key, Ref>, k: Key, i: nat)
    requires Valid(g) && Good(g, h, state, {}) && k in state && KeyInHeap(g, k) && PlanOf(g, k).Build?
    requires InHeap(state[k], |h|) && state[k].At?
    requires PlanOf(g, k).kind.Interface? && i < |h[state[k].cell].parts|
    ensures var r := h[state[k].cell].parts[i]; r.At? && r.cell < |h| && h[r.cell].kind.Func?
  {
    SubsInHeap(g, k);
    assert Complete(g, h, state, k) && CellShape(g, g[k.perm.cell]);
    if k.goal.At? {
      assert CellShape(g, g[k.goal.cell]);
    }
    hide Good, Complete, Resolves;
    assert Resolves(g, state, PlanOf(g, k).subs[i], h[state[k].cell].parts[i]) by { CompletePart(g, h, state, k, i); }
    MethodResolves(g, h, state, PlanOf(g, k).subs[i], h[state[k].cell].parts[i]);
  }

  lemma CompletePart(g: Heap, h: Heap, state: map<Key, Ref>, k: Key, i: nat)
    requires Closed(g) && KeyInHeap(g, k) && PlanOf(g, k).Build? && k in state && InHeap(state[k], |h|) && state[k].At?
    requires Complete(g, h, state, k) && i < |h[state[k].cell].parts|
    ensures Resolves(g, state, PlanOf(g, k).subs[i], h[state[k].cell].parts[i])
  {
  }

  /** All structures of a finished heap have the parts their kind asks for. */
  lemma FinishedValid(g: Heap, h: Heap, state: map<Key, Ref>)
    requires Valid(g) && Good(g, h, state, {})
    ensures Valid(h)
  {
    hide PlanOf;
    forall j: nat | j < |h|
      ensures CellShape(h, h[j])
    {
      if j < |g| {
        assert h[j] == g[j] && CellShape(g, g[j]);
      } else {
        assert At(j) in state.Values;
        var k :| k in state && state[k] == At(j);
        SubsInHeap(g, k);
        assert Complete(g, h, state, k) && CellShape(g, g[k.perm.cell]);
        if h[j].kind.Interface? {
          forall i | 0 <= i < |h[j].parts|
            ensures h[j].parts[i].At? && h[j].parts[i].cell < |h| && h[h[j].parts[i].cell].kind.Func?
          {
            FinishedMethod(g, h, state, k, i);
          }
        }
      }
    }
  }

  // ----- the operations

  /** `o` in heap `later` is the merge of two possibly cyclic permissions of `h`. It fails exactly when an
      impossible merge can be reached. Otherwise it unfolds, at every depth, to the merge of the trees, and
      the given permissions are untouched. */
  ghost predicate IsMerge(h: Heap, k: Key, o: Result, later: Heap)
    requires Closed(h) && KeyInHeap(h, k)
  {
    && (o.Failed? <==> CanGetStuck(h, k))
    && (o.Done? ==>
          && h <= later && Closed(later) && (Valid(h) ==> Valid(later)) && InHeap(o.r, |later|)
          && forall depth: nat :: TreeMergeable(h, k, depth) && Unfold(later, o.r, depth) == TreeMerged(h, k, depth))
  }

  lemma MergeIsMerge(h: Heap, later: Heap, state: map<Key, Ref>, k: Key, o: Result)
    requires Closed(h) && KeyInHeap(h, k)
    requires o.Done? ==> Good(h, later, state, {}) && Resolves(h, state, k, o.r)
    requires o.Failed? ==> Fails(h, k)
    ensures IsMerge(h, k, o, later)
  {
    FailsIsReachable(h, k);
    if o.Done? {
      ResolvesInHeap(h, later, state, {}, k, o.r);
      forall depth: nat
        ensures TreeMergeable(h, k, depth) && Unfold(later, o.r, depth) == TreeMerged(h, k, depth)
      {
        ResolvesTrees(h, later, state, k, o.r, depth);
      }
      if Valid(h) {
        FinishedValid(h, later, state);
      }
    }
  }

  method RunMerge(h: Heap, k: Key) returns (o: Result, later: Heap)
    requires Closed(h) && KeyInHeap(h, k)
    ensures IsMerge(h, k, o, later)
  {
    var state := new MergeState(h);
    o := state.Merge(k);
    later := state.heap;
    MergeIsMerge(h, later, state.state, k, o);
  }

  method Intersect(h: Heap, a: Ref, b: Ref) returns (o: Result, later: Heap)
    requires Closed(h) && InHeap(a, |h|) && InHeap(b, |h|)
    ensures IsMerge(h, Key(a, b, Intersection), o, later)
  {
    o, later := RunMerge(h, Key(a, b, Intersection));
  }

  method Unite(h: Heap, a: Ref, b: Ref) returns (o: Result, later: Heap)
    requires Closed(h) && InHeap(a, |h|) && InHeap(b, |h|)
    ensures IsMerge(h, Key(a, b, Union), o, later)
  {
    o, later := RunMerge(h, Key(a, b, Union));
  }

  method ConvertTo(h: Heap, perm: Ref, goal: Ref) returns (o: Result, later: Heap)
    requires Closed(h) && InHeap(perm, |h|) && InHeap(goal, |h|)
    ensures IsMerge(h, Key(perm, goal, Conversion), o, later)
  {
    o, later := RunMerge(h, Key(perm, goal, Conversion));
  }

  /** `o` in heap `later` is a conversion of a possibly cyclic permission of `h` to a base permission. */
  ghost predicate IsConverted(h: Heap, perm: Ref, goal: Rights, strict: bool, o: Result, later: Heap)
    requires Closed(h) && InHeap(perm, |h|)
  {
    && (o.Failed? <==> exists depth: nat :: !Convertible(Unfold(h, perm, depth), strict))
    && (o.Done? ==>
          && h <= later && Closed(later) && (Valid(h) ==> Valid(later)) && InHeap(o.r, |later|)
          && forall depth: nat :: Convertible(Unfold(h, perm, depth), strict)
               && Unfold(later, o.r, depth) == Convert.ConvertToBase(Unfold(h, perm, depth), goal, strict))
  }

  /** Converting to a base permission is merging with it. */
  lemma ConvertIsMerge(h: Heap, perm: Ref, goal: Rights, action: Action, depth: nat)
    requires Closed(h) && InHeap(perm, |h|) && IsConversion(action)
    ensures var k, tree := Key(perm, OfBase(goal), action), Unfold(h, perm, depth);
      && (TreeMergeable(h, k, depth) <==> Convertible(tree, action.StrictConversion?))
      && (TreeMergeable(h, k, depth) ==> TreeMerged(h, k, depth) == Convert.ConvertToBase(tree, goal, action.StrictConversion?))
  {
  }

  /** `ConvertToBase` and, when `strict`, `StrictConvertToBase`. */
  method ConvertRef(h: Heap, perm: Ref, goal: Rights, strict: bool) returns (o: Result, later: Heap)
    requires Closed(h) && InHeap(perm, |h|)
    ensures IsConverted(h, perm, goal, strict, o, later)
  {
    var action := if strict then StrictConversion else Conversion;
    var state := new MergeState(h);
    o := state.ConvertToBase(perm, goal, action);
    later := state.heap;
    MergeIsMerge(h, later, state.state, Key(perm, OfBase(goal), action), o);
    forall depth: nat
      ensures var k, tree := Key(perm, OfBase(goal), action), Unfold(h, perm, depth);
        && (TreeMergeable(h, k, depth) <==> Convertible(tree, strict))
        && (TreeMergeable(h, k, depth) ==> TreeMerged(h, k, depth) == Convert.ConvertToBase(tree, goal, strict))
    {
      ConvertIsMerge(h, perm, goal, action, depth);
    }
    if o.Failed? {
      assert Fails(h, Key(perm, OfBase(goal), action));
    }
  }
}
