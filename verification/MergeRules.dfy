/** Merging and conversion of possibly cyclic permissions, one step at a time. */
module MergeRules {
  import opened BasePermission
  import opened Permission
  import opened Convert
  import opened Merge
  import opened Graph

  /** One merge, or with a base permission as goal one conversion; the key of the memo table. */
  datatype Key = Key(perm: Ref, goal: Ref, action: Action)

  predicate KeyInHeap(h: Heap, k: Key) {
    InHeap(k.perm, |h|) && InHeap(k.goal, |h|)
  }

  /** What the rules ask for: to fail, to return an existing permission, or to build a new structure whose
      parts are the results of further merges. */
  datatype Plan = Fail | Share(r: Ref) | Build(kind: Kind, base: Rights, subs: seq<Key>)

  /** The base permission of a reference; a wildcard has none. */
  function RefBase(h: Heap, r: Ref): Rights
    requires InHeap(r, |h|) && !r.OfWildcard?
  {
    match r
    case OfBase(b) => b
    case OfNil => OWNED_MUTABLE
    case At(c) => h[c].base
  }

  /** Conversion asks these parts for a base permission they do not have. */
  predicate NoPartBase(c: Cell, strict: bool) {
    AsksBase(c.kind, strict) && exists i :: 0 <= i < |c.parts| && c.parts[i].OfWildcard?
  }

  function RefGoal(h: Heap, kind: Kind, goal: Rights, part: Ref, strict: bool): Rights
    requires InHeap(part, |h|) && (AsksBase(kind, strict) ==> !part.OfWildcard?)
  {
    if kind.Pointer? && !strict then StripTarget(goal, RefBase(h, part))
    else if kind.Func? || kind.Interface? then RefBase(h, part)
    else goal
  }

  /** The rules for converting to a base permission. */
  function ConvertPlan(h: Heap, perm: Ref, goal: Rights, action: Action): Plan
    requires Closed(h) && InHeap(perm, |h|)
  {
    match perm
    case OfBase(_) => Share(OfBase(goal))
    case OfWildcard => Share(OfBase(goal))
    case OfNil => Share(OfNil)
    case At(c) =>
      var strict := action.StrictConversion?;
      if NoPartBase(h[c], strict) then Fail
      else
        Build(h[c].kind, goal, seq(|h[c].parts|, i requires 0 <= i < |h[c].parts| =>
          Key(h[c].parts[i], OfBase(RefGoal(h, h[c].kind, goal, h[c].parts[i], strict)), action)))
  }

  /** The rules for merging. */
  function PlanOf(h: Heap, k: Key): Plan
    requires Closed(h) && KeyInHeap(h, k)
  {
    if IsConversion(k.action) && !k.perm.OfBase? && k.goal.OfBase? then ConvertPlan(h, k.perm, k.goal.rights, k.action)
    else if k.goal.OfWildcard? then Share(k.perm)
    else
      match k.perm
      case OfBase(x) => if k.goal.OfBase? then Share(OfBase(MergeBase(k.action, x, k.goal.rights))) else Fail
      case OfWildcard => Share(k.goal)
      case OfNil => if k.goal.OfNil? || (k.goal.At? && Nilable(h[k.goal.cell].kind)) then Share(k.goal) else Fail
      case At(c) =>
        match k.goal
        case OfNil => if Nilable(h[c].kind) then Share(k.perm) else Fail
        case At(d) =>
          if !SameArity(h[c].kind, |h[c].parts|, h[d].kind, |h[d].parts|) then Fail
          else
            Build(h[c].kind, MergeBase(HeadAction(h[c].kind, k.action), h[c].base, h[d].base),
              seq(|h[c].parts|, i requires 0 <= i < |h[c].parts| =>
                Key(h[c].parts[i], h[d].parts[i], PartAction(h[c].kind, i, k.action))))
        case _ => Fail
  }

  lemma SubsInHeap(h: Heap, k: Key)
    requires Closed(h) && KeyInHeap(h, k) && PlanOf(h, k).Build?
    ensures k.perm.At? && |PlanOf(h, k).subs| == |h[k.perm.cell].parts| && PlanOf(h, k).kind == h[k.perm.cell].kind
    ensures forall i :: 0 <= i < |PlanOf(h, k).subs| ==> KeyInHeap(h, PlanOf(h, k).subs[i])
  {
  }

  // ----- the rules and the trees

  /** The merge is defined on the trees seen to this depth. */
  ghost predicate TreeMergeable(h: Heap, k: Key, depth: nat)
    requires Closed(h) && KeyInHeap(h, k)
  {
    Mergeable(Unfold(h, k.perm, depth), Unfold(h, k.goal, depth), k.action)
  }

  ghost function TreeMerged(h: Heap, k: Key, depth: nat): Perm
    requires Closed(h) && KeyInHeap(h, k) && TreeMergeable(h, k, depth)
  {
    Merged(Unfold(h, k.perm, depth), Unfold(h, k.goal, depth), k.action)
  }

  /** A rule that fails makes the merge of the trees undefined, at every depth that shows parts. */
  lemma FailTrees(h: Heap, k: Key, depth: nat)
    requires Closed(h) && KeyInHeap(h, k) && PlanOf(h, k).Fail? && depth > 0
    ensures !TreeMergeable(h, k, depth)
  {
    if k.perm.At? && k.goal.OfBase? && IsConversion(k.action) {
      var c := h[k.perm.cell];
      var i :| 0 <= i < |c.parts| && c.parts[i].OfWildcard?;
      assert Unfold(h, k.perm, depth).parts[i].Wildcard?;
    }
  }

  /** A rule that returns an existing permission returns the merge of the trees. */
  lemma ShareTrees(h: Heap, k: Key, depth: nat)
    requires Closed(h) && KeyInHeap(h, k) && PlanOf(h, k).Share?
    ensures InHeap(PlanOf(h, k).r, |h|)
    ensures TreeMergeable(h, k, depth) && TreeMerged(h, k, depth) == Unfold(h, PlanOf(h, k).r, depth)
  {
  }

  /** At depth zero a rule that builds a structure builds the merge of the trees. */
  lemma BuildRoot(h: Heap, k: Key)
    requires Closed(h) && KeyInHeap(h, k) && PlanOf(h, k).Build?
    ensures TreeMergeable(h, k, 0) && TreeMerged(h, k, 0) == Node(PlanOf(h, k).kind, PlanOf(h, k).base, [])
  {
  }

  /** The head of the merged trees. */
  lemma BuildHead(h: Heap, k: Key, depth: nat)
    requires Closed(h) && KeyInHeap(h, k) && PlanOf(h, k).Build? && TreeMergeable(h, k, depth + 1)
    ensures var m, plan := TreeMerged(h, k, depth + 1), PlanOf(h, k);
      m.Node? && m.kind == plan.kind && m.base == plan.base && |m.parts| == |plan.subs|
  {
  }

  /** The parts of the merged trees are the merges the rule asks for, one level up. */
  lemma BuildParts(h: Heap, k: Key, depth: nat, i: nat)
    requires Closed(h) && KeyInHeap(h, k) && PlanOf(h, k).Build? && i < |PlanOf(h, k).subs|
    ensures KeyInHeap(h, PlanOf(h, k).subs[i])
    ensures TreeMergeable(h, k, depth + 1) ==>
      && TreeMergeable(h, PlanOf(h, k).subs[i], depth)
      && TreeMerged(h, k, depth + 1).Node?
      && |TreeMerged(h, k, depth + 1).parts| == |PlanOf(h, k).subs|
      && TreeMerged(h, k, depth + 1).parts[i] == TreeMerged(h, PlanOf(h, k).subs[i], depth)
  {
  }

  lemma BuildMergeable(h: Heap, k: Key, depth: nat)
    requires Closed(h) && KeyInHeap(h, k) && PlanOf(h, k).Build?
    requires forall i :: 0 <= i < |PlanOf(h, k).subs| ==>
      KeyInHeap(h, PlanOf(h, k).subs[i]) && TreeMergeable(h, PlanOf(h, k).subs[i], depth)
    ensures TreeMergeable(h, k, depth + 1)
  {
    var a, b := Unfold(h, k.perm, depth + 1), Unfold(h, k.goal, depth + 1);
    var subs := PlanOf(h, k).subs;
    if k.goal.OfBase? {
      forall i | 0 <= i < |a.parts|
        ensures Convertible(a.parts[i], k.action.StrictConversion?)
      {
        assert TreeMergeable(h, subs[i], depth);
      }
    } else {
      forall i | 0 <= i < |a.parts|
        ensures Mergeable(a.parts[i], b.parts[i], PartAction(a.kind, i, k.action))
      {
        assert TreeMergeable(h, subs[i], depth);
      }
    }
  }
}
