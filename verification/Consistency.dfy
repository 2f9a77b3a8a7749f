/** Consistent permissions: those that conversion to their own base permission leaves alone. */
module Consistency {
  import opened BasePermission
  import opened Permission
  import opened Convert
  import opened Merge

  /** No function, interface, nil or wildcard anywhere. */
  predicate PlainData(p: Perm) {
    p.Base? || (p.Node? && !p.kind.Func? && !p.kind.Interface? && forall i :: 0 <= i < |p.parts| ==> PlainData(p.parts[i]))
  }

  lemma {:induction false} PlainConvertible(p: Perm, strict: bool)
    requires PlainData(p)
    ensures Convertible(p, strict)
  {
    if p.Node? {
      forall i | 0 <= i < |p.parts|
        ensures Convertible(p.parts[i], strict)
      {
        PlainConvertible(p.parts[i], strict);
      }
    }
  }

  predicate Consistent(p: Perm) {
    !p.Wildcard? && Convertible(p, false) && ConvertToBase(p, BaseOf(p), false) == p
  }

  /** `x` is below `y`: intersecting with `y` gives `x` back. */
  predicate Below(x: Perm, y: Perm) {
    Mergeable(y, x, Intersection) && Merged(y, x, Intersection) == x
  }

  /** The result of a conversion is consistent. */
  lemma ConvertedConsistent(p: Perm, goal: Rights)
    requires Convertible(p, false) && !p.Nil?
    ensures Consistent(ConvertToBase(p, goal, false))
  {
    ConvertToBaseIdempotent(p, goal, false);
  }

  /** The parts of a consistent structure are consistent, and their bases are what conversion asks for. */
  lemma ConsistentParts(p: Perm, i: nat)
    requires p.Node? && PlainData(p) && Consistent(p) && i < |p.parts|
    ensures PlainData(p.parts[i]) && Consistent(p.parts[i])
    ensures BaseOf(p.parts[i]) == PartGoal(p.kind, p.base, p.parts[i], false)
  {
    assert ConvertToBase(p, p.base, false).parts[i] == p.parts[i];
  }

  /** A plain structure is consistent if its parts are, with the bases conversion asks for. */
  lemma ConsistentNode(p: Perm)
    requires p.Node? && PlainData(p)
    requires forall i :: 0 <= i < |p.parts| ==> Consistent(p.parts[i]) && BaseOf(p.parts[i]) == PartGoal(p.kind, p.base, p.parts[i], false)
    ensures Consistent(p)
  {
    PlainConvertible(p, false);
    assert ConvertToBase(p, p.base, false).parts == p.parts;
  }

  lemma StripMeets(a: Rights, b: Rights, x: Rights, y: Rights)
    requires x == StripTarget(a, x) && y == StripTarget(b, y)
    ensures And(x, y) == StripTarget(And(a, b), And(x, y))
  {
  }

  /** The intersection of consistent plain data is consistent plain data. */
  lemma {:induction false} IntersectionConsistent(a: Perm, b: Perm)
    requires PlainData(a) && PlainData(b) && Consistent(a) && Consistent(b) && Mergeable(a, b, Intersection)
    ensures var m := Merged(a, b, Intersection);
      PlainData(m) && Consistent(m) && BaseOf(m) == And(BaseOf(a), BaseOf(b))
  {
    if a.Node? {
      var m := Merged(a, b, Intersection);
      forall i | 0 <= i < |a.parts|
        ensures PlainData(m.parts[i]) && Consistent(m.parts[i])
        ensures BaseOf(m.parts[i]) == PartGoal(m.kind, m.base, m.parts[i], false)
      {
        ConsistentParts(a, i);
        ConsistentParts(b, i);
        IntersectionConsistent(a.parts[i], b.parts[i]);
        if a.kind.Pointer? {
          StripMeets(a.base, b.base, BaseOf(a.parts[i]), BaseOf(b.parts[i]));
        }
      }
      ConsistentNode(m);
    }
  }

  /** Converting consistent plain data to fewer rights only removes rights. */
  lemma {:induction false} ConvertedBelow(p: Perm, goal: Rights)
    requires PlainData(p) && Consistent(p) && Within(goal, BaseOf(p))
    ensures Below(ConvertToBase(p, goal, false), p)
  {
    if p.Node? {
      var q := ConvertToBase(p, goal, false);
      forall i | 0 <= i < |p.parts|
        ensures Below(q.parts[i], p.parts[i])
      {
        ConsistentParts(p, i);
        PartGoalWithin(p, i, goal);
        ConvertedBelow(p.parts[i], PartGoal(p.kind, goal, p.parts[i], false));
      }
      PartsBelow(p, q);
    }
  }

  /** A plain structure with fewer rights and smaller parts is smaller. */
  lemma PartsBelow(p: Perm, q: Perm)
    requires p.Node? && PlainData(p) && q.Node? && q.kind == p.kind && |q.parts| == |p.parts| && Within(q.base, p.base)
    requires forall i :: 0 <= i < |p.parts| ==> Below(q.parts[i], p.parts[i])
    ensures Below(q, p)
  {
    assert Mergeable(p, q, Intersection);
    assert Merged(p, q, Intersection).parts == q.parts;
  }

  // ----- linearity

  /** No base permission anywhere is linear. */
  predicate NowhereLinear(p: Perm) {
    match p
    case Base(b) => !Linear(b)
    case Node(_, b, parts) => !Linear(b) && forall i :: 0 <= i < |parts| ==> NowhereLinear(parts[i])
    case _ => true
  }

  /** Exclusive reading comes with reading, everywhere. */
  predicate Orderly(p: Perm) {
    match p
    case Base(b) => b.xr ==> b.r
    case Node(_, b, parts) => (b.xr ==> b.r) && forall i :: 0 <= i < |parts| ==> Orderly(parts[i])
    case _ => true
  }

  /** Some linear target is kept by conversion: it is behind a pointer that is, after conversion,
      exclusively readable. `exclusive` says so of the place `p` is at. */
  predicate KeepsLinear(p: Perm, exclusive: bool)
    requires PlainData(p)
  {
    p.Node? &&
      if p.kind.Pointer? then
        exists i :: 0 <= i < |p.parts| &&
          assert PlainData(p.parts[i]);
          var target := BaseOf(p.parts[i]);
          if exclusive then Linear(target) || KeepsLinear(p.parts[i], target.xr)
          else KeepsLinear(p.parts[i], target.xr && !target.r)
      else exists i :: 0 <= i < |p.parts| && KeepsLinear(p.parts[i], exclusive)
  }

  /** Converting to a base that is not linear leaves nothing linear, exactly when no target is kept. */
  lemma {:induction false} ConvertedNowhereLinear(p: Perm, goal: Rights)
    requires PlainData(p) && !Linear(goal)
    ensures Convertible(p, false)
    ensures NowhereLinear(ConvertToBase(p, goal, false)) <==> !KeepsLinear(p, goal.xr)
  {
    PlainConvertible(p, false);
    if p.Node? {
      var q := ConvertToBase(p, goal, false);
      forall i | 0 <= i < |p.parts|
        ensures
          var target, part := BaseOf(p.parts[i]), p.parts[i];
          NowhereLinear(q.parts[i]) <==>
            !(if !p.kind.Pointer? then KeepsLinear(part, goal.xr)
              else if goal.xr then Linear(target) || KeepsLinear(part, target.xr)
              else KeepsLinear(part, target.xr && !target.r))
      {
        var partGoal := PartGoal(p.kind, goal, p.parts[i], false);
        if Linear(partGoal) {
          assert BaseOf(q.parts[i]) == partGoal;
        } else {
          ConvertedNowhereLinear(p.parts[i], partGoal);
        }
      }
      assert NowhereLinear(q) <==> forall i :: 0 <= i < |p.parts| ==> NowhereLinear(q.parts[i]);
    }
  }

  /** Nothing is kept where exclusive reading always comes with reading. */
  lemma {:induction false} OrderlyKeepsNothing(p: Perm)
    requires PlainData(p) && Orderly(p)
    ensures !KeepsLinear(p, false)
  {
    if p.Node? {
      forall i | 0 <= i < |p.parts|
        ensures !KeepsLinear(p.parts[i], false)
        ensures BaseOf(p.parts[i]).xr ==> BaseOf(p.parts[i]).r
      {
        OrderlyKeepsNothing(p.parts[i]);
      }
    }
  }

  /** Elsewhere a linear right can be kept: behind a pointer whose target may be read exclusively but not
      read, a second target stays linear when the first pointer loses all its rights. */
  lemma DisorderKeepsLinear()
    ensures var inner := Node(Pointer, Rights(true, false, false, true, false), [Base(OWNED_MUTABLE)]);
      var p := Node(Pointer, OWNED_MUTABLE, [inner]);
      PlainData(p) && KeepsLinear(p, false)
  {
    var inner := Node(Pointer, Rights(true, false, false, true, false), [Base(OWNED_MUTABLE)]);
    var p := Node(Pointer, OWNED_MUTABLE, [inner]);
    assert PlainData(inner.parts[0]) && PlainData(inner) && p.parts[0] == inner;
    assert Linear(BaseOf(inner.parts[0])) && KeepsLinear(inner, true);
    assert BaseOf(p.parts[0]).xr && !BaseOf(p.parts[0]).r;
  }

  /** Intersecting with anything that merges keeps it so. */
  lemma {:induction false} IntersectionNowhereLinear(m: Perm, p: Perm)
    requires PlainData(p) && NowhereLinear(p) && Mergeable(m, p, Intersection)
    ensures NowhereLinear(Merged(m, p, Intersection))
  {
    if m.Node? && p.Node? {
      forall i | 0 <= i < |m.parts|
        ensures NowhereLinear(Merged(m.parts[i], p.parts[i], Intersection))
      {
        IntersectionNowhereLinear(m.parts[i], p.parts[i]);
      }
    }
  }

  // ----- linearity, functions included

  /** What is left in the closure of a function with maximum `m`: the closures of functions are united. */
  function ClosureLeft(m: Perm, goal: Rights): Rights {
    if m.Node? then Or(m.base, goal) else goal
  }

  function PartOf(m: Perm, i: nat): Perm {
    if m.Node? && i < |m.parts| then m.parts[i] else Wildcard
  }

  /** Converting `p` to `goal` within the maximum `m` leaves something linear: the goal that reaches some place,
      the closure of a function in the maximum, or whatever is linear in the signatures of functions and methods,
      which conversion does not touch. */
  predicate LeavesLinear(m: Perm, p: Perm, goal: Rights)
    requires Convertible(p, false)
    decreases p
  {
    match p
    case Nil => false
    case Base(_) | Wildcard => Linear(goal)
    case Node(kind, _, parts) =>
      || Linear(if kind.Func? then ClosureLeft(m, goal) else goal)
      || exists i :: 0 <= i < |parts| &&
           if kind.Func? || kind.Interface? then !NowhereLinear(parts[i])
           else LeavesLinear(PartOf(m, i), parts[i], PartGoal(kind, goal, parts[i], false))
  }

  /** Every part of a consistent structure is consistent, and outside functions and interfaces its base is what
      conversion asks for. */
  lemma ConsistentPart(p: Perm, i: nat)
    requires p.Node? && Consistent(p) && i < |p.parts|
    ensures Consistent(p.parts[i])
    ensures p.parts[i].Nil? || BaseOf(p.parts[i]) == PartGoal(p.kind, p.base, p.parts[i], false)
    ensures ConvertToBase(p.parts[i], PartGoal(p.kind, p.base, p.parts[i], false), false) == p.parts[i]
  {
    var q := ConvertToBase(p, p.base, false);
    assert q.parts[i] == ConvertToBase(p.parts[i], PartGoal(p.kind, p.base, p.parts[i], false), false);
  }

  lemma BelowPart(m: Perm, p: Perm, i: nat)
    requires p.Node? && Below(p, m) && i < |p.parts|
    ensures !p.kind.Func? ==> Below(p.parts[i], PartOf(m, i))
    ensures m.Node? ==> |m.parts| == |p.parts| && Mergeable(m.parts[i], p.parts[i], PartAction(m.kind, i, Intersection))
                        && Merged(m.parts[i], p.parts[i], PartAction(m.kind, i, Intersection)) == p.parts[i]
    ensures m.Node? ==> m.kind == p.kind || (m.kind.Func? && p.kind.Func?)
  {
    if m.Node? {
      assert Merged(m, p, Intersection).parts[i] == Merged(m.parts[i], p.parts[i], PartAction(m.kind, i, Intersection));
    }
  }

  /** Fewer rights for a structure are fewer rights for its parts. */
  lemma PartGoalWithin(p: Perm, i: nat, goal: Rights)
    requires p.Node? && Consistent(p) && i < |p.parts| && Within(goal, p.base)
    ensures p.parts[i].Nil? || Within(PartGoal(p.kind, goal, p.parts[i], false), BaseOf(p.parts[i]))
  {
    ConsistentPart(p, i);
  }

  /** Part `i` of the limited conversion of `p`. */
  function LimitedPart(m: Perm, p: Perm, goal: Rights, i: nat): Perm
    requires p.Node? && i < |p.parts| && Convertible(p, false)
    requires m.Node? ==> i < |m.parts| && Mergeable(m.parts[i], ConvertToBase(p, goal, false).parts[i], PartAction(m.kind, i, Intersection))
  {
    var part := ConvertToBase(p, goal, false).parts[i];
    if m.Node? then Merged(m.parts[i], part, PartAction(m.kind, i, Intersection)) else part
  }

  /** What `LeavesLinear` says of part `i` is so. */
  predicate PartExact(m: Perm, p: Perm, goal: Rights, i: nat)
    requires p.Node? && i < |p.parts| && Convertible(p, false)
  {
    && (m.Node? ==> i < |m.parts| && Mergeable(m.parts[i], ConvertToBase(p, goal, false).parts[i], PartAction(m.kind, i, Intersection)))
    && (NowhereLinear(LimitedPart(m, p, goal, i)) <==>
          if p.kind.Func? || p.kind.Interface? then NowhereLinear(p.parts[i])
          else !LeavesLinear(PartOf(m, i), p.parts[i], PartGoal(p.kind, goal, p.parts[i], false)))
  }

  lemma LimitedShape(m: Perm, p: Perm, goal: Rights)
    requires p.Node? && Consistent(p) && Below(p, m) && Within(goal, p.base)
    requires forall i :: 0 <= i < |p.parts| ==> PartExact(m, p, goal, i)
    ensures Mergeable(m, ConvertToBase(p, goal, false), Intersection)
    ensures var r := Merged(m, ConvertToBase(p, goal, false), Intersection);
      && r.Node? && |r.parts| == |p.parts| && r.base == (if p.kind.Func? then ClosureLeft(m, goal) else goal)
      && forall i :: 0 <= i < |p.parts| ==> PartExact(m, p, goal, i) && r.parts[i] == LimitedPart(m, p, goal, i)
  {
    hide NowhereLinear, LeavesLinear, StripTarget;
    var q := ConvertToBase(p, goal, false);
    forall i | 0 <= i < |p.parts|
      ensures m.Node? ==> Mergeable(m.parts[i], q.parts[i], PartAction(m.kind, i, Intersection))
    {
      assert PartExact(m, p, goal, i);
    }
  }

  lemma LimitedNode(m: Perm, p: Perm, goal: Rights)
    requires p.Node? && Consistent(p) && Below(p, m) && Within(goal, p.base)
    requires forall i :: 0 <= i < |p.parts| ==> PartExact(m, p, goal, i)
    ensures Mergeable(m, ConvertToBase(p, goal, false), Intersection)
    ensures NowhereLinear(Merged(m, ConvertToBase(p, goal, false), Intersection)) <==> !LeavesLinear(m, p, goal)
  {
    LimitedShape(m, p, goal);
    hide Merged, Mergeable, ConvertToBase, StripTarget, Linear, Consistent, Below;
    var r := Merged(m, ConvertToBase(p, goal, false), Intersection);
    forall i | 0 <= i < |p.parts|
      ensures NowhereLinear(r.parts[i]) <==>
        if p.kind.Func? || p.kind.Interface? then NowhereLinear(p.parts[i])
        else !LeavesLinear(PartOf(m, i), p.parts[i], PartGoal(p.kind, goal, p.parts[i], false))
    {
      assert PartExact(m, p, goal, i);
    }
  }

  /** Converting a consistent permission to fewer rights, within a maximum it is below, leaves something linear
      exactly if `LeavesLinear` says so. */
  lemma {:induction false} LimitedNowhereLinear(m: Perm, p: Perm, goal: Rights)
    requires Consistent(p) && Below(p, m) && (p.Nil? || Within(goal, BaseOf(p)))
    ensures Mergeable(m, ConvertToBase(p, goal, false), Intersection)
    ensures NowhereLinear(Merged(m, ConvertToBase(p, goal, false), Intersection)) <==> !LeavesLinear(m, p, goal)
    decreases p
  {
    if p.Node? {
      forall i | 0 <= i < |p.parts|
        ensures PartExact(m, p, goal, i)
      {
        ConsistentPart(p, i);
        BelowPart(m, p, i);
        PartGoalWithin(p, i, goal);
        if !p.kind.Func? && !p.kind.Interface? {
          LimitedNowhereLinear(PartOf(m, i), p.parts[i], PartGoal(p.kind, goal, p.parts[i], false));
        }
      }
      LimitedNode(m, p, goal);
    }
  }

  /** On plain data `LeavesLinear` is `KeepsLinear`, whatever the maximum. */
  lemma PlainLeavesLinear(m: Perm, p: Perm, goal: Rights)
    requires PlainData(p) && Consistent(p) && Below(p, m) && Within(goal, BaseOf(p)) && !Linear(goal)
    ensures LeavesLinear(m, p, goal) <==> KeepsLinear(p, goal.xr)
  {
    LimitedNowhereLinear(m, p, goal);
    ConvertedNowhereLinear(p, goal);
    ConvertedBelow(p, goal);
    Associative(m, p, ConvertToBase(p, goal, false), Intersection);
  }

  // ----- linearity, for every permission

  /** The right with which a place ends to which conversion brings `goal` and where the maximum has `m`. */
  function Ending(m: Perm, goal: Rights, action: Action): Rights {
    match m
    case Base(x) => MergeBase(action, x, goal)
    case Node(kind, x, _) => MergeBase(HeadAction(kind, action), x, goal)
    case _ => goal
  }

  /** Some place of `p` ends with a linear right when `p` is converted to `goal` and merged into the maximum `m`;
      where `p` is nil, the maximum is left. */
  predicate EndsLinear(m: Perm, p: Perm, goal: Rights, action: Action)
    requires Convertible(p, false)
    decreases p
  {
    match p
    case Nil => !NowhereLinear(m)
    case Base(_) | Wildcard => Linear(Ending(m, goal, action))
    case Node(kind, _, parts) =>
      || Linear(Ending(m, goal, action))
      || exists i :: 0 <= i < |parts| &&
           EndsLinear(PartOf(m, i), parts[i], PartGoal(kind, goal, parts[i], false), PartAction(kind, i, action))
  }

  /** Converting any permission, within any maximum, leaves nothing linear exactly if no place ends linear. */
  lemma {:induction false} EndsNowhereLinear(m: Perm, p: Perm, goal: Rights, action: Action)
    requires Convertible(p, false) && IsLattice(action) && Mergeable(m, ConvertToBase(p, goal, false), action)
    ensures NowhereLinear(Merged(m, ConvertToBase(p, goal, false), action)) <==> !EndsLinear(m, p, goal, action)
    decreases p
  {
    if p.Node? {
      var q := ConvertToBase(p, goal, false);
      var r := Merged(m, q, action);
      assert r.Node? && r.base == Ending(m, goal, action) && |r.parts| == |p.parts|;
      forall i | 0 <= i < |p.parts|
        ensures NowhereLinear(r.parts[i]) <==>
          !EndsLinear(PartOf(m, i), p.parts[i], PartGoal(p.kind, goal, p.parts[i], false), PartAction(p.kind, i, action))
      {
        assert m.Node? ==> PartAction(m.kind, i, action) == PartAction(p.kind, i, action);
        EndsNowhereLinear(PartOf(m, i), p.parts[i], PartGoal(p.kind, goal, p.parts[i], false), PartAction(p.kind, i, action));
      }
    }
  }
}
