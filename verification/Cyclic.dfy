/** The laws of merging and assignability on cyclic permissions, for the results the program computes. */
module Cyclic {
  import opened BasePermission
  import opened Assignable
  import opened Convert
  import opened Merge
  import opened Bounds
  import opened Sharing
  import opened Graph
  import A = AssignableRules
  import M = MergeRules
  import opened MergeMemo

  /** Two permissions show the same tree at every depth. */
  ghost predicate Bisimilar(g: Heap, r: Ref, h: Heap, s: Ref)
    requires Closed(g) && Closed(h) && InHeap(r, |g|) && InHeap(s, |h|)
  {
    forall depth: nat :: Unfold(g, r, depth) == Unfold(h, s, depth)
  }

  /** Converting the result of a conversion again never fails and changes nothing. */
  lemma ConvertTwice(h: Heap, perm: Ref, goal: Rights, strict: bool, once: Result, later: Heap, twice: Result, last: Heap)
    requires Closed(h) && InHeap(perm, |h|) && IsConverted(h, perm, goal, strict, once, later) && once.Done?
    requires IsConverted(later, once.r, goal, strict, twice, last)
    ensures twice.Done? && Bisimilar(last, twice.r, later, once.r)
  {
    forall depth: nat
      ensures Convertible(Unfold(later, once.r, depth), strict)
      ensures Convert.ConvertToBase(Unfold(later, once.r, depth), goal, strict) == Unfold(later, once.r, depth)
    {
      ConvertToBaseIdempotent(Unfold(h, perm, depth), goal, strict);
    }
  }

  ghost predicate ReadableRef(h: Heap, r: Ref)
    requires Closed(h) && InHeap(r, |h|)
  {
    forall depth: nat :: Readable(Unfold(h, r, depth))
  }

  ghost predicate AlignedRefs(h: Heap, a: Ref, b: Ref)
    requires Closed(h) && InHeap(a, |h|) && InHeap(b, |h|)
  {
    forall depth: nat :: Aligned(Unfold(h, a, depth), Unfold(h, b, depth))
  }

  /** A merge whose trees merge at every depth does not fail. */
  lemma NeverFails(h: Heap, k: M.Key, o: Result, later: Heap)
    requires Closed(h) && M.KeyInHeap(h, k) && IsMerge(h, k, o, later)
    requires forall depth: nat :: M.TreeMergeable(h, k, depth)
    ensures o.Done?
  {
    FailsIsReachable(h, k);
  }

  /** Aligned permissions always have an intersection and a union, and what they unfold to is known. */
  lemma AlignedMerge(h: Heap, a: Ref, b: Ref, action: Action, o: Result, later: Heap)
    requires Valid(h) && InHeap(a, |h|) && InHeap(b, |h|) && IsLattice(action)
    requires IsMerge(h, M.Key(a, b, action), o, later) && AlignedRefs(h, a, b)
    ensures o.Done? && Valid(later) && InHeap(a, |later|) && InHeap(b, |later|) && InHeap(o.r, |later|)
  {
    forall depth: nat
      ensures M.TreeMergeable(h, M.Key(a, b, action), depth)
    {
      MatchesMergeable(Unfold(h, a, depth), Unfold(h, b, depth), true, action);
    }
    NeverFails(h, M.Key(a, b, action), o, later);
  }

  /** Two cyclic permissions move to the intersection the program computes for them. */
  lemma IntersectionIsBelow(h: Heap, a: Ref, b: Ref, o: Result, later: Heap)
    requires Valid(h) && InHeap(a, |h|) && InHeap(b, |h|) && IsMerge(h, M.Key(a, b, Intersection), o, later)
    requires ReadableRef(h, a) && ReadableRef(h, b) && AlignedRefs(h, a, b)
    ensures o.Done? && Valid(later)
    ensures A.Holds(later, A.Key(a, o.r, Move)) && A.Holds(later, A.Key(b, o.r, Move))
  {
    AlignedMerge(h, a, b, Intersection, o, later);
    forall depth: nat
      ensures A.TreeHolds(later, A.Key(a, o.r, Move), depth) && A.TreeHolds(later, A.Key(b, o.r, Move), depth)
    {
      UnfoldExtends(h, later, a, depth);
      UnfoldExtends(h, later, b, depth);
      IsBound(Unfold(h, a, depth), Unfold(h, b, depth), Intersection);
      assert M.TreeMergeable(h, M.Key(a, b, Intersection), depth);
    }
    A.UnfoldsHold(later, A.Key(a, o.r, Move));
    A.UnfoldsHold(later, A.Key(b, o.r, Move));
  }

  /** Whatever two cyclic permissions both move to, the intersection the program computes moves to. */
  lemma IntersectionIsBest(h: Heap, a: Ref, b: Ref, o: Result, later: Heap, d: Ref)
    requires Valid(h) && InHeap(a, |h|) && InHeap(b, |h|) && IsMerge(h, M.Key(a, b, Intersection), o, later)
    requires ReadableRef(h, a) && ReadableRef(h, b) && AlignedRefs(h, a, b)
    requires Valid(later) && A.Holds(later, A.Key(a, d, Move)) && A.Holds(later, A.Key(b, d, Move))
    ensures o.Done? && A.Holds(later, A.Key(o.r, d, Move))
  {
    AlignedMerge(h, a, b, Intersection, o, later);
    A.HoldsHere(later, A.Key(a, d, Move));
    forall depth: nat
      ensures A.TreeHolds(later, A.Key(o.r, d, Move), depth)
    {
      UnfoldExtends(h, later, a, depth);
      UnfoldExtends(h, later, b, depth);
      A.HoldsUnfolds(later, A.Key(a, d, Move), depth);
      A.HoldsUnfolds(later, A.Key(b, d, Move), depth);
      IntersectionIsGreatest(Unfold(h, a, depth), Unfold(h, b, depth), Unfold(later, d, depth));
      assert M.TreeMergeable(h, M.Key(a, b, Intersection), depth);
    }
    A.UnfoldsHold(later, A.Key(o.r, d, Move));
  }

  /** The union the program computes for two cyclic permissions moves to both. */
  lemma UnionIsAbove(h: Heap, a: Ref, b: Ref, o: Result, later: Heap)
    requires Valid(h) && InHeap(a, |h|) && InHeap(b, |h|) && IsMerge(h, M.Key(a, b, Union), o, later)
    requires ReadableRef(h, a) && ReadableRef(h, b) && AlignedRefs(h, a, b)
    ensures o.Done? && Valid(later)
    ensures A.Holds(later, A.Key(o.r, a, Move)) && A.Holds(later, A.Key(o.r, b, Move))
  {
    AlignedMerge(h, a, b, Union, o, later);
    forall depth: nat
      ensures A.TreeHolds(later, A.Key(o.r, a, Move), depth) && A.TreeHolds(later, A.Key(o.r, b, Move), depth)
    {
      UnfoldExtends(h, later, a, depth);
      UnfoldExtends(h, later, b, depth);
      IsBound(Unfold(h, a, depth), Unfold(h, b, depth), Union);
      assert M.TreeMergeable(h, M.Key(a, b, Union), depth);
    }
    A.UnfoldsHold(later, A.Key(o.r, a, Move));
    A.UnfoldsHold(later, A.Key(o.r, b, Move));
  }

  /** Whatever moves to two cyclic permissions moves to the union the program computes. */
  lemma UnionIsBest(h: Heap, a: Ref, b: Ref, o: Result, later: Heap, d: Ref)
    requires Valid(h) && InHeap(a, |h|) && InHeap(b, |h|) && IsMerge(h, M.Key(a, b, Union), o, later)
    requires ReadableRef(h, a) && ReadableRef(h, b) && AlignedRefs(h, a, b)
    requires Valid(later) && A.Holds(later, A.Key(d, a, Move)) && A.Holds(later, A.Key(d, b, Move))
    ensures o.Done? && A.Holds(later, A.Key(d, o.r, Move))
  {
    AlignedMerge(h, a, b, Union, o, later);
    A.HoldsHere(later, A.Key(d, a, Move));
    forall depth: nat
      ensures A.TreeHolds(later, A.Key(d, o.r, Move), depth)
    {
      UnfoldExtends(h, later, a, depth);
      UnfoldExtends(h, later, b, depth);
      A.HoldsUnfolds(later, A.Key(d, a, Move), depth);
      A.HoldsUnfolds(later, A.Key(d, b, Move), depth);
      UnionIsLeast(Unfold(h, a, depth), Unfold(h, b, depth), Unfold(later, d, depth));
      assert M.TreeMergeable(h, M.Key(a, b, Union), depth);
    }
    A.UnfoldsHold(later, A.Key(d, o.r, Move));
  }

  /** The order of the arguments does not matter: the program fails on both or on neither, and the results
      show the same trees up to function names. */
  lemma MergeCommutes(h: Heap, a: Ref, b: Ref, action: Action, o: Result, later: Heap, o': Result, later': Heap)
    requires Closed(h) && InHeap(a, |h|) && InHeap(b, |h|) && IsLattice(action)
    requires IsMerge(h, M.Key(a, b, action), o, later) && IsMerge(h, M.Key(b, a, action), o', later')
    ensures o.Done? <==> o'.Done?
    ensures o.Done? ==> forall depth: nat :: Erase(Unfold(later, o.r, depth)) == Erase(Unfold(later', o'.r, depth))
  {
    forall depth: nat
      ensures M.TreeMergeable(h, M.Key(a, b, action), depth) <==> M.TreeMergeable(h, M.Key(b, a, action), depth)
      ensures M.TreeMergeable(h, M.Key(a, b, action), depth) ==>
        Erase(M.TreeMerged(h, M.Key(a, b, action), depth)) == Erase(M.TreeMerged(h, M.Key(b, a, action), depth))
    {
      Commutative(Unfold(h, a, depth), Unfold(h, b, depth), action);
    }
    if o.Done? {
      NeverFails(h, M.Key(b, a, action), o', later');
    } else if o'.Done? {
      NeverFails(h, M.Key(a, b, action), o, later);
    }
  }

  /** Two ways of merging three cyclic permissions: both succeed or both fail, and the results are bisimilar. */
  lemma MergeAssociates(h: Heap, a: Ref, b: Ref, c: Ref, action: Action,
                        ab: Result, hab: Heap, left: Result, hleft: Heap, bc: Result, hbc: Heap, right: Result, hright: Heap)
    requires Closed(h) && InHeap(a, |h|) && InHeap(b, |h|) && InHeap(c, |h|) && IsLattice(action)
    requires IsMerge(h, M.Key(a, b, action), ab, hab) && (ab.Done? ==> IsMerge(hab, M.Key(ab.r, c, action), left, hleft))
    requires IsMerge(h, M.Key(b, c, action), bc, hbc) && (bc.Done? ==> IsMerge(hbc, M.Key(a, bc.r, action), right, hright))
    ensures ab.Done? && left.Done? <==> bc.Done? && right.Done?
    ensures ab.Done? && left.Done? ==> Bisimilar(hleft, left.r, hright, right.r)
  {
    forall depth: nat
      ensures Associates(Unfold(h, a, depth), Unfold(h, b, depth), Unfold(h, c, depth), action)
    {
      Associative(Unfold(h, a, depth), Unfold(h, b, depth), Unfold(h, c, depth), action);
    }
    hide Associates, Mergeable, Merged;
    if ab.Done? && left.Done? {
      LeftThenRight(h, a, b, c, action, ab, hab, left, hleft, bc, hbc, right, hright);
    } else if bc.Done? && right.Done? {
      RightThenLeft(h, a, b, c, action, ab, hab, left, hleft, bc, hbc, right, hright);
    }
  }

  lemma LeftThenRight(h: Heap, a: Ref, b: Ref, c: Ref, action: Action,
                      ab: Result, hab: Heap, left: Result, hleft: Heap, bc: Result, hbc: Heap, right: Result, hright: Heap)
    requires Closed(h) && InHeap(a, |h|) && InHeap(b, |h|) && InHeap(c, |h|)
    requires IsMerge(h, M.Key(a, b, action), ab, hab) && ab.Done? && IsMerge(hab, M.Key(ab.r, c, action), left, hleft) && left.Done?
    requires IsMerge(h, M.Key(b, c, action), bc, hbc) && (bc.Done? ==> IsMerge(hbc, M.Key(a, bc.r, action), right, hright))
    requires forall depth: nat :: Associates(Unfold(h, a, depth), Unfold(h, b, depth), Unfold(h, c, depth), action)
    ensures bc.Done? && right.Done? && Bisimilar(hleft, left.r, hright, right.r)
  {
    forall depth: nat
      ensures M.TreeMergeable(h, M.Key(b, c, action), depth)
      ensures Mergeable(Unfold(h, a, depth), Merged(Unfold(h, b, depth), Unfold(h, c, depth), action), action)
      ensures Unfold(hleft, left.r, depth) == Merged(Unfold(h, a, depth), Merged(Unfold(h, b, depth), Unfold(h, c, depth), action), action)
    {
      UnfoldExtends(h, hab, c, depth);
      assert M.TreeMergeable(h, M.Key(a, b, action), depth) && M.TreeMergeable(hab, M.Key(ab.r, c, action), depth);
      assert Associates(Unfold(h, a, depth), Unfold(h, b, depth), Unfold(h, c, depth), action);
    }
    NeverFails(h, M.Key(b, c, action), bc, hbc);
    forall depth: nat
      ensures M.TreeMergeable(hbc, M.Key(a, bc.r, action), depth)
      ensures M.TreeMerged(hbc, M.Key(a, bc.r, action), depth) == Unfold(hleft, left.r, depth)
    {
      UnfoldExtends(h, hbc, a, depth);
      assert M.TreeMergeable(h, M.Key(b, c, action), depth);
    }
    NeverFails(hbc, M.Key(a, bc.r, action), right, hright);
  }

  lemma RightThenLeft(h: Heap, a: Ref, b: Ref, c: Ref, action: Action,
                      ab: Result, hab: Heap, left: Result, hleft: Heap, bc: Result, hbc: Heap, right: Result, hright: Heap)
    requires Closed(h) && InHeap(a, |h|) && InHeap(b, |h|) && InHeap(c, |h|)
    requires IsMerge(h, M.Key(a, b, action), ab, hab) && (ab.Done? ==> IsMerge(hab, M.Key(ab.r, c, action), left, hleft))
    requires IsMerge(h, M.Key(b, c, action), bc, hbc) && bc.Done? && IsMerge(hbc, M.Key(a, bc.r, action), right, hright) && right.Done?
    requires forall depth: nat :: Associates(Unfold(h, a, depth), Unfold(h, b, depth), Unfold(h, c, depth), action)
    ensures ab.Done? && left.Done?
  {
    forall depth: nat
      ensures M.TreeMergeable(h, M.Key(a, b, action), depth)
      ensures Mergeable(Merged(Unfold(h, a, depth), Unfold(h, b, depth), action), Unfold(h, c, depth), action)
    {
      UnfoldExtends(h, hbc, a, depth);
      assert M.TreeMergeable(h, M.Key(b, c, action), depth) && M.TreeMergeable(hbc, M.Key(a, bc.r, action), depth);
      assert Associates(Unfold(h, a, depth), Unfold(h, b, depth), Unfold(h, c, depth), action);
    }
    NeverFails(h, M.Key(a, b, action), ab, hab);
    forall depth: nat
      ensures M.TreeMergeable(hab, M.Key(ab.r, c, action), depth)
    {
      UnfoldExtends(h, hab, c, depth);
      assert M.TreeMergeable(h, M.Key(a, b, action), depth);
    }
    NeverFails(hab, M.Key(ab.r, c, action), left, hleft);
  }

  ghost predicate SolidRef(h: Heap, r: Ref)
    requires Closed(h) && InHeap(r, |h|)
  {
    forall depth: nat :: Solid(Unfold(h, r, depth))
  }

  /** On cyclic permissions without nil and wildcard, merging with the result of the opposite merge succeeds and
      gives the permission back. */
  lemma MergeAbsorbs(h: Heap, a: Ref, b: Ref, action: Action, ab: Result, hab: Heap, o: Result, later: Heap)
    requires Closed(h) && InHeap(a, |h|) && InHeap(b, |h|) && IsLattice(action) && SolidRef(h, a) && SolidRef(h, b)
    requires IsMerge(h, M.Key(a, b, Contravariant(action)), ab, hab) && ab.Done?
    requires IsMerge(hab, M.Key(a, ab.r, action), o, later)
    ensures o.Done? && Bisimilar(later, o.r, h, a)
  {
    forall depth: nat
      ensures M.TreeMergeable(hab, M.Key(a, ab.r, action), depth)
      ensures M.TreeMerged(hab, M.Key(a, ab.r, action), depth) == Unfold(h, a, depth)
    {
      UnfoldExtends(h, hab, a, depth);
      assert M.TreeMergeable(h, M.Key(a, b, Contravariant(action)), depth);
      Absorption(Unfold(h, a, depth), Unfold(h, b, depth), action);
    }
    NeverFails(hab, M.Key(a, ab.r, action), o, later);
  }

  /** Converting the result of a conversion to any cyclic goal again, to the same goal, succeeds and changes
      nothing. */
  lemma ConvertToTwice(h: Heap, perm: Ref, goal: Ref, action: Action, once: Result, hence: Heap, twice: Result, later: Heap)
    requires Closed(h) && InHeap(perm, |h|) && InHeap(goal, |h|) && IsConversion(action)
    requires IsMerge(h, M.Key(perm, goal, action), once, hence) && once.Done?
    requires IsMerge(hence, M.Key(once.r, goal, action), twice, later)
    ensures twice.Done? && Bisimilar(later, twice.r, hence, once.r)
  {
    forall depth: nat
      ensures M.TreeMergeable(hence, M.Key(once.r, goal, action), depth)
      ensures M.TreeMerged(hence, M.Key(once.r, goal, action), depth) == Unfold(hence, once.r, depth)
    {
      UnfoldExtends(h, hence, goal, depth);
      assert M.TreeMergeable(h, M.Key(perm, goal, action), depth);
      ConvertToIdempotent(Unfold(h, perm, depth), Unfold(h, goal, depth), action);
    }
    NeverFails(hence, M.Key(once.r, goal, action), twice, later);
  }

  /** A copy of a cyclic permission shares safely every place that both values reach, at any depth. */
  lemma CyclicCopiesShareSafely(h: Heap, a: Ref, b: Ref, depth: nat, path: seq<(nat, nat)>, to: Place)
    requires Valid(h) && A.Holds(h, A.Key(a, b, Copy)) && InHeap(a, |h|) && InHeap(b, |h|)
    requires Leads(Place(Unfold(h, a, depth), Unfold(h, b, depth), false), path, to)
    ensures SafePlace(to)
  {
    A.HoldsUnfolds(h, A.Key(a, b, Copy), depth);
    CopiesShareSafely(Unfold(h, a, depth), Unfold(h, b, depth), false, path, to);
  }
}
