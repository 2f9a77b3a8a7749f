/** Assignability on possibly cyclic permissions, as the greatest fixed point of its rules. */
module AssignableRules {
  import opened Permission
  import opened Assignable
  import opened Graph

  /** One comparison; the key of the memo table. */
  datatype Key = Key(a: Ref, b: Ref, mode: Mode)

  predicate KeyInHeap(h: Heap, k: Key) {
    InHeap(k.a, |h|) && InHeap(k.b, |h|)
  }

  // ----- the rules, one step at a time

  /** Both sides are structures of the same shape. */
  predicate Structures(h: Heap, k: Key)
    requires KeyInHeap(h, k)
  {
    k.a.At? && k.b.At? && SameShape(h[k.a.cell].kind, h[k.b.cell].kind)
  }

  /** Part `i` of the left structure meets part `j` of the right one. */
  predicate Meets(h: Heap, k: Key, i: nat, j: nat)
    requires Valid(h) && KeyInHeap(h, k) && Structures(h, k)
  {
    var x, y := h[k.a.cell], h[k.b.cell];
    Linked(x.kind, RefNames(h, x.parts), y.kind, RefNames(h, y.parts), i, j)
  }

  /** The comparison of two parts that meet. */
  function PartKey(h: Heap, k: Key, i: nat, j: nat): Key
    requires Valid(h) && KeyInHeap(h, k) && Structures(h, k) && Meets(h, k, i, j)
    ensures KeyInHeap(h, PartKey(h, k, i, j))
  {
    var x, y := h[k.a.cell], h[k.b.cell];
    var mode := PartMode(x.kind, k.mode);
    if Contra(x.kind, i) then Key(y.parts[j], x.parts[i], mode) else Key(x.parts[i], y.parts[j], mode)
  }

  /** No panic at this comparison: all parts it asks for exist. */
  predicate FitsHere(h: Heap, k: Key)
    requires Valid(h) && KeyInHeap(h, k) && Structures(h, k)
  {
    var x, y := h[k.a.cell], h[k.b.cell];
    Fits(x.kind, RefNames(h, x.parts), y.kind, RefNames(h, y.parts))
  }

  /** The part of a comparison that does not look at parts. */
  predicate Immediate(h: Heap, k: Key)
    requires Valid(h) && KeyInHeap(h, k)
  {
    match k.a
    case OfBase(x) => k.b.OfBase? && BaseAssignable(x, k.b.rights, k.mode)
    case OfWildcard => false
    case OfNil => k.b.OfNil? || (k.b.At? && Nilable(h[k.b.cell].kind))
    case At(i) =>
      && Structures(h, k)
      && HeadAssignable(h[i].kind, h[i].base, h[k.b.cell].base, k.mode)
      && FitsHere(h, k)
  }

  /** The rule for `k` holds if the comparisons in `known` do. */
  ghost predicate Step(h: Heap, k: Key, known: set<Key>)
    requires Valid(h) && KeyInHeap(h, k)
  {
    && Immediate(h, k)
    && (k.a.At? ==> forall i: nat, j: nat | Meets(h, k, i, j) :: PartKey(h, k, i, j) in known)
  }

  /** Every comparison in `known` follows, in one step, from comparisons in `known`. */
  ghost predicate SelfJustifying(h: Heap, known: set<Key>)
    requires Valid(h)
  {
    forall k <- known :: KeyInHeap(h, k) && Step(h, k, known)
  }

  /** `k` is in the greatest fixed point of the rules. */
  ghost predicate Holds(h: Heap, k: Key)
    requires Valid(h)
  {
    exists known: set<Key> :: k in known && SelfJustifying(h, known)
  }

  /** Every comparison that starts from one in `reached` stays in `reached` and finds the parts it asks for. */
  ghost predicate SelfShaped(h: Heap, reached: set<Key>)
    requires Valid(h)
  {
    forall k <- reached :: KeyInHeap(h, k) &&
      (Structures(h, k) ==>
        && (h[k.a.cell].kind.Tuple? || FitsHere(h, k))
        && forall i: nat, j: nat | Meets(h, k, i, j) :: PartKey(h, k, i, j) in reached)
  }

  /** No comparison reached from `k` asks for a part that does not exist. */
  ghost predicate Shaped(h: Heap, k: Key)
    requires Valid(h)
  {
    exists reached: set<Key> :: k in reached && SelfShaped(h, reached)
  }

  lemma HoldsHere(h: Heap, k: Key)
    requires Valid(h) && Holds(h, k)
    ensures KeyInHeap(h, k) && Immediate(h, k)
  {
  }

  lemma HoldsPart(h: Heap, k: Key, i: nat, j: nat)
    requires Valid(h) && KeyInHeap(h, k) && Holds(h, k) && Structures(h, k) && Meets(h, k, i, j)
    ensures Holds(h, PartKey(h, k, i, j))
  {
  }

  lemma ShapedParts(h: Heap, k: Key, i: nat, j: nat)
    requires Valid(h) && Shaped(h, k)
    requires KeyInHeap(h, k) && Structures(h, k) && Meets(h, k, i, j)
    ensures Shaped(h, PartKey(h, k, i, j))
  {
  }

  // ----- the fixed point and the trees

  /** The comparison succeeds on the trees seen to this depth. */
  ghost predicate TreeHolds(h: Heap, k: Key, depth: nat)
    requires Valid(h) && KeyInHeap(h, k)
  {
    AssignableTo(Unfold(h, k.a, depth), Unfold(h, k.b, depth), k.mode)
  }

  ghost predicate TreePartsHold(h: Heap, k: Key, depth: nat)
    requires Valid(h) && KeyInHeap(h, k) && Structures(h, k)
  {
    forall i: nat, j: nat | Meets(h, k, i, j) :: TreeHolds(h, PartKey(h, k, i, j), depth)
  }

  /** Without looking at parts, the heap and the trees agree. */
  lemma TreeImmediate(h: Heap, k: Key, depth: nat)
    requires Valid(h) && KeyInHeap(h, k)
    requires k.a.At? ==> depth == 0
    ensures Immediate(h, k) ==> TreeHolds(h, k, depth)
    ensures TreeHolds(h, k, depth) && !k.a.At? ==> Immediate(h, k)
  {
  }

  /** One rule on the heap gives one more level of the trees. */
  lemma TreeStepUp(h: Heap, k: Key, depth: nat)
    requires Valid(h) && KeyInHeap(h, k) && k.a.At? && Immediate(h, k)
    ensures TreePartsHold(h, k, depth) ==> TreeHolds(h, k, depth + 1)
  {
    if TreePartsHold(h, k, depth) {
      UnfoldParts(h, k.a, depth);
      UnfoldParts(h, k.b, depth);
      var a, b := Unfold(h, k.a, depth + 1), Unfold(h, k.b, depth + 1);
      forall i: nat, j: nat | Linked(a.kind, PartNames(a.parts), b.kind, PartNames(b.parts), i, j)
        ensures if Contra(a.kind, i) then AssignableTo(b.parts[j], a.parts[i], PartMode(a.kind, k.mode))
                else AssignableTo(a.parts[i], b.parts[j], PartMode(a.kind, k.mode))
      {
        assert Meets(h, k, i, j);
        assert TreeHolds(h, PartKey(h, k, i, j), depth);
      }
    }
  }

  /** One level of the trees gives the rule on the heap. */
  lemma TreeStepDown(h: Heap, k: Key, depth: nat)
    requires Valid(h) && KeyInHeap(h, k) && k.a.At? && TreeHolds(h, k, depth + 1)
    ensures Immediate(h, k)
    ensures TreePartsHold(h, k, depth)
  {
    assert k.b.At?;
    UnfoldParts(h, k.a, depth);
    UnfoldParts(h, k.b, depth);
    var a, b := Unfold(h, k.a, depth + 1), Unfold(h, k.b, depth + 1);
    forall i: nat, j: nat | Meets(h, k, i, j)
      ensures TreeHolds(h, PartKey(h, k, i, j), depth)
    {
      assert Linked(a.kind, PartNames(a.parts), b.kind, PartNames(b.parts), i, j);
    }
  }

  /** A comparison in the fixed point succeeds on the trees seen to every depth. */
  lemma {:induction false} HoldsUnfolds(h: Heap, k: Key, depth: nat)
    requires Valid(h) && Holds(h, k)
    ensures KeyInHeap(h, k) && TreeHolds(h, k, depth)
    decreases depth, 0
  {
    hide Holds, TreePartsHold, TreeHolds, Immediate;
    HoldsHere(h, k);
    if k.a.At? && depth > 0 {
      PartsUnfold(h, k, depth - 1);
      TreeStepUp(h, k, depth - 1);
    } else {
      TreeImmediate(h, k, depth);
    }
  }

  lemma {:induction false} PartsUnfold(h: Heap, k: Key, depth: nat)
    requires Valid(h) && KeyInHeap(h, k) && Holds(h, k) && Structures(h, k)
    ensures TreePartsHold(h, k, depth)
    decreases depth, 1
  {
    forall i: nat, j: nat | Meets(h, k, i, j)
      ensures TreeHolds(h, PartKey(h, k, i, j), depth)
    {
      HoldsPart(h, k, i, j);
      HoldsUnfolds(h, PartKey(h, k, i, j), depth);
    }
  }

  // ----- the finite universe of comparisons

  /** All comparisons between permissions of the heap; the memo table never holds another. */
  function Universe(h: Heap): (keys: set<Key>)
    ensures forall k: Key :: k in keys <==> KeyInHeap(h, k)
  {
    var keys := set a <- Refs(h), b <- Refs(h), mode: Mode | true :: Key(a, b, mode);
    assert forall k: Key | KeyInHeap(h, k) :: k in keys by {
      forall k: Key | KeyInHeap(h, k)
        ensures k in keys
      {
        assert k == Key(k.a, k.b, k.mode) && k.a in Refs(h) && k.b in Refs(h);
      }
    }
    keys
  }

  /** Comparisons that succeed on the trees seen to every depth are in the fixed point. */
  lemma UnfoldsHold(h: Heap, k: Key)
    requires Valid(h) && KeyInHeap(h, k)
    requires forall depth: nat :: TreeHolds(h, k, depth)
    ensures Holds(h, k)
  {
    var known := set q | q in Universe(h) && forall depth: nat :: TreeHolds(h, q, depth);
    forall q <- known
      ensures KeyInHeap(h, q) && Step(h, q, known)
    {
      if q.a.At? {
        assert TreeHolds(h, q, 1);
        TreeStepDown(h, q, 0);
        forall i: nat, j: nat | Meets(h, q, i, j)
          ensures PartKey(h, q, i, j) in known
        {
          forall depth: nat
            ensures TreeHolds(h, PartKey(h, q, i, j), depth)
          {
            assert TreeHolds(h, q, depth + 1);
            TreeStepDown(h, q, depth);
          }
        }
      } else {
        assert TreeHolds(h, q, 0);
        TreeImmediate(h, q, 0);
      }
    }
    assert SelfJustifying(h, known);
  }

  /** The fixed point on a cyclic heap is the limit of the tree definition at growing depths. */
  lemma HoldsIsLimit(h: Heap, k: Key)
    requires Valid(h) && KeyInHeap(h, k)
    ensures Holds(h, k) <==> forall depth: nat :: TreeHolds(h, k, depth)
  {
    if Holds(h, k) {
      forall depth: nat
        ensures TreeHolds(h, k, depth)
      {
        HoldsUnfolds(h, k, depth);
      }
    }
    if forall depth: nat :: TreeHolds(h, k, depth) {
      UnfoldsHold(h, k);
    }
  }

  /** No interface on the heap has two methods of one name. */
  ghost predicate DistinctHeap(h: Heap)
    requires Valid(h)
  {
    forall c :: 0 <= c < |h| && h[c].kind.Interface? ==> Distinct(RefNames(h, h[c].parts))
  }

  lemma {:induction false} DistinctUnfolds(h: Heap, r: Ref, depth: nat)
    requires Valid(h) && InHeap(r, |h|) && DistinctHeap(h)
    ensures DistinctMethods(Unfold(h, r, depth))
    decreases depth
  {
    if r.At? && depth > 0 {
      DistinctHere(h, r, depth);
      UnfoldedParts(h, r, depth);
      hide Unfold, Valid, DistinctHeap, Distinct, PartNames;
      var p := Unfold(h, r, depth);
      forall i | 0 <= i < |p.parts|
        ensures DistinctMethods(p.parts[i])
      {
        DistinctUnfolds(h, h[r.cell].parts[i], depth - 1);
      }
    }
  }

  lemma UnfoldedParts(h: Heap, r: Ref, depth: nat)
    requires Closed(h) && InHeap(r, |h|) && r.At? && depth > 0
    ensures var p := Unfold(h, r, depth);
      && p.Node? && |p.parts| == |h[r.cell].parts|
      && forall i :: 0 <= i < |p.parts| ==> InHeap(h[r.cell].parts[i], |h|) && p.parts[i] == Unfold(h, h[r.cell].parts[i], depth - 1)
  {
  }

  lemma DistinctHere(h: Heap, r: Ref, depth: nat)
    requires Valid(h) && InHeap(r, |h|) && DistinctHeap(h) && r.At? && depth > 0
    ensures var p := Unfold(h, r, depth); p.Node? && (p.kind.Interface? ==> Distinct(PartNames(p.parts)))
  {
    UnfoldParts(h, r, depth - 1);
  }

  /** Assignability of cyclic permissions is transitive in every mode. */
  lemma HoldsTransitive(h: Heap, a: Ref, b: Ref, c: Ref, mode: Mode)
    requires Valid(h) && DistinctHeap(h)
    requires Holds(h, Key(a, b, mode)) && Holds(h, Key(b, c, mode))
    ensures Holds(h, Key(a, c, mode))
  {
    HoldsHere(h, Key(a, b, mode));
    HoldsHere(h, Key(b, c, mode));
    forall depth: nat
      ensures TreeHolds(h, Key(a, c, mode), depth)
    {
      HoldsUnfolds(h, Key(a, b, mode), depth);
      HoldsUnfolds(h, Key(b, c, mode), depth);
      DistinctUnfolds(h, a, depth);
      DistinctUnfolds(h, c, depth);
      Transitive(Unfold(h, a, depth), Unfold(h, b, depth), Unfold(h, c, depth), mode);
    }
    UnfoldsHold(h, Key(a, c, mode));
  }
}
