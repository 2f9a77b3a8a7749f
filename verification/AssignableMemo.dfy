/** Assignability as the program computes it: a depth-first search that records every comparison as
    successful before making it. */
module AssignableMemo {
  import opened BasePermission
  import opened Permission
  import opened Assignable
  import opened Graph
  import opened AssignableRules

  /** The original panics when the target has fewer parts than the source or the source lacks a method. */
  datatype Verdict = Yes | No | Panic

  // ----- the memo table

  ghost function Successes(values: map<Key, bool>): set<Key> {
    set k | k in values && values[k]
  }

  /** Recorded failures are failures; comparisons under way are recorded as successful. */
  ghost predicate Sound(h: Heap, values: map<Key, bool>, open: set<Key>)
    requires Valid(h)
  {
    && (forall k <- values :: KeyInHeap(h, k) && (!values[k] ==> !Holds(h, k)))
    && (forall k <- open :: k in values && values[k] && k.a.At?)
  }

  /** Every recorded success, other than those excepted, follows from recorded successes. */
  ghost predicate Justified(h: Heap, values: map<Key, bool>, except: set<Key>)
    requires Valid(h)
  {
    forall k <- Successes(values) :: k in except || (KeyInHeap(h, k) && Step(h, k, Successes(values)))
  }

  lemma StepMonotone(h: Heap, k: Key, small: set<Key>, large: set<Key>)
    requires Valid(h) && KeyInHeap(h, k) && small <= large && Step(h, k, small)
    ensures Step(h, k, large)
  {
  }

  /** Recording a comparison ahead of time leaves only that comparison to be justified. */
  lemma Record(h: Heap, values: map<Key, bool>, open: set<Key>, k: Key)
    requires Valid(h) && Sound(h, values, open) && Justified(h, values, open) && KeyInHeap(h, k) && k !in values
    ensures var after := values[k := true];
      && Sound(h, after, if k.a.At? then open + {k} else open)
      && Justified(h, after, open + {k})
      && Successes(after) == Successes(values) + {k}
  {
    var after := values[k := true];
    assert Successes(after) == Successes(values) + {k};
    forall q <- Successes(after) | q !in open + {k}
      ensures KeyInHeap(h, q) && Step(h, q, Successes(after))
    {
      StepMonotone(h, q, Successes(values), Successes(after));
    }
  }

  /** A comparison whose rule holds is justified, and no longer under way. */
  lemma Settle(h: Heap, values: map<Key, bool>, open: set<Key>, k: Key)
    requires Valid(h) && Sound(h, values, open) && Justified(h, values, open + {k}) && KeyInHeap(h, k)
    requires k in Successes(values) && Step(h, k, Successes(values))
    ensures values[k := true] == values
    ensures Sound(h, values, open - {k}) && Justified(h, values, open - {k})
  {
  }

  /** With nothing under way, the recorded successes are in the greatest fixed point. */
  lemma JustifiedHold(h: Heap, values: map<Key, bool>, k: Key)
    requires Valid(h) && Justified(h, values, {}) && k in Successes(values)
    ensures Holds(h, k)
  {
    assert SelfJustifying(h, Successes(values));
  }

  /** Base permissions are assignable when their rule says so. */
  lemma BaseHolds(h: Heap, x: Rights, y: Rights, mode: Mode)
    requires Valid(h)
    ensures Holds(h, Key(OfBase(x), OfBase(y), mode)) <==> BaseAssignable(x, y, mode)
  {
    var k := Key(OfBase(x), OfBase(y), mode);
    if BaseAssignable(x, y, mode) {
      assert SelfJustifying(h, {k});
    }
  }

  /** A failing part makes the whole comparison fail. */
  lemma PartFails(h: Heap, k: Key, i: nat, j: nat)
    requires Valid(h) && KeyInHeap(h, k) && Structures(h, k) && Meets(h, k, i, j)
    ensures !Holds(h, PartKey(h, k, i, j)) ==> !Holds(h, k)
    ensures !Shaped(h, PartKey(h, k, i, j)) ==> !Shaped(h, k)
  {
    if Holds(h, k) {
      HoldsPart(h, k, i, j);
    }
    if Shaped(h, k) {
      ShapedParts(h, k, i, j);
    }
  }

  /** A rule that fails without looking at parts, and a part that does not exist. */
  lemma HereFails(h: Heap, k: Key)
    requires Valid(h) && KeyInHeap(h, k)
    ensures !Immediate(h, k) ==> !Holds(h, k)
    ensures Structures(h, k) && !h[k.a.cell].kind.Tuple? && !FitsHere(h, k) ==> !Shaped(h, k)
  {
    if Holds(h, k) {
      HoldsHere(h, k);
    }
  }

  /** Parts `from` up to `to` of the left structure have counterparts before `end` and are known to be
      assignable. */
  ghost predicate PartsKnown(h: Heap, k: Key, from: nat, to: nat, end: nat, known: set<Key>)
    requires Valid(h) && KeyInHeap(h, k) && Structures(h, k)
  {
    && (forall i: nat | from <= i < to :: Counterpart(h[k.a.cell].kind, h[k.b.cell].kind, i) < end)
    && (forall i: nat, j: nat | from <= i < to && Meets(h, k, i, j) :: PartKey(h, k, i, j) in known)
  }

  lemma NextPart(h: Heap, k: Key, from: nat, i: nat, end: nat, known: set<Key>, j: nat, more: set<Key>)
    requires Valid(h) && KeyInHeap(h, k) && Structures(h, k) && !h[k.a.cell].kind.Interface?
    requires PartsKnown(h, k, from, i, end, known) && Meets(h, k, i, j) && j < end
    requires known <= more && PartKey(h, k, i, j) in more
    ensures PartsKnown(h, k, from, i + 1, end, more)
  {
  }

  lemma PartsStayKnown(h: Heap, k: Key, from: nat, to: nat, end: nat, known: set<Key>, more: set<Key>)
    requires Valid(h) && KeyInHeap(h, k) && Structures(h, k)
    requires PartsKnown(h, k, from, to, end, known) && known <= more
    ensures PartsKnown(h, k, from, to, end, more)
  {
  }

  /** A function follows from its closure, receivers, parameters and results: if all of them have counterparts
      then it has no more of any sort than the other function. */
  lemma FuncStep(h: Heap, k: Key, known: set<Key>)
    requires Valid(h) && KeyInHeap(h, k) && Structures(h, k) && h[k.a.cell].kind.Func?
      && HeadAssignable(h[k.a.cell].kind, h[k.a.cell].base, h[k.b.cell].base, k.mode)
    requires var x, y := h[k.a.cell], h[k.b.cell];
      && PartsKnown(h, k, 0, x.kind.receivers, y.kind.receivers, known)
      && PartsKnown(h, k, x.kind.receivers, x.kind.receivers + x.kind.params, y.kind.receivers + y.kind.params, known)
      && PartsKnown(h, k, x.kind.receivers + x.kind.params, |x.parts|, |y.parts|, known)
    ensures Step(h, k, known)
  {
    var x, y := h[k.a.cell], h[k.b.cell];
    var rs, ps := x.kind.receivers, x.kind.params;
    assert rs > 0 ==> Counterpart(x.kind, y.kind, rs - 1) < y.kind.receivers;
    assert ps > 0 ==> Counterpart(x.kind, y.kind, rs + ps - 1) < y.kind.receivers + y.kind.params;
    assert |x.parts| > rs + ps ==> Counterpart(x.kind, y.kind, |x.parts| - 1) < |y.parts|;
  }

  /** The first `n` methods of the right interface exist in the left one and are known to be assignable. */
  ghost predicate MethodsKnown(h: Heap, k: Key, n: nat, known: set<Key>)
    requires Valid(h) && KeyInHeap(h, k) && Structures(h, k)
  {
    && n <= |h[k.b.cell].parts|
    && (forall j :: 0 <= j < n ==> RefName(h, h[k.b.cell].parts[j]) in RefNames(h, h[k.a.cell].parts))
    && (forall i: nat, j: nat | j < n && Meets(h, k, i, j) :: PartKey(h, k, i, j) in known)
  }

  lemma NextMethod(h: Heap, k: Key, n: nat, known: set<Key>, i: nat, more: set<Key>)
    requires Valid(h) && KeyInHeap(h, k) && Structures(h, k) && h[k.a.cell].kind.Interface?
    requires MethodsKnown(h, k, n, known) && Meets(h, k, i, n) && known <= more && PartKey(h, k, i, n) in more
    ensures MethodsKnown(h, k, n + 1, more)
  {
    var nx := RefNames(h, h[k.a.cell].parts);
    assert nx[i] == RefName(h, h[k.b.cell].parts[n]);
  }

  lemma MissingMethod(h: Heap, k: Key, j: nat)
    requires Valid(h) && KeyInHeap(h, k) && Structures(h, k) && h[k.a.cell].kind.Interface? && j < |h[k.b.cell].parts|
    requires var nx, ny := RefNames(h, h[k.a.cell].parts), RefNames(h, h[k.b.cell].parts); Lookup(nx, j, ny[j]) == |nx|
    ensures !Holds(h, k) && !Shaped(h, k)
  {
    HereFails(h, k);
    var nx, ny := RefNames(h, h[k.a.cell].parts), RefNames(h, h[k.b.cell].parts);
    assert ny[j] !in nx;
  }

  lemma NoMethodKnown(h: Heap, k: Key, known: set<Key>)
    requires Valid(h) && KeyInHeap(h, k) && Structures(h, k)
    ensures MethodsKnown(h, k, 0, known)
  {
  }

  /** An interface follows from its base permission and all methods of the other interface. */
  lemma InterfaceStep(h: Heap, k: Key, known: set<Key>)
    requires Valid(h) && KeyInHeap(h, k) && Structures(h, k) && h[k.a.cell].kind.Interface?
      && HeadAssignable(h[k.a.cell].kind, h[k.a.cell].base, h[k.b.cell].base, k.mode)
    requires MethodsKnown(h, k, |h[k.b.cell].parts|, known)
    ensures Step(h, k, known)
  {
  }

  class AssignableState {
    const heap: Heap
    var values: map<Key, bool>
    ghost var open: set<Key>  // comparisons under way

    constructor (h: Heap)
      requires Valid(h)
      ensures heap == h && values == map[] && open == {}
    {
      heap, values, open := h, map[], {};
    }

    ghost predicate Ready()
      reads this
    {
      Valid(heap) && Sound(heap, values, open) && Justified(heap, values, open)
    }

    /** Nothing is wrong with the memo table, and the structures of `k` are being compared. */
    ghost predicate Comparing(k: Key)
      reads this
    {
      Ready() && k in open && KeyInHeap(heap, k) && Structures(heap, k)
    }

    /** After a successful comparison nothing is forgotten and the same comparisons are under way. */
    twostate predicate Grown()
      reads this
    {
      && open == old(open)
      && old(Successes(values)) <= Successes(values)
      && old(values.Keys) <= values.Keys
    }

    method AssignableTo(k: Key) returns (v: Verdict)
      requires Ready() && KeyInHeap(heap, k)
      modifies this
      ensures v.Yes? ==> Ready() && Grown() && k in Successes(values)
      ensures v.Yes? && k.a.OfBase? ==> Holds(heap, k)
      ensures v.No? ==> !Holds(heap, k)
      ensures v.Panic? ==> k.a.At? && !Holds(heap, k) && !Shaped(heap, k)
      decreases Universe(heap) - values.Keys, 0
    {
      if k in values {
        if values[k] && k.a.OfBase? {
          BaseHolds(heap, k.a.rights, k.b.rights, k.mode);
        }
        return if values[k] then Yes else No;
      }
      Record(heap, values, open, k);
      assert k in Universe(heap);
      values := values[k := true];
      if k.a.At? {
        open := open + {k};
      }
      v := IsAssignableTo(k);
      if v.Panic? {
        return;
      }
      if v.Yes? {
        Settle(heap, values, open, k);
      }
      values := values[k := v.Yes?];
      open := open - {k};
    }

    /** Two base permissions inside structures; they are memoised like every other comparison. */
    method CheckBase(k: Key, x: Rights, y: Rights, mode: Mode) returns (v: Verdict)
      requires Comparing(k)
      modifies this
      ensures v.Yes? ==> Comparing(k) && Grown()
      ensures !v.Panic? && (v.Yes? <==> BaseAssignable(x, y, mode))
      decreases Universe(heap) - values.Keys, 1
    {
      v := AssignableTo(Key(OfBase(x), OfBase(y), mode));
      BaseHolds(heap, x, y, mode);
    }

    /** The parts from `from` up to `to` of the left structure, each with its counterpart in the right one,
        which has such parts up to `end`. */
    method CheckParts(k: Key, from: nat, to: nat, end: nat) returns (v: Verdict)
      requires Comparing(k) && !heap[k.a.cell].kind.Interface?
      requires from <= to <= |heap[k.a.cell].parts| && end <= |heap[k.b.cell].parts|
      requires FitsHere(heap, k) ==> forall i: nat | from <= i < to :: Counterpart(heap[k.a.cell].kind, heap[k.b.cell].kind, i) < end
      requires heap[k.a.cell].kind.Tuple? ==> FitsHere(heap, k)
      modifies this
      ensures v.Yes? ==> Comparing(k) && Grown()
      ensures v.Yes? ==> PartsKnown(heap, k, from, to, end, Successes(values))
      ensures v.No? ==> !Holds(heap, k)
      ensures v.Panic? ==> !Holds(heap, k) && !Shaped(heap, k)
      decreases Universe(heap) - values.Keys, 1
    {
      for i := from to to
        invariant Comparing(k) && Grown()
        invariant PartsKnown(heap, k, from, i, end, Successes(values))
      {
        var j := Counterpart(heap[k.a.cell].kind, heap[k.b.cell].kind, i);
        if j >= end {
          HereFails(heap, k);
          return Panic;
        }
        ghost var known := Successes(values);
        v := AssignableTo(PartKey(heap, k, i, j));
        if !v.Yes? {
          PartFails(heap, k, i, j);
          return;
        }
        NextPart(heap, k, from, i, end, known, j, Successes(values));
      }
      v := Yes;
    }

    method PartwiseAssignable(k: Key) returns (v: Verdict)
      requires Comparing(k) && !heap[k.a.cell].kind.Func? && !heap[k.a.cell].kind.Interface?
      modifies this
      ensures v.Yes? ==> Comparing(k) && Grown() && Step(heap, k, Successes(values))
      ensures v.No? ==> !Holds(heap, k)
      ensures v.Panic? ==> !Holds(heap, k) && !Shaped(heap, k)
      decreases Universe(heap) - values.Keys, 2
    {
      var x, y := heap[k.a.cell], heap[k.b.cell];
      HereFails(heap, k);
      if x.kind.Tuple? && |x.parts| != |y.parts| {
        return No;
      }
      v := CheckBase(k, x.base, y.base, BaseMode(x.kind, k.mode));
      if v.Yes? {
        v := CheckParts(k, 0, |x.parts|, |y.parts|);
        if v.Yes? && |x.parts| > 0 {
          assert Counterpart(x.kind, y.kind, |x.parts| - 1) < |y.parts|;
        }
      }
    }

    method FuncAssignable(k: Key) returns (v: Verdict)
      requires Comparing(k) && heap[k.a.cell].kind.Func?
      modifies this
      ensures v.Yes? ==> Comparing(k) && Grown() && Step(heap, k, Successes(values))
      ensures v.No? ==> !Holds(heap, k)
      ensures v.Panic? ==> !Holds(heap, k) && !Shaped(heap, k)
      decreases Universe(heap) - values.Keys, 2
    {
      hide Sound, Justified, PartsKnown, Step, Holds, Shaped;
      var x, y := heap[k.a.cell], heap[k.b.cell];
      HereFails(heap, k);
      if !x.base.o && y.base.o {
        return No;
      }
      v := CheckBase(k, Minus(y.base, OWNED), Minus(x.base, OWNED), CopyAsReference(k.mode));
      if !v.Yes? {
        return;
      }
      var rx, ry := x.kind.receivers, y.kind.receivers;
      v := CheckParts(k, 0, rx, ry);
      if !v.Yes? {
        return;
      }
      var px, py := rx + x.kind.params, ry + y.kind.params;
      ghost var receiversKnown := Successes(values);
      v := CheckParts(k, rx, px, py);
      if !v.Yes? {
        return;
      }
      PartsStayKnown(heap, k, 0, rx, ry, receiversKnown, Successes(values));
      ghost var paramsKnown := Successes(values);
      v := CheckParts(k, px, |x.parts|, |y.parts|);
      if v.Yes? {
        PartsStayKnown(heap, k, 0, rx, ry, paramsKnown, Successes(values));
        PartsStayKnown(heap, k, rx, px, py, paramsKnown, Successes(values));
        FuncStep(heap, k, Successes(values));
      }
    }

    /** The loop over methods looking for one of the given name. */
    method FindMethod(names: seq<string>, j: nat, name: string) returns (i: nat)
      ensures i == Lookup(names, j, name)
    {
      if j < |names| && names[j] == name {
        return j;
      }
      i := 0;
      while i < |names| && names[i] != name
        invariant i <= |names| && FirstNamed(names, name) == i + FirstNamed(names[i..], name)
      {
        assert names[i..][1..] == names[i + 1..];
        i := i + 1;
      }
    }

    method InterfaceAssignable(k: Key) returns (v: Verdict)
      requires Comparing(k) && heap[k.a.cell].kind.Interface?
      modifies this
      ensures v.Yes? ==> Comparing(k) && Grown() && Step(heap, k, Successes(values))
      ensures v.No? ==> !Holds(heap, k)
      ensures v.Panic? ==> !Holds(heap, k) && !Shaped(heap, k)
      decreases Universe(heap) - values.Keys, 2
    {
      hide Sound, Justified, MethodsKnown, Holds, Shaped, FitsHere;
      var x, y := heap[k.a.cell], heap[k.b.cell];
      HereFails(heap, k);
      v := CheckBase(k, x.base, y.base, BaseMode(x.kind, k.mode));
      if !v.Yes? {
        return;
      }
      var nx, ny := RefNames(heap, x.parts), RefNames(heap, y.parts);
      NoMethodKnown(heap, k, Successes(values));
      for j := 0 to |y.parts|
        invariant Comparing(k) && Grown()
        invariant MethodsKnown(heap, k, j, Successes(values)) && j <= |y.parts|
      {
        var i := FindMethod(nx, j, ny[j]);
        if i == |nx| {
          MissingMethod(heap, k, j);
          return Panic;
        }
        ghost var known := Successes(values);
        v := AssignableTo(PartKey(heap, k, i, j));
        if !v.Yes? {
          PartFails(heap, k, i, j);
          return;
        }
        NextMethod(heap, k, j, known, i, Successes(values));
      }
      InterfaceStep(heap, k, Successes(values));
      v := Yes;
    }

    method IsAssignableTo(k: Key) returns (v: Verdict)
      requires Valid(heap) && Sound(heap, values, open) && Justified(heap, values, open + {k})
      requires KeyInHeap(heap, k) && k in Successes(values) && (k.a.At? ==> k in open)
      modifies this
      ensures v.Yes? ==> Valid(heap) && Sound(heap, values, open) && Justified(heap, values, open + {k}) && Grown() && Step(heap, k, Successes(values))
      ensures v.No? ==> !Holds(heap, k)
      ensures v.Panic? ==> k.a.At? && !Holds(heap, k) && !Shaped(heap, k)
      decreases Universe(heap) - values.Keys, 3
    {
      HereFails(heap, k);
      match k.a
      case OfBase(x) =>
        v := if k.b.OfBase? && BaseAssignable(x, k.b.rights, k.mode) then Yes else No;
      case OfWildcard =>
        v := No;
      case OfNil =>
        v := if k.b.OfNil? || (k.b.At? && Nilable(heap[k.b.cell].kind)) then Yes else No;
      case At(_) =>
        if !(k.b.At? && SameShape(heap[k.a.cell].kind, heap[k.b.cell].kind)) {
          return No;
        }
        assert open + {k} == open;
        match heap[k.a.cell].kind
        case Func(_, _, _) => v := FuncAssignable(k);
        case Interface => v := InterfaceAssignable(k);
        case _ => v := PartwiseAssignable(k);
    }
  }

  /** The search, started with an empty memo table, decides membership in the greatest fixed point. It panics
      only if some comparison it can reach asks for a part that does not exist. */
  method IsAssignable(h: Heap, a: Ref, b: Ref, mode: Mode) returns (v: Verdict)
    requires Valid(h) && InHeap(a, |h|) && InHeap(b, |h|)
    ensures v.Yes? <==> Holds(h, Key(a, b, mode))
    ensures v.Panic? ==> !Shaped(h, Key(a, b, mode))
  {
    var state := new AssignableState(h);
    v := state.AssignableTo(Key(a, b, mode));
    if v.Yes? {
      JustifiedHold(h, state.values, Key(a, b, mode));
    }
  }

  method MovableTo(h: Heap, a: Ref, b: Ref) returns (v: Verdict)
    requires Valid(h) && InHeap(a, |h|) && InHeap(b, |h|)
    ensures v.Yes? <==> Holds(h, Key(a, b, Move))
    ensures Shaped(h, Key(a, b, Move)) ==> !v.Panic?
  {
    v := IsAssignable(h, a, b, Move);
  }

  method RefcopyableTo(h: Heap, a: Ref, b: Ref) returns (v: Verdict)
    requires Valid(h) && InHeap(a, |h|) && InHeap(b, |h|)
    ensures v.Yes? <==> Holds(h, Key(a, b, Reference))
    ensures Shaped(h, Key(a, b, Reference)) ==> !v.Panic?
  {
    v := IsAssignable(h, a, b, Reference);
  }

  method CopyableTo(h: Heap, a: Ref, b: Ref) returns (v: Verdict)
    requires Valid(h) && InHeap(a, |h|) && InHeap(b, |h|)
    ensures v.Yes? <==> Holds(h, Key(a, b, Copy))
    ensures Shaped(h, Key(a, b, Copy)) ==> !v.Panic?
  {
    v := IsAssignable(h, a, b, Copy);
  }
}
