/** The store of the abstract interpreter: a table of variables in scope, innermost first. */
module Stores {
  import opened Permission
  import opened Merge

  /** A variable with its effective and maximum permission, or the beginning of a frame. The original keeps
      both in one record and marks a frame by the empty name, so no variable may have that name. */
  datatype Entry = Marker | Var(name: string, eff: Perm, max: Perm)

  type Store = seq<Entry>

  /** Error is the returned error, Panic the abandoned interpretation. */
  datatype Outcome<+T> = Ok(value: T) | Error | Panic

  predicate Holds(e: Entry, name: string) {
    e.Var? && e.name == name
  }

  /** The position of the innermost variable of that name, or the length of the store. */
  function Find(st: Store, name: string): (i: nat)
    ensures i <= |st|
    ensures i < |st| ==> Holds(st[i], name)
    ensures forall k :: 0 <= k < i ==> !Holds(st[k], name)
  {
    if st == [] then 0 else if Holds(st[0], name) then 0 else 1 + Find(st[1..], name)
  }

  lemma FindUnique(st: Store, name: string, i: nat)
    requires i < |st| && Holds(st[i], name) && forall k :: 0 <= k < i ==> !Holds(st[k], name)
    ensures Find(st, name) == i
  {
  }

  /** The position of the innermost frame marker, or the length of the store. */
  function FrameEnd(st: Store): (i: nat)
    ensures i <= |st|
    ensures i < |st| ==> st[i].Marker?
    ensures forall k :: 0 <= k < i ==> !st[k].Marker?
  {
    if st == [] then 0 else if st[0].Marker? then 0 else 1 + FrameEnd(st[1..])
  }

  // ----- the operations, as functions

  function BeginBlock(st: Store): Store {
    [Marker] + st
  }

  /** The store of the parent block; outside any block the original panics. */
  function EndBlock(st: Store): Outcome<Store> {
    var i := FrameEnd(st);
    if i == |st| then Panic else Ok(st[i + 1..])
  }

  /** The new effective permission is the given one limited by the maximum. */
  function SetEffective(st: Store, name: string, perm: Perm): Outcome<Store> {
    var i := Find(st, name);
    if i == |st| then Panic
    else if !Mergeable(st[i].max, perm, Intersection) then Error
    else Ok(st[i := Var(name, Merged(st[i].max, perm, Intersection), st[i].max)])
  }

  /** The effective permission is limited by the new maximum. */
  function SetMaximum(st: Store, name: string, perm: Perm): Outcome<Store> {
    var i := Find(st, name);
    if i == |st| then Panic
    else if !Mergeable(st[i].eff, perm, Intersection) then Error
    else Ok(st[i := Var(name, Merged(st[i].eff, perm, Intersection), perm)])
  }

  /** A name defined in the current frame is assigned; otherwise a new variable is added. */
  function Define(st: Store, name: string, perm: Perm): Outcome<Store> {
    if Find(st, name) < FrameEnd(st) then SetEffective(st, name, perm) else Ok([Var(name, perm, perm)] + st)
  }

  function GetEffective(st: Store, name: string): (p: Outcome<Perm>)
    ensures p.Ok? || p.Panic?
  {
    var i := Find(st, name);
    if i == |st| then Panic else Ok(st[i].eff)
  }

  function GetMaximum(st: Store, name: string): (p: Outcome<Perm>)
    ensures p.Ok? || p.Panic?
  {
    var i := Find(st, name);
    if i == |st| then Panic else Ok(st[i].max)
  }

  /** Two entries of two branches. Different names are an error; intersecting the missing permissions of frame
      markers panics. */
  function MergeEntry(a: Entry, b: Entry): Outcome<Entry> {
    if a.Marker? && b.Marker? then Panic
    else if a.Marker? || b.Marker? || a.name != b.name then Error
    else if !Mergeable(a.eff, b.eff, Intersection) || !Mergeable(a.max, b.max, Intersection) then Error
    else Ok(Var(a.name, Merged(a.eff, b.eff, Intersection), Merged(a.max, b.max, Intersection)))
  }

  /** The intersection of two branches, entry by entry, over the length of the first; a shorter second store
      panics. */
  function MergeStores(a: Store, b: Store): Outcome<Store> {
    if a == [] then Ok([])
    else if b == [] then Panic
    else
      var first := MergeEntry(a[0], b[0]);
      if first.Error? then Error else if first.Panic? then Panic
      else
        var rest := MergeStores(a[1..], b[1..]);
        if rest.Ok? then Ok([first.value] + rest.value) else rest
  }

  // ----- effective permissions stay below maxima

  /** Intersecting with `max` gives `eff` back, up to function names. */
  predicate BelowMax(eff: Perm, max: Perm) {
    Mergeable(max, eff, Intersection) && Erase(Merged(max, eff, Intersection)) == Erase(eff)
  }

  predicate Limited(st: Store) {
    forall i :: 0 <= i < |st| && st[i].Var? ==> BelowMax(st[i].eff, st[i].max)
  }

  lemma {:induction false} EraseErased(p: Perm)
    ensures Erase(Erase(p)) == Erase(p)
  {
    if p.Node? {
      forall i | 0 <= i < |p.parts|
        ensures Erase(Erase(p.parts[i])) == Erase(p.parts[i])
      {
        EraseErased(p.parts[i]);
      }
      assert Erase(Erase(p)).parts == Erase(p).parts;
    }
  }

  /** Without names, intersection commutes exactly. */
  lemma ErasedCommutes(a: Perm, b: Perm)
    requires Erase(a) == a && Erase(b) == b
    ensures Mergeable(a, b, Intersection) <==> Mergeable(b, a, Intersection)
    ensures Mergeable(a, b, Intersection) ==> Merged(a, b, Intersection) == Merged(b, a, Intersection)
  {
    Commutative(a, b, Intersection);
    EraseMerged(a, b, Intersection);
    EraseMerged(b, a, Intersection);
  }

  /** Being below a maximum does not depend on names. */
  lemma BelowErased(eff: Perm, max: Perm)
    ensures BelowMax(eff, max) <==> BelowMax(Erase(eff), Erase(max))
    ensures BelowMax(eff, max) ==> Merged(Erase(max), Erase(eff), Intersection) == Erase(eff)
  {
    EraseErased(eff);
    EraseErased(max);
    EraseMerged(max, eff, Intersection);
    EraseMerged(Erase(max), Erase(eff), Intersection);
  }

  /** Limiting by a maximum gives something below it, names included. */
  lemma LimitedByMax(max: Perm, perm: Perm)
    requires Mergeable(max, perm, Intersection)
    ensures Mergeable(max, Merged(max, perm, Intersection), Intersection)
    ensures Merged(max, Merged(max, perm, Intersection), Intersection) == Merged(max, perm, Intersection)
  {
    Idempotent(max, Intersection);
    Associative(max, max, perm, Intersection);
  }

  /** Limiting by a new maximum gives something below it. */
  lemma LimitedByNewMax(eff: Perm, perm: Perm)
    requires Mergeable(eff, perm, Intersection)
    ensures BelowMax(Merged(eff, perm, Intersection), perm)
  {
    var e, p := Erase(eff), Erase(perm);
    EraseErased(eff);
    EraseErased(perm);
    EraseMerged(eff, perm, Intersection);
    ErasedCommutes(e, p);
    LimitedByMax(p, e);
    EraseMerged(perm, Merged(eff, perm, Intersection), Intersection);
  }

  /** Intersection is monotone: without names, the intersection of two effective permissions is below the
      intersection of their maxima. */
  lemma ErasedMonotone(e1: Perm, m1: Perm, e2: Perm, m2: Perm)
    requires Erase(e1) == e1 && Erase(m1) == m1 && Erase(e2) == e2 && Erase(m2) == m2
    requires Mergeable(m1, e1, Intersection) && Merged(m1, e1, Intersection) == e1
    requires Mergeable(m2, e2, Intersection) && Merged(m2, e2, Intersection) == e2
    requires Mergeable(e1, e2, Intersection)
    ensures Mergeable(m1, m2, Intersection) ==>
      && Mergeable(Merged(m1, m2, Intersection), Merged(e1, e2, Intersection), Intersection)
      && Merged(Merged(m1, m2, Intersection), Merged(e1, e2, Intersection), Intersection) == Merged(e1, e2, Intersection)
  {
    hide Mergeable, Merged;
    Associative(m1, e1, e2, Intersection);
    Associative(e1, m2, e2, Intersection);
    ErasedCommutes(e1, m2);
    Associative(m2, e1, e2, Intersection);
    Associative(m1, m2, Merged(e1, e2, Intersection), Intersection);
  }

  lemma MergeBelow(a: Entry, b: Entry)
    requires a.Var? && b.Var? && BelowMax(a.eff, a.max) && BelowMax(b.eff, b.max) && MergeEntry(a, b).Ok?
    ensures BelowMax(MergeEntry(a, b).value.eff, MergeEntry(a, b).value.max)
  {
    var e, m := MergeEntry(a, b).value.eff, MergeEntry(a, b).value.max;
    BelowErased(a.eff, a.max);
    BelowErased(b.eff, b.max);
    EraseErased(a.eff);
    EraseErased(a.max);
    EraseErased(b.eff);
    EraseErased(b.max);
    EraseMerged(a.eff, b.eff, Intersection);
    EraseMerged(a.max, b.max, Intersection);
    ErasedMonotone(Erase(a.eff), Erase(a.max), Erase(b.eff), Erase(b.max));
    EraseMerged(m, e, Intersection);
  }

  lemma {:induction false} MergeLimited(a: Store, b: Store)
    requires Limited(a) && Limited(b) && MergeStores(a, b).Ok?
    ensures Limited(MergeStores(a, b).value)
  {
    if a != [] {
      assert Limited(a[1..]) && Limited(b[1..]);
      MergeLimited(a[1..], b[1..]);
      MergeBelow(a[0], b[0]);
    }
  }

  /** How a store came about: by operations on the empty store, and by merging branches. */
  datatype History =
    | Empty
    | Began(h: History)
    | Ended(h: History)
    | Defined(h: History, name: string, perm: Perm)
    | EffectiveSet(h: History, name: string, perm: Perm)
    | MaximumSet(h: History, name: string, perm: Perm)
    | Joined(left: History, right: History)

  /** The store has never been allocated; merging returns the other one. */
  predicate IsNil(h: History) {
    h.Empty? || (h.Joined? && IsNil(h.left) && IsNil(h.right))
  }

  function Replay(h: History): Outcome<Store> {
    match h
    case Empty => Ok([])
    case Began(g) => var st := Replay(g); if st.Ok? then Ok(BeginBlock(st.value)) else st
    case Ended(g) => var st := Replay(g); if st.Ok? then EndBlock(st.value) else st
    case Defined(g, name, perm) => var st := Replay(g); if st.Ok? then Define(st.value, name, perm) else st
    case EffectiveSet(g, name, perm) => var st := Replay(g); if st.Ok? then SetEffective(st.value, name, perm) else st
    case MaximumSet(g, name, perm) => var st := Replay(g); if st.Ok? then SetMaximum(st.value, name, perm) else st
    case Joined(l, r) =>
      var a, b := Replay(l), Replay(r);
      if IsNil(l) then b
      else if IsNil(r) then a
      else if a.Ok? && b.Ok? then MergeStores(a.value, b.value) else if a.Ok? then b else a
  }

  lemma SetEffectiveLimited(st: Store, name: string, perm: Perm)
    requires Limited(st) && SetEffective(st, name, perm).Ok?
    ensures Limited(SetEffective(st, name, perm).value)
  {
    LimitedByMax(st[Find(st, name)].max, perm);
  }

  /** In every store that operations can produce, every effective permission is below its maximum. */
  lemma {:induction false} ReachableLimited(h: History)
    requires Replay(h).Ok?
    ensures Limited(Replay(h).value)
  {
    match h
    case Empty =>
    case Began(g) => ReachableLimited(g);
    case Ended(g) => ReachableLimited(g);
    case Defined(g, name, perm) =>
      ReachableLimited(g);
      var st := Replay(g).value;
      if Find(st, name) < FrameEnd(st) {
        SetEffectiveLimited(st, name, perm);
      } else {
        Idempotent(perm, Intersection);
      }
    case EffectiveSet(g, name, perm) =>
      ReachableLimited(g);
      SetEffectiveLimited(Replay(g).value, name, perm);
    case MaximumSet(g, name, perm) =>
      ReachableLimited(g);
      var st := Replay(g).value;
      LimitedByNewMax(st[Find(st, name)].eff, perm);
    case Joined(l, r) =>
      if !IsNil(r) || IsNil(l) {
        ReachableLimited(r);
      }
      if !IsNil(l) {
        ReachableLimited(l);
      }
      if !IsNil(l) && !IsNil(r) {
        MergeLimited(Replay(l).value, Replay(r).value);
      }
  }
}
