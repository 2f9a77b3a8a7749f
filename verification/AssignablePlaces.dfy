/** Assignability place by place: what copying, moving and referencing accept, and not only what they guarantee. */
module AssignablePlaces {
  import opened BasePermission
  import opened Permission
  import opened Assignable
  import opened Graph
  import A = AssignableRules

  /** How a place of the source and a place of the target come to hold the same data: each has its own, both point
      at it, or the source gives it up. */
  datatype Holding = Separate | Shared | Moved

  datatype Place = Place(a: Perm, b: Perm, how: Holding)

  function StartHolding(mode: Mode): Holding {
    match mode
    case Move => Moved
    case Copy => Separate
    case Reference => Shared
  }

  /** A value that is copied by copying a reference to the data it stands for. */
  predicate RefersToData(kind: Kind) {
    match kind
    case Pointer | Chan | Slice | Map | Interface => true
    case Array | Struct | Tuple => false
    case Func(_, _, _) => false
  }

  /** The data of a part of a structure held like this: behind a reference it is shared once it is not given up,
      and what a function takes and returns is handed over. */
  function PartHolding(kind: Kind, how: Holding): Holding {
    if kind.Func? then Moved
    else if how.Separate? && RefersToData(kind) then Shared
    else how
  }

  /** The base of a pointer is that of the pointer; that of a slice, map, channel or interface is that of the data. */
  function BaseHolding(kind: Kind, how: Holding): Holding {
    if kind.Pointer? then how else if how.Separate? && RefersToData(kind) then Shared else how
  }

  // ----- what a place asks for

  predicate Exclusive(x: Rights) {
    (x.xr && x.r) || (x.xw && x.w)
  }

  predicate NothingBoth(x: Rights, y: Rights) {
    x == NO_RIGHTS && y == NO_RIGHTS
  }

  /** The rights `x` of the source and `y` of the target at one place. */
  predicate RightsPass(x: Rights, y: Rights, how: Holding) {
    match how
    case Separate => x.r || NothingBoth(x, y)
    case Shared => Within(y, x) && !Exclusive(x) && !Exclusive(y)
    case Moved => Within(y, x) && (x.r || NothingBoth(x, y))
  }

  /** The closure of a function: an owned one is asked for by an owned place; otherwise the target may do no more
      than the closure already assumes, and copies share it. */
  predicate ClosurePasses(x: Rights, y: Rights, how: Holding) {
    (y.o ==> x.o) && RightsPass(y.(o := false), x.(o := false), ClosureHolding(how))
  }

  /** The parts that are compared exist. */
  predicate PartsExist(a: Perm, b: Perm)
    requires a.Node? && b.Node?
  {
    match a.kind
    case Tuple => |a.parts| == |b.parts|
    case Interface => forall j :: 0 <= j < |b.parts| ==> PartName(b.parts[j]) in PartNames(a.parts)
    case Func(_, rs, ps) =>
      b.kind.Func? && (a.parts == [] || (rs <= b.kind.receivers && ps <= b.kind.params
        && |a.parts| - (rs + ps) <= |b.parts| - (b.kind.receivers + b.kind.params)))
    case _ => |a.parts| <= |b.parts|
  }

  /** What a place asks for, its parts aside. */
  predicate Passes(p: Place) {
    match p.a
    case Base(x) => p.b.Base? && RightsPass(x, p.b.rights, p.how)
    case Wildcard => false
    case Nil => p.b.Nil? || (p.b.Node? && !p.b.kind.Array? && !p.b.kind.Struct? && !p.b.kind.Tuple?)
    case Node(kind, x, _) =>
      && p.b.Node? && (p.b.kind == kind || (kind.Func? && p.b.kind.Func?)) && PartsExist(p.a, p.b)
      && if kind.Func? then ClosurePasses(x, p.b.base, p.how) else RightsPass(x, p.b.base, BaseHolding(kind, p.how))
  }

  // ----- the places that are reached

  /** Part `i` of the source and part `j` of the target are the same part. */
  predicate SamePart(a: Perm, b: Perm, i: nat, j: nat)
    requires a.Node? && b.Node?
  {
    && i < |a.parts| && j < |b.parts|
    && match a.kind
       case Interface => i == Lookup(PartNames(a.parts), j, PartName(b.parts[j]))
       case Func(_, rs, ps) =>
         b.kind.Func? &&
         if i < rs then j == i
         else if i < rs + ps then j - b.kind.receivers == i - rs
         else j - (b.kind.receivers + b.kind.params) == i - (rs + ps)
       case _ => i == j
  }

  /** The place of two parts. Receivers and parameters go the other way. */
  function PartPlace(p: Place, i: nat, j: nat): Place
    requires p.a.Node? && p.b.Node? && i < |p.a.parts| && j < |p.b.parts|
  {
    var how := PartHolding(p.a.kind, p.how);
    if p.a.kind.Func? && i < p.a.kind.receivers + p.a.kind.params then Place(p.b.parts[j], p.a.parts[i], how)
    else Place(p.a.parts[i], p.b.parts[j], how)
  }

  /** Following the same parts along `path` leads from one place to another. */
  ghost predicate Reaches(from: Place, path: seq<(nat, nat)>, to: Place)
    decreases |path|
  {
    if path == [] then from == to
    else
      var (i, j) := path[0];
      && from.a.Node? && from.b.Node? && SamePart(from.a, from.b, i, j) && Reaches(PartPlace(from, i, j), path[1..], to)
  }

  /** Every place that can be reached passes. */
  ghost predicate AllPass(from: Place) {
    forall path: seq<(nat, nat)>, to: Place :: Reaches(from, path, to) ==> Passes(to)
  }

  function ModeOf(how: Holding): Mode {
    match how
    case Separate => Copy
    case Shared => Reference
    case Moved => Move
  }

  lemma AllPassHere(p: Place)
    requires AllPass(p)
    ensures Passes(p)
  {
    assert Reaches(p, [], p);
  }

  lemma AllPassPart(p: Place, i: nat, j: nat)
    requires AllPass(p) && p.a.Node? && p.b.Node? && SamePart(p.a, p.b, i, j)
    ensures AllPass(PartPlace(p, i, j))
  {
    forall path: seq<(nat, nat)>, to: Place | Reaches(PartPlace(p, i, j), path, to)
      ensures Passes(to)
    {
      assert ([(i, j)] + path)[1..] == path;
      assert Reaches(p, [(i, j)] + path, to);
    }
  }

  lemma RightsRule(x: Rights, y: Rights, how: Holding)
    ensures BaseAssignable(x, y, ModeOf(how)) <==> RightsPass(x, y, how)
  {
  }

  lemma DropOwned(x: Rights)
    ensures Minus(x, OWNED) == x.(o := false)
  {
  }

  /** A closure that is copied is shared. */
  function ClosureHolding(how: Holding): Holding {
    if how.Separate? then Shared else how
  }

  lemma ModeRule(kind: Kind, how: Holding)
    ensures CopyAsReference(ModeOf(how)) == ModeOf(ClosureHolding(how))
    ensures !kind.Func? ==> BaseMode(kind, ModeOf(how)) == ModeOf(BaseHolding(kind, how))
  {
  }

  lemma ClosureRule(kind: Kind, x: Rights, y: Rights, how: Holding)
    requires kind.Func?
    ensures HeadAssignable(kind, x, y, ModeOf(how)) <==> ClosurePasses(x, y, how)
  {
    hide BaseAssignable, RightsPass, Minus, CopyAsReference, ModeOf;
    DropOwned(x);
    DropOwned(y);
    ModeRule(kind, how);
    RightsRule(y.(o := false), x.(o := false), ClosureHolding(how));
  }

  lemma HeadRule(kind: Kind, x: Rights, y: Rights, how: Holding)
    ensures HeadAssignable(kind, x, y, ModeOf(how)) <==>
      if kind.Func? then ClosurePasses(x, y, how) else RightsPass(x, y, BaseHolding(kind, how))
  {
    hide BaseAssignable, RightsPass, ClosurePasses, BaseMode, BaseHolding, ModeOf;
    if kind.Func? {
      ClosureRule(kind, x, y, how);
    } else {
      ModeRule(kind, how);
      RightsRule(x, y, BaseHolding(kind, how));
    }
  }

  lemma PartsRule(a: Perm, b: Perm)
    requires a.Node? && b.Node? && SameShape(a.kind, b.kind)
    ensures Fits(a.kind, PartNames(a.parts), b.kind, PartNames(b.parts)) <==> PartsExist(a, b)
  {
    var nb := PartNames(b.parts);
    assert forall j :: 0 <= j < |b.parts| ==> nb[j] == PartName(b.parts[j]);
  }

  /** The rules of the recursive definition at one structure are those of its place. */
  lemma NodeRules(p: Place)
    requires p.a.Node? && p.b.Node?
    ensures Passes(p) <==>
      && SameShape(p.a.kind, p.b.kind)
      && HeadAssignable(p.a.kind, p.a.base, p.b.base, ModeOf(p.how))
      && Fits(p.a.kind, PartNames(p.a.parts), p.b.kind, PartNames(p.b.parts))
  {
    HeadRule(p.a.kind, p.a.base, p.b.base, p.how);
    if SameShape(p.a.kind, p.b.kind) {
      PartsRule(p.a, p.b);
    }
    hide Fits, PartsExist, HeadAssignable, ClosurePasses, RightsPass;
  }

  lemma PartRules(p: Place, i: nat, j: nat)
    requires p.a.Node? && p.b.Node? && SameShape(p.a.kind, p.b.kind)
    ensures SamePart(p.a, p.b, i, j) <==> Linked(p.a.kind, PartNames(p.a.parts), p.b.kind, PartNames(p.b.parts), i, j)
    ensures ModeOf(PartHolding(p.a.kind, p.how)) == PartMode(p.a.kind, ModeOf(p.how))
  {
  }

  /** A value may be copied, moved or referenced under another permission exactly if every place that both reach
      passes. */
  lemma {:induction false} AssignableIffPlaces(p: Place)
    ensures AssignableTo(p.a, p.b, ModeOf(p.how)) <==> AllPass(p)
    decreases Height(p.a) + Height(p.b)
  {
    if AllPass(p) {
      AllPassHere(p);
      PlacesAssign(p);
    }
    if AssignableTo(p.a, p.b, ModeOf(p.how)) {
      forall path: seq<(nat, nat)>, to: Place | Reaches(p, path, to)
        ensures Passes(to)
      {
        AssignedPlaces(p, path, to);
      }
    }
  }

  lemma {:induction false} PlacesAssign(p: Place)
    requires AllPass(p)
    ensures AssignableTo(p.a, p.b, ModeOf(p.how))
    decreases Height(p.a) + Height(p.b)
  {
    AllPassHere(p);
    if p.a.Node? {
      NodeRules(p);
      forall i: nat, j: nat | Linked(p.a.kind, PartNames(p.a.parts), p.b.kind, PartNames(p.b.parts), i, j)
        ensures var q := PartPlace(p, i, j); AssignableTo(q.a, q.b, PartMode(p.a.kind, ModeOf(p.how)))
      {
        PartRules(p, i, j);
        AllPassPart(p, i, j);
        PlacesAssign(PartPlace(p, i, j));
      }
      hide AllPass, Passes, SamePart, Linked, Fits, HeadAssignable;
    }
  }

  lemma {:induction false} AssignedPlaces(p: Place, path: seq<(nat, nat)>, to: Place)
    requires AssignableTo(p.a, p.b, ModeOf(p.how)) && Reaches(p, path, to)
    ensures Passes(to)
    decreases |path|
  {
    if path == [] {
      if p.a.Node? {
        NodeRules(p);
      }
    } else {
      var (i, j) := path[0];
      PartRules(p, i, j);
      AssignedPlaces(PartPlace(p, i, j), path[1..], to);
    }
  }

  /** Every place of two cyclic permissions that is reached down to `depth` passes. */
  ghost predicate AllPassTo(h: Heap, a: Ref, b: Ref, how: Holding, depth: nat)
    requires Valid(h) && InHeap(a, |h|) && InHeap(b, |h|)
  {
    AllPass(Place(Unfold(h, a, depth), Unfold(h, b, depth), how))
  }

  lemma TreeIffPlaces(h: Heap, a: Ref, b: Ref, how: Holding, depth: nat)
    requires Valid(h) && InHeap(a, |h|) && InHeap(b, |h|)
    ensures A.TreeHolds(h, A.Key(a, b, ModeOf(how)), depth) <==> AllPassTo(h, a, b, how, depth)
  {
    hide AllPass, Unfold;
    AssignableIffPlaces(Place(Unfold(h, a, depth), Unfold(h, b, depth), how));
  }

  /** For cyclic permissions, the same of the places at every depth. */
  lemma CyclicIffPlaces(h: Heap, a: Ref, b: Ref, how: Holding)
    requires Valid(h) && InHeap(a, |h|) && InHeap(b, |h|)
    ensures A.Holds(h, A.Key(a, b, ModeOf(how))) <==> forall depth: nat :: AllPassTo(h, a, b, how, depth)
  {
    hide AllPassTo, A.Holds, A.TreeHolds;
    A.HoldsIsLimit(h, A.Key(a, b, ModeOf(how)));
    forall depth: nat
      ensures A.TreeHolds(h, A.Key(a, b, ModeOf(how)), depth) <==> AllPassTo(h, a, b, how, depth)
    {
      TreeIffPlaces(h, a, b, how, depth);
    }
  }
}
