/** When a value of one permission may be moved, copied or referenced under another. */
module Assignable {
  import opened BasePermission
  import opened Permission

  datatype Mode = Move | Copy | Reference

  /** Reference types are copied by creating a second reference. */
  function CopyAsReference(mode: Mode): Mode {
    if mode.Copy? then Reference else mode
  }

  /** The rule for two base permissions. */
  predicate BaseAssignable(a: Rights, b: Rights, mode: Mode) {
    match mode
    case Copy => a.r || (a == NO_RIGHTS && b == NO_RIGHTS)
    case Move => Within(b, a) && (a.r || (a == NO_RIGHTS && b == NO_RIGHTS))
    case Reference => Within(b, a) && !Linear(a) && !Linear(b)
  }

  /** The mode in which the base permissions of two structures of this kind are compared. */
  function BaseMode(kind: Kind, mode: Mode): Mode {
    match kind
    case Pointer | Array | Struct | Tuple => mode
    case _ => CopyAsReference(mode)
  }

  /** The mode in which the parts of two structures of this kind are compared. */
  function PartMode(kind: Kind, mode: Mode): Mode {
    match kind
    case Array | Struct | Tuple => mode
    case Func(_, _, _) => Move
    case _ => CopyAsReference(mode)
  }

  predicate SameShape(ka: Kind, kb: Kind) {
    match ka
    case Pointer => kb.Pointer?
    case Chan => kb.Chan?
    case Array => kb.Array?
    case Slice => kb.Slice?
    case Map => kb.Map?
    case Struct => kb.Struct?
    case Tuple => kb.Tuple?
    case Interface => kb.Interface?
    case Func(_, _, _) => kb.Func?
  }

  /** The rule for the base permissions of two structures of the same shape. The base of a function
      describes its closure and is compared the other way round, except for ownership. */
  predicate HeadAssignable(kind: Kind, a: Rights, b: Rights, mode: Mode) {
    if kind.Func? then
      (a.o || !b.o) && BaseAssignable(Minus(b, OWNED), Minus(a, OWNED), CopyAsReference(mode))
    else
      BaseAssignable(a, b, BaseMode(kind, mode))
  }

  /** The position of the first of the names equal to `name`, or the number of names. */
  function FirstNamed(names: seq<string>, name: string): (i: nat)
    ensures i <= |names|
    ensures i < |names| ==> names[i] == name
    ensures forall k :: 0 <= k < i ==> names[k] != name
  {
    if names == [] then 0
    else if names[0] == name then 0
    else 1 + FirstNamed(names[1..], name)
  }

  /** The method found for the method `name` at position `j`: the one at the same position if the name
      matches, otherwise the first of that name. */
  function Lookup(names: seq<string>, j: nat, name: string): (i: nat)
    ensures i <= |names|
    ensures i < |names| ==> names[i] == name
    ensures name in names <==> i < |names|
  {
    if j < |names| && names[j] == name then j else FirstNamed(names, name)
  }

  /** Every part the comparison asks for exists. `na` and `nb` are the names of the parts. */
  predicate Fits(ka: Kind, na: seq<string>, kb: Kind, nb: seq<string>)
    requires SameShape(ka, kb)
  {
    match ka
    case Tuple => |na| == |nb|
    case Interface => forall j :: 0 <= j < |nb| ==> nb[j] in na
    case Func(_, rs, ps) =>
      |na| == 0 || (rs <= kb.receivers && ps <= kb.params && |na| - rs - ps <= |nb| - kb.receivers - kb.params)
    case _ => |na| <= |nb|
  }

  /** The position in the target of part `i` of a source that is not an interface. */
  function Counterpart(ka: Kind, kb: Kind, i: nat): nat
    requires SameShape(ka, kb)
  {
    if !ka.Func? || i < ka.receivers then i
    else if i < ka.receivers + ka.params then kb.receivers + (i - ka.receivers)
    else kb.receivers + kb.params + (i - ka.receivers - ka.params)
  }

  /** Part `i` of the source is compared with part `j` of the target. */
  predicate Linked(ka: Kind, na: seq<string>, kb: Kind, nb: seq<string>, i: nat, j: nat)
    requires SameShape(ka, kb)
  {
    i < |na| && j < |nb| && if ka.Interface? then i == Lookup(na, j, nb[j]) else j == Counterpart(ka, kb, i)
  }

  /** The rules of assignability, read as a recursive definition on trees. A comparison that asks for a
      part the target lacks (or a method the source lacks) is not assignable; the original panics there. */
  ghost predicate AssignableTo(a: Perm, b: Perm, mode: Mode)
    decreases Height(a) + Height(b)
  {
    match a
    case Base(x) => b.Base? && BaseAssignable(x, b.rights, mode)
    case Wildcard => false
    case Nil => b.Nil? || (b.Node? && Nilable(b.kind))
    case Node(ka, x, _) =>
      && b.Node?
      && SameShape(ka, b.kind)
      && HeadAssignable(ka, x, b.base, mode)
      && Fits(ka, PartNames(a.parts), b.kind, PartNames(b.parts))
      && forall i: nat, j: nat | Linked(ka, PartNames(a.parts), b.kind, PartNames(b.parts), i, j) ::
           if Contra(ka, i) then AssignableTo(b.parts[j], a.parts[i], PartMode(ka, mode))
           else AssignableTo(a.parts[i], b.parts[j], PartMode(ka, mode))
  }

  // ----- transitivity

  predicate Distinct(names: seq<string>) {
    forall i, j :: 0 <= i < j < |names| ==> names[i] != names[j]
  }

  /** No interface anywhere in the permission has two methods of the same name. */
  ghost predicate DistinctMethods(p: Perm) {
    p.Node? ==>
      && (p.kind.Interface? ==> Distinct(PartNames(p.parts)))
      && forall i :: 0 <= i < |p.parts| ==> DistinctMethods(p.parts[i])
  }

  lemma BaseTransitive(a: Rights, b: Rights, c: Rights, mode: Mode)
    requires BaseAssignable(a, b, mode) && BaseAssignable(b, c, mode)
    ensures BaseAssignable(a, c, mode)
  {
  }

  /** Kinds of the same shape have the same rule for bases. */
  lemma SameHead(ka: Kind, kb: Kind, a: Rights, b: Rights, mode: Mode)
    requires SameShape(ka, kb)
    ensures HeadAssignable(ka, a, b, mode) == HeadAssignable(kb, a, b, mode)
    ensures PartMode(ka, mode) == PartMode(kb, mode)
  {
  }

  lemma HeadTransitive(kind: Kind, a: Rights, b: Rights, c: Rights, mode: Mode)
    requires HeadAssignable(kind, a, b, mode) && HeadAssignable(kind, b, c, mode)
    ensures HeadAssignable(kind, a, c, mode)
  {
    hide BaseAssignable;
    if kind.Func? {
      BaseTransitive(Minus(c, OWNED), Minus(b, OWNED), Minus(a, OWNED), CopyAsReference(mode));
    } else {
      BaseTransitive(a, b, c, BaseMode(kind, mode));
    }
  }

  /** Where part `i` of `a` meets part `k` of `c`, there is a part `j` of `b` that meets both. */
  lemma LinksCompose(ka: Kind, na: seq<string>, kb: Kind, nb: seq<string>, kc: Kind, nc: seq<string>, i: nat, k: nat)
    returns (j: nat)
    requires SameShape(ka, kb) && SameShape(kb, kc)
    requires Fits(ka, na, kb, nb) && Fits(kb, nb, kc, nc)
    requires ka.Interface? ==> Distinct(na)
    requires Linked(ka, na, kc, nc, i, k)
    ensures Linked(ka, na, kb, nb, i, j) && Linked(kb, nb, kc, nc, j, k)
    ensures Contra(ka, i) == Contra(kb, j)
  {
    j := if ka.Interface? then Lookup(nb, k, nc[k]) else Counterpart(ka, kb, i);
  }

  lemma FitsCompose(ka: Kind, na: seq<string>, kb: Kind, nb: seq<string>, kc: Kind, nc: seq<string>)
    requires SameShape(ka, kb) && SameShape(kb, kc)
    requires Fits(ka, na, kb, nb) && Fits(kb, nb, kc, nc)
    ensures SameShape(ka, kc) && Fits(ka, na, kc, nc)
  {
  }

  /** Assignability is transitive in every mode. Only the outer two permissions need distinct method names. */
  lemma {:induction false} Transitive(a: Perm, b: Perm, c: Perm, mode: Mode)
    requires AssignableTo(a, b, mode) && AssignableTo(b, c, mode)
    requires DistinctMethods(a) && DistinctMethods(c)
    ensures AssignableTo(a, c, mode)
    decreases Height(a) + Height(b) + Height(c)
  {
    if a.Node? {
      var na, nb, nc := PartNames(a.parts), PartNames(b.parts), PartNames(c.parts);
      hide HeadAssignable, Fits, Lookup, Counterpart;
      assert HeadAssignable(a.kind, b.base, c.base, mode) by { SameHead(a.kind, b.kind, b.base, c.base, mode); }
      HeadTransitive(a.kind, a.base, b.base, c.base, mode);
      FitsCompose(a.kind, na, b.kind, nb, c.kind, nc);
      forall i: nat, k: nat | Linked(a.kind, na, c.kind, nc, i, k)
        ensures if Contra(a.kind, i) then AssignableTo(c.parts[k], a.parts[i], PartMode(a.kind, mode))
                else AssignableTo(a.parts[i], c.parts[k], PartMode(a.kind, mode))
      {
        var j := LinksCompose(a.kind, na, b.kind, nb, c.kind, nc, i, k);
        if Contra(a.kind, i) {
          Transitive(c.parts[k], b.parts[j], a.parts[i], PartMode(a.kind, mode));
        } else {
          Transitive(a.parts[i], b.parts[j], c.parts[k], PartMode(a.kind, mode));
        }
      }
    }
  }

  /** Interfaces: the base is assignable, and every method of the target has a counterpart that can be assigned
      to it. */
  lemma InterfaceAssignable(a: Perm, b: Perm, mode: Mode)
    requires a.Node? && b.Node? && a.kind.Interface? && b.kind.Interface?
    ensures AssignableTo(a, b, mode) <==>
      && BaseAssignable(a.base, b.base, CopyAsReference(mode))
      && forall j :: 0 <= j < |b.parts| ==>
           var i := Lookup(PartNames(a.parts), j, PartNames(b.parts)[j]);
           i < |a.parts| && AssignableTo(a.parts[i], b.parts[j], CopyAsReference(mode))
  {
    var na, nb := PartNames(a.parts), PartNames(b.parts);
    if AssignableTo(a, b, mode) {
      forall j | 0 <= j < |b.parts|
        ensures Lookup(na, j, nb[j]) < |a.parts| && AssignableTo(a.parts[Lookup(na, j, nb[j])], b.parts[j], CopyAsReference(mode))
      {
        assert Linked(a.kind, na, b.kind, nb, Lookup(na, j, nb[j]), j);
      }
    }
  }

  function Method(name: string, closure: Rights): Perm {
    Node(Func(name, 0, 0), closure, [])
  }

  lemma ClosuresMove(a: Perm, b: Perm)
    requires a.Node? && b.Node? && a == Method(PartName(a), a.base) && b == Method(PartName(b), b.base)
    requires Within(a.base, OWNED) && Within(b.base, OWNED)
    ensures AssignableTo(a, b, Move) <==> a.base.o || !b.base.o
  {
  }

  /** Method names must be distinct for transitivity: a method is looked up at its own position first, so going
      through `b` finds the second method `f` of `a`, and going to `c` directly the first. */
  lemma DuplicateNamesBreakTransitivity()
    ensures exists a: Perm, b: Perm, c: Perm ::
      AssignableTo(a, b, Move) && AssignableTo(b, c, Move) && !AssignableTo(a, c, Move)
  {
    hide AssignableTo;
    var unowned, owned, other := Method("f", NO_RIGHTS), Method("f", OWNED), Method("g", OWNED);
    ClosuresMove(unowned, owned);
    ClosuresMove(owned, owned);
    ClosuresMove(other, other);
    var a := Node(Interface, READ, [unowned, owned, other]);
    var b := Node(Interface, READ, [other, owned]);
    var c := Node(Interface, READ, [owned]);
    var na, nb, nc := PartNames(a.parts), PartNames(b.parts), PartNames(c.parts);
    assert na == ["f", "f", "g"] && nb == ["g", "f"] && nc == ["f"];
    assert Lookup(na, 0, "g") == 2 && Lookup(na, 1, "f") == 1 && Lookup(nb, 0, "f") == 1 && Lookup(na, 0, "f") == 0;
    hide Lookup;
    InterfaceAssignable(a, b, Move);
    InterfaceAssignable(b, c, Move);
    InterfaceAssignable(a, c, Move);
  }
}
