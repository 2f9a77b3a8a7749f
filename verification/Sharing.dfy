/** What copying guarantees about the parts of a value that both copies reach. */
module Sharing {
  import opened BasePermission
  import opened Permission
  import opened Assignable

  /** Copying such a value leaves both copies pointing at the same parts. */
  predicate IsReference(kind: Kind) {
    kind.Pointer? || kind.Chan? || kind.Slice? || kind.Map? || kind.Interface?
  }

  /** The base permissions `x` and `y` at a place that two values share: neither is linear, and the copy has
      no right the original lacks. */
  predicate SafelyShared(x: Rights, y: Rights) {
    !Linear(x) && !Linear(y) && Within(y, x)
  }

  /** A pair of places reached in the original and the copy, and whether a reference was followed on the way. */
  datatype Place = Place(a: Perm, b: Perm, shared: bool)

  /** Following linked parts, outside functions, along `path` leads from one pair of places to another. */
  ghost predicate Leads(from: Place, path: seq<(nat, nat)>, to: Place)
    decreases |path|
  {
    if path == [] then from == to
    else
      var (i, j) := path[0];
      && from.a.Node? && from.b.Node? && SameShape(from.a.kind, from.b.kind) && !from.a.kind.Func?
      && Linked(from.a.kind, PartNames(from.a.parts), from.b.kind, PartNames(from.b.parts), i, j)
      && Leads(Place(from.a.parts[i], from.b.parts[j], from.shared || IsReference(from.a.kind)), path[1..], to)
  }

  /** The base permissions at a pair of places are shared safely if they are shared at all. The base of a
      slice, map, channel or interface stands for the data behind it and counts as shared. */
  ghost predicate SafePlace(p: Place) {
    match p.a
    case Base(x) => p.b.Base? && (p.shared ==> SafelyShared(x, p.b.rights))
    case Node(kind, x, _) =>
      kind.Func? || (p.b.Node? && (p.shared || (IsReference(kind) && !kind.Pointer?) ==> SafelyShared(x, p.b.base)))
    case _ => true
  }

  /** After a copy, every place that both values reach is shared safely. */
  lemma {:induction false} CopiesShareSafely(a: Perm, b: Perm, shared: bool, path: seq<(nat, nat)>, to: Place)
    requires AssignableTo(a, b, if shared then Reference else Copy)
    requires Leads(Place(a, b, shared), path, to)
    ensures SafePlace(to)
    decreases |path|
  {
    if path != [] {
      var (i, j) := path[0];
      var next := shared || IsReference(a.kind);
      assert PartMode(a.kind, if shared then Reference else Copy) == if next then Reference else Copy;
      CopiesShareSafely(a.parts[i], b.parts[j], next, path[1..], to);
    }
  }
}
