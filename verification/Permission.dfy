/** Permissions as trees. A structured permission is a kind, a base permission and its parts in order:
    the target of a pointer; the elements of a channel, array or slice; key and value of a map; the fields
    of a struct; the elements of a tuple; the methods of an interface; receivers, parameters and results
    of a function. */
module Permission {
  import opened BasePermission

  datatype Kind =
    | Pointer
    | Chan
    | Array
    | Slice
    | Map
    | Struct
    | Tuple
    | Interface
    | Func(name: string, receivers: nat, params: nat)

  datatype Perm =
    | Base(rights: Rights)
    | Wildcard
    | Nil
    | Node(kind: Kind, base: Rights, parts: seq<Perm>)

  /** The base permission; a wildcard has none. */
  function BaseOf(p: Perm): Rights
    requires !p.Wildcard?
  {
    match p
    case Base(b) => b
    case Nil => OWNED_MUTABLE
    case Node(_, b, _) => b
  }

  /** The shapes `nil` can be assigned to and merged with. */
  predicate Nilable(kind: Kind) {
    kind.Pointer? || kind.Chan? || kind.Slice? || kind.Map? || kind.Interface? || kind.Func?
  }

  /** Receivers and parameters of a function; its other parts, and those of every other shape, are covariant. */
  predicate Contra(kind: Kind, i: nat) {
    kind.Func? && i < kind.receivers + kind.params
  }

  /** The number of levels of a permission; it bounds recursion that swaps its two arguments. */
  ghost function Height(p: Perm): nat {
    if p.Node? then 1 + MaxHeight(p.parts) else 0
  }

  ghost function MaxHeight(ps: seq<Perm>): (h: nat)
    ensures forall i :: 0 <= i < |ps| ==> Height(ps[i]) <= h
  {
    if ps == [] then 0
    else
      var rest := MaxHeight(ps[1..]);
      var first := Height(ps[0]);
      assert forall i :: 1 <= i < |ps| ==> ps[i] == ps[1..][i-1];
      if first < rest then rest else first
  }

  /** The method name of a part; only functions have one. */
  function NameOf(kind: Kind): string {
    if kind.Func? then kind.name else ""
  }

  function PartName(p: Perm): string {
    if p.Node? then NameOf(p.kind) else ""
  }

  function PartNames(ps: seq<Perm>): (names: seq<string>)
    ensures |names| == |ps|
  {
    seq(|ps|, i requires 0 <= i < |ps| => PartName(ps[i]))
  }
}
