/** Permissions as the program holds them: a heap of cells that point to one another, possibly in cycles. */
module Graph {
  import opened BasePermission
  import opened Permission

  /** A permission value: base permissions, wildcards and nil are values, structures are pointers to cells. */
  datatype Ref = OfBase(rights: Rights) | OfWildcard | OfNil | At(cell: nat)

  datatype Cell = Cell(kind: Kind, base: Rights, parts: seq<Ref>)

  type Heap = seq<Cell>

  predicate InHeap(r: Ref, size: nat) {
    r.At? ==> r.cell < size
  }

  /** The parts a cell has by its Go type. */
  predicate CellShape(h: Heap, c: Cell) {
    match c.kind
    case Pointer | Chan | Array | Slice => |c.parts| == 1
    case Map => |c.parts| == 2
    case Func(_, rs, ps) => rs + ps <= |c.parts|
    case Interface => forall i :: 0 <= i < |c.parts| ==> c.parts[i].At? && c.parts[i].cell < |h| && h[c.parts[i].cell].kind.Func?
    case _ => true
  }

  /** No reference leaves the heap. */
  ghost predicate Closed(h: Heap) {
    forall k :: 0 <= k < |h| ==> forall i :: 0 <= i < |h[k].parts| ==> InHeap(h[k].parts[i], |h|)
  }

  ghost predicate Valid(h: Heap) {
    Closed(h) && forall k :: 0 <= k < |h| ==> CellShape(h, h[k])
  }

  /** The tree seen from `r` down to `depth` levels of structure; below that, structures have no parts. */
  ghost function Unfold(h: Heap, r: Ref, depth: nat): Perm
    requires Closed(h) && InHeap(r, |h|)
    decreases depth
  {
    match r
    case OfBase(b) => Base(b)
    case OfWildcard => Wildcard
    case OfNil => Nil
    case At(k) =>
      Node(h[k].kind, h[k].base,
        if depth == 0 then [] else seq(|h[k].parts|, i requires 0 <= i < |h[k].parts| => Unfold(h, h[k].parts[i], depth - 1)))
  }

  function RefName(h: Heap, r: Ref): string
    requires InHeap(r, |h|)
  {
    if r.At? then NameOf(h[r.cell].kind) else ""
  }

  /** The method names of the parts of a cell. */
  function RefNames(h: Heap, refs: seq<Ref>): (names: seq<string>)
    requires forall i :: 0 <= i < |refs| ==> InHeap(refs[i], |h|)
    ensures |names| == |refs|
  {
    seq(|refs|, i requires 0 <= i < |refs| => RefName(h, refs[i]))
  }

  /** Unfolding one level deeper shows the parts, with the names they have in the heap. */
  lemma UnfoldParts(h: Heap, r: Ref, depth: nat)
    requires Closed(h) && InHeap(r, |h|) && r.At?
    ensures PartNames(Unfold(h, r, depth + 1).parts) == RefNames(h, h[r.cell].parts)
  {
  }

  /** A larger heap shows the same trees for the permissions of the smaller one. */
  lemma {:induction false} UnfoldExtends(small: Heap, large: Heap, r: Ref, depth: nat)
    requires Closed(small) && Closed(large) && small <= large && InHeap(r, |small|)
    ensures Unfold(large, r, depth) == Unfold(small, r, depth)
    decreases depth
  {
    if r.At? && depth > 0 {
      forall i | 0 <= i < |small[r.cell].parts|
        ensures Unfold(large, small[r.cell].parts[i], depth - 1) == Unfold(small, small[r.cell].parts[i], depth - 1)
      {
        UnfoldExtends(small, large, small[r.cell].parts[i], depth - 1);
      }
      assert Unfold(large, r, depth).parts == Unfold(small, r, depth).parts;
    }
  }

  /** There are finitely many base permissions, hence finitely many references into a heap. */
  function AllRights(): (all: set<Rights>)
    ensures forall b: Rights :: b in all
  {
    var all := set o: bool, r: bool, w: bool, xr: bool, xw: bool | true :: Rights(o, r, w, xr, xw);
    assert forall b: Rights :: b in all by {
      forall b: Rights
        ensures b in all
      {
        assert b == Rights(b.o, b.r, b.w, b.xr, b.xw);
      }
    }
    all
  }

  function Refs(h: Heap): (refs: set<Ref>)
    ensures forall r: Ref :: r in refs <==> InHeap(r, |h|)
  {
    var bases := set b <- AllRights() :: OfBase(b);
    var cells := set i: nat | i < |h| :: At(i);
    assert forall r: Ref :: r.OfBase? ==> r.rights in AllRights() && r == OfBase(r.rights);
    bases + cells + {OfWildcard, OfNil}
  }
}
