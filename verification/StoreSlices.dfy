/** The store as the program holds it: a slice of a backing array that several stores may share. Operations
    that change the store copy it first, so no other store changes with it. */
module StoreSlices {
  import opened Wrappers
  import opened Permission
  import opened Merge
  import opened Stores
  import S = Stores

  /** A slice from position `from` to the end of its backing array. */
  datatype View = View(cells: array<Entry>, from: nat) {
    predicate Valid() {
      from <= cells.Length
    }

    function Contents(): Store
      requires Valid()
      reads cells
    {
      cells[from..]
    }
  }

  /** A copy in a new backing array, with room for `extra` entries at the beginning. */
  method CopyBehind(st: View, extra: nat) returns (r: View)
    requires st.Valid()
    ensures r.Valid() && r.from == 0 && fresh(r.cells)
    ensures r.cells.Length == extra + |st.Contents()| && r.cells[extra..] == st.Contents()
    ensures forall i :: 0 <= i < extra ==> r.cells[i] == Marker
  {
    var n := st.cells.Length - st.from;
    var cells := new Entry[extra + n](i => Marker);
    for i := 0 to n
      invariant forall k :: 0 <= k < extra ==> cells[k] == Marker
      invariant cells[extra..extra + i] == st.cells[st.from..st.from + i]
    {
      cells[extra + i] := st.cells[st.from + i];
      assert cells[extra..extra + i + 1] == cells[extra..extra + i] + [cells[extra + i]];
    }
    assert cells[extra..] == cells[extra..extra + n];
    assert st.cells[st.from..] == st.cells[st.from..st.from + n];
    r := View(cells, 0);
  }

  method BeginBlock(st: View) returns (r: View)
    requires st.Valid()
    ensures r.Valid() && fresh(r.cells) && r.Contents() == S.BeginBlock(st.Contents())
  {
    r := CopyBehind(st, 1);
  }

  /** The parent block's store is the rest of the same backing array. */
  method EndBlock(st: View) returns (r: Outcome<View>)
    requires st.Valid()
    ensures r.Ok? <==> S.EndBlock(st.Contents()).Ok?
    ensures r.Ok? ==> r.value.Valid() && r.value.cells == st.cells && r.value.Contents() == S.EndBlock(st.Contents()).value
    ensures !r.Ok? ==> r == Panic
  {
    var i := st.from;
    while i < st.cells.Length && !st.cells[i].Marker?
      invariant st.from <= i <= st.cells.Length
      invariant FrameEnd(st.Contents()) == (i - st.from) + FrameEnd(st.cells[i..])
    {
      assert st.cells[i..][1..] == st.cells[i + 1..];
      i := i + 1;
    }
    if i == st.cells.Length {
      return Panic;
    }
    r := Ok(View(st.cells, i + 1));
  }

  /** The loops that look for a variable. */
  method FindVar(st: View, name: string) returns (i: nat)
    requires st.Valid()
    ensures st.from <= i <= st.cells.Length && i - st.from == Find(st.Contents(), name)
  {
    i := st.from;
    while i < st.cells.Length && !Holds(st.cells[i], name)
      invariant st.from <= i <= st.cells.Length
      invariant Find(st.Contents(), name) == (i - st.from) + Find(st.cells[i..], name)
    {
      assert st.cells[i..][1..] == st.cells[i + 1..];
      i := i + 1;
    }
  }

  /** `r` is a new slice that holds what `wanted` says, or the same failure. */
  ghost predicate Produces(r: Outcome<View>, wanted: Outcome<Store>)
    reads if r.Ok? then {r.value.cells} else {}
  {
    match r
    case Ok(s) => s.Valid() && wanted == Ok(s.Contents())
    case Error => wanted.Error?
    case Panic => wanted.Panic?
  }

  method SetEffective(st: View, name: string, perm: Perm) returns (r: Outcome<View>)
    requires st.Valid()
    ensures Produces(r, S.SetEffective(st.Contents(), name, perm)) && (r.Ok? ==> fresh(r.value.cells))
  {
    var copy := CopyBehind(st, 0);
    assert copy.Contents() == st.Contents();
    var i := FindVar(copy, name);
    if i == copy.cells.Length {
      return Panic;
    }
    var v := copy.cells[i];
    if !Mergeable(v.max, perm, Intersection) {
      return Error;
    }
    copy.cells[i] := v.(eff := Merged(v.max, perm, Intersection));
    assert copy.Contents() == S.SetEffective(st.Contents(), name, perm).value;
    r := Ok(copy);
  }

  method SetMaximum(st: View, name: string, perm: Perm) returns (r: Outcome<View>)
    requires st.Valid()
    ensures Produces(r, S.SetMaximum(st.Contents(), name, perm)) && (r.Ok? ==> fresh(r.value.cells))
  {
    var copy := CopyBehind(st, 0);
    assert copy.Contents() == st.Contents();
    var i := FindVar(copy, name);
    if i == copy.cells.Length {
      return Panic;
    }
    var v := copy.cells[i];
    if !Mergeable(v.eff, perm, Intersection) {
      return Error;
    }
    copy.cells[i] := v.(eff := Merged(v.eff, perm, Intersection));
    copy.cells[i] := copy.cells[i].(max := perm);
    assert copy.Contents() == S.SetMaximum(st.Contents(), name, perm).value;
    r := Ok(copy);
  }

  lemma DefinedHere(st: Store, name: string, i: nat)
    requires i <= |st| && forall k :: 0 <= k < i ==> !st[k].Marker? && !Holds(st[k], name)
    ensures i < |st| && Holds(st[i], name) ==> Find(st, name) < FrameEnd(st)
    ensures i == |st| || st[i].Marker? ==> Find(st, name) >= FrameEnd(st)
  {
  }

  /** The loop that looks for a variable of the current frame. */
  method IsDefinedHere(st: View, name: string) returns (here: bool)
    requires st.Valid()
    ensures here <==> Find(st.Contents(), name) < FrameEnd(st.Contents())
  {
    var i := st.from;
    while i < st.cells.Length && !st.cells[i].Marker?
      invariant st.from <= i <= st.cells.Length
      invariant forall k :: st.from <= k < i ==> !st.cells[k].Marker? && !Holds(st.cells[k], name)
    {
      if Holds(st.cells[i], name) {
        DefinedHere(st.Contents(), name, i - st.from);
        return true;
      }
      i := i + 1;
    }
    DefinedHere(st.Contents(), name, i - st.from);
    here := false;
  }

  method Define(st: View, name: string, perm: Perm) returns (r: Outcome<View>)
    requires st.Valid()
    ensures Produces(r, S.Define(st.Contents(), name, perm)) && (r.Ok? ==> fresh(r.value.cells))
  {
    var here := IsDefinedHere(st, name);
    if here {
      r := SetEffective(st, name, perm);
      return;
    }
    var copy := CopyBehind(st, 1);
    copy.cells[0] := Var(name, perm, perm);
    assert copy.Contents() == [Var(name, perm, perm)] + st.Contents();
    r := Ok(copy);
  }

  method GetEffective(st: View, name: string) returns (r: Outcome<Perm>)
    requires st.Valid()
    ensures r == S.GetEffective(st.Contents(), name)
  {
    var i := FindVar(st, name);
    r := if i == st.cells.Length then Panic else Ok(st.cells[i].eff);
  }

  method GetMaximum(st: View, name: string) returns (r: Outcome<Perm>)
    requires st.Valid()
    ensures r == S.GetMaximum(st.Contents(), name)
  {
    var i := FindVar(st, name);
    r := if i == st.cells.Length then Panic else Ok(st.cells[i].max);
  }

  /** The first `n` entries merge to `done`. */
  lemma {:induction false} MergeFirst(a: Store, b: Store, n: nat, done: Store)
    requires n <= |a| && n <= |b| && MergeStores(a[..n], b) == Ok(done)
    ensures n == |a| ==> MergeStores(a, b) == Ok(done)
    ensures n < |a| && n < |b| && MergeEntry(a[n], b[n]).Ok? ==>
      MergeStores(a[..n + 1], b) == Ok(done + [MergeEntry(a[n], b[n]).value])
    ensures n < |a| && n < |b| && !MergeEntry(a[n], b[n]).Ok? ==>
      (MergeEntry(a[n], b[n]).Error? ==> MergeStores(a, b).Error?) && (MergeEntry(a[n], b[n]).Panic? ==> MergeStores(a, b).Panic?)
    ensures n < |a| && n == |b| ==> MergeStores(a, b).Panic?
  {
    assert a[..|a|] == a;
    assert n == 0 ==> a[..n] == [] && done == [];
    if n > 0 {
      var rest := MergeStores(a[1..][..n - 1], b[1..]);
      assert a[..n][1..] == a[1..][..n - 1];
      MergeFirst(a[1..], b[1..], n - 1, done[1..]);
      if n < |a| {
        assert a[..n + 1][1..] == a[1..][..n];
        assert done == [done[0]] + done[1..];
        assert forall e :: [done[0]] + (done[1..] + [e]) == done + [e];
      }
    } else if n < |a| && n < |b| {
      assert a[..0] == [] && a[..1] == [a[0]] && a[..1][1..] == [];
      var rest: Store := [];
      assert MergeStores(a[..1][1..], b[1..]) == Ok(rest);
      if MergeEntry(a[0], b[0]).Ok? {
        assert [MergeEntry(a[0], b[0]).value] + rest == done + [MergeEntry(a[0], b[0]).value];
      }
    }
  }

  /** The loop over the entries of two branches, in a new backing array. */
  method MergeEntries(a: View, b: View) returns (r: Outcome<View>)
    requires a.Valid() && b.Valid()
    ensures Produces(r, MergeStores(a.Contents(), b.Contents())) && (r.Ok? ==> fresh(r.value.cells))
  {
    var n, m := a.cells.Length - a.from, b.cells.Length - b.from;
    var cells := new Entry[n](i => Marker);
    ghost var x, y := a.Contents(), b.Contents();
    assert x[..0] == [] && cells[..0] == [];
    for i := 0 to n
      invariant i <= m && a.Contents() == x && b.Contents() == y
      invariant MergeStores(x[..i], y) == Ok(cells[..i])
    {
      MergeFirst(x, y, i, cells[..i]);
      if i == m {
        return Panic;
      }
      var e := MergeEntry(a.cells[a.from + i], b.cells[b.from + i]);
      match e
      case Error => return Error;
      case Panic => return Panic;
      case Ok(v) => cells[i] := v;
      assert cells[..i + 1] == cells[..i] + [cells[i]];
    }
    MergeFirst(x, y, n, cells[..n]);
    assert cells[0..] == cells[..n];
    r := Ok(View(cells, 0));
  }

  /** `Merge`, where None is the nil store: one that is nil gives way to the other. */
  method MergeBranches(a: Option<View>, b: Option<View>) returns (r: Outcome<Option<View>>)
    requires (a.Some? ==> a.value.Valid()) && (b.Some? ==> b.value.Valid())
    ensures a.None? ==> r == Ok(b)
    ensures a.Some? && b.None? ==> r == Ok(a)
    ensures a.Some? && b.Some? ==>
      var wanted := MergeStores(a.value.Contents(), b.value.Contents());
      match r
      case Ok(s) => s.Some? && fresh(s.value.cells) && s.value.Valid() && wanted == Ok(s.value.Contents())
      case Error => wanted.Error?
      case Panic => wanted.Panic?
  {
    if a.None? {
      return Ok(b);
    }
    if b.None? {
      return Ok(a);
    }
    var merged := MergeEntries(a.value, b.value);
    match merged
    case Ok(s) => r := Ok(Some(s));
    case Error => r := Error;
    case Panic => r := Panic;
  }
}
