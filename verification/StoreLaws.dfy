/** The laws of the store as a scoped table: what each operation does to every variable and to the scopes. */
module StoreLaws {
  import opened Wrappers
  import opened Permission
  import opened Merge
  import opened Stores
  import S = Stores

  /** What is known of a variable: its effective and maximum permission. */
  function Known(st: Store, name: string): Option<(Perm, Perm)> {
    if GetEffective(st, name).Ok? && GetMaximum(st, name).Ok? then
      Some((GetEffective(st, name).value, GetMaximum(st, name).value))
    else None
  }

  /** The variable of this name is in the innermost block. */
  predicate InBlock(st: Store, name: string) {
    exists i :: 0 <= i < |st| && Holds(st[i], name) && forall k :: 0 <= k <= i ==> !st[k].Marker?
  }

  lemma InBlockIff(st: Store, name: string)
    ensures InBlock(st, name) <==> Find(st, name) < FrameEnd(st)
  {
    if Find(st, name) < FrameEnd(st) {
      assert Holds(st[Find(st, name)], name);
    }
  }

  /** The effective permission set is the given one limited by the maximum; the maximum, all other variables and the
      blocks stay. It fails for unknown variables and for permissions that do not intersect with the maximum. */
  lemma SettingEffective(st: Store, name: string, perm: Perm, other: string)
    ensures SetEffective(st, name, perm).Ok? <==>
      Known(st, name).Some? && Mergeable(Known(st, name).value.1, perm, Intersection)
    ensures SetEffective(st, name, perm).Panic? <==> Known(st, name).None?
    ensures SetEffective(st, name, perm).Ok? ==>
      var after, max := SetEffective(st, name, perm).value, Known(st, name).value.1;
      && Known(after, other) == (if other == name then Some((Merged(max, perm, Intersection), max)) else Known(st, other))
      && FrameEnd(after) == FrameEnd(st) && (InBlock(after, other) <==> InBlock(st, other))
  {
    if SetEffective(st, name, perm).Ok? {
      Replaced(st, SetEffective(st, name, perm).value, Find(st, name), other);
    }
  }

  /** The maximum set is the given one, and the effective permission is limited by it. */
  lemma SettingMaximum(st: Store, name: string, perm: Perm, other: string)
    ensures SetMaximum(st, name, perm).Ok? <==>
      Known(st, name).Some? && Mergeable(Known(st, name).value.0, perm, Intersection)
    ensures SetMaximum(st, name, perm).Panic? <==> Known(st, name).None?
    ensures SetMaximum(st, name, perm).Ok? ==>
      var after, eff := SetMaximum(st, name, perm).value, Known(st, name).value.0;
      && Known(after, other) == (if other == name then Some((Merged(eff, perm, Intersection), perm)) else Known(st, other))
      && FrameEnd(after) == FrameEnd(st) && (InBlock(after, other) <==> InBlock(st, other))
  {
    if SetMaximum(st, name, perm).Ok? {
      Replaced(st, SetMaximum(st, name, perm).value, Find(st, name), other);
    }
  }

  /** Replacing the permissions of one variable. */
  lemma Replaced(st: Store, after: Store, i: nat, other: string)
    requires i < |st| == |after| && st[i].Var? && Find(st, st[i].name) == i
    requires after[i].Var? && after[i].name == st[i].name && forall k :: 0 <= k < |st| && k != i ==> after[k] == st[k]
    ensures Find(after, other) == Find(st, other) && FrameEnd(after) == FrameEnd(st)
    ensures other != st[i].name ==> Known(after, other) == Known(st, other)
    ensures Known(after, st[i].name) == Some((after[i].eff, after[i].max))
    ensures InBlock(after, other) <==> InBlock(st, other)
  {
    SameFind(st, after, other);
    SameFind(st, after, st[i].name);
    SameFrame(st, after);
    InBlockIff(st, other);
    InBlockIff(after, other);
  }

  lemma SameFind(st: Store, after: Store, name: string)
    requires |st| == |after| && forall k :: 0 <= k < |st| ==> Holds(after[k], name) == Holds(st[k], name)
    ensures Find(after, name) == Find(st, name)
  {
    var i := Find(st, name);
    if i < |st| {
      FindUnique(after, name, i);
    }
  }

  lemma SameFrame(st: Store, after: Store)
    requires |st| == |after| && forall k :: 0 <= k < |st| ==> after[k].Marker? == st[k].Marker?
    ensures FrameEnd(after) == FrameEnd(st)
  {
  }

  /** One more entry in front. */
  lemma Pushed(e: S.Entry, st: Store, name: string)
    ensures Known([e] + st, name) == if Holds(e, name) then Some((e.eff, e.max)) else Known(st, name)
    ensures InBlock([e] + st, name) <==> e.Var? && (e.name == name || InBlock(st, name))
    ensures EndBlock([e] + st) == if e.Marker? then Ok(st) else EndBlock(st)
  {
    PushedFind(e, st, name);
    InBlockIff(st, name);
    InBlockIff([e] + st, name);
    PushedEnd(e, st);
    hide InBlock, EndBlock, Find, FrameEnd;
    assert Find(st, name) < |st| ==> ([e] + st)[1 + Find(st, name)] == st[Find(st, name)];
  }

  lemma PushedFind(e: S.Entry, st: Store, name: string)
    ensures Find([e] + st, name) == if Holds(e, name) then 0 else 1 + Find(st, name)
    ensures FrameEnd([e] + st) == if e.Marker? then 0 else 1 + FrameEnd(st)
  {
    assert ([e] + st)[1..] == st && ([e] + st)[0] == e;
  }

  lemma PushedEnd(e: S.Entry, st: Store)
    ensures EndBlock([e] + st) == if e.Marker? then Ok(st) else EndBlock(st)
  {
    assert ([e] + st)[1..] == st && ([e] + st)[0] == e;
    var i := FrameEnd(st);
    if !e.Marker? && i < |st| {
      assert ([e] + st)[i + 2..] == st[i + 1..];
    }
  }

  /** Defining a name of the innermost block assigns it; any other is a new variable with the permission as effective
      and maximum permission, which hides, but does not change, one of an outer block. */
  lemma Defining(st: Store, name: string, perm: Perm, other: string)
    ensures InBlock(st, name) ==> Define(st, name, perm) == SetEffective(st, name, perm)
    ensures !InBlock(st, name) ==>
      && Define(st, name, perm).Ok?
      && var after := Define(st, name, perm).value;
         && Known(after, other) == (if other == name then Some((perm, perm)) else Known(st, other))
         && (InBlock(after, other) <==> other == name || InBlock(st, other))
         && EndBlock(after) == EndBlock(st)
  {
    InBlockIff(st, name);
    hide InBlock, Known, EndBlock;
    Pushed(Var(name, perm, perm), st, other);
  }

  /** A new block hides nothing, is empty, and ends with the store it began in. */
  lemma Beginning(st: Store, name: string)
    ensures Known(BeginBlock(st), name) == Known(st, name) && !InBlock(BeginBlock(st), name)
    ensures EndBlock(BeginBlock(st)) == Ok(st)
  {
    var after := BeginBlock(st);
    assert after[1..] == st && after[0].Marker?;
  }

  /** Ending a block leaves the variables that are not in it. Outside any block it panics. */
  lemma {:induction false} Ending(st: Store, name: string)
    ensures EndBlock(st).Panic? <==> Marker !in st
    ensures EndBlock(st).Ok? && !InBlock(st, name) ==> Known(EndBlock(st).value, name) == Known(st, name)
    decreases |st|
  {
    InBlockIff(st, name);
    if st != [] && !st[0].Marker? {
      InBlockIff(st[1..], name);
      Ending(st[1..], name);
    }
  }

  /** Merging intersects effective permissions and maxima, variable by variable, between stores of the same variables
      outside any block. */
  lemma {:induction false} Merging(a: Store, b: Store, name: string)
    requires MergeStores(a, b).Ok? && |a| == |b|
    ensures var m := MergeStores(a, b).value;
      && |m| == |a| && Marker !in a && Marker !in b
      && match Known(a, name)
         case None => Known(m, name) == None && Known(b, name) == None
         case Some((ea, ma)) =>
           && Known(b, name).Some?
           && var (eb, mb) := Known(b, name).value;
              && Mergeable(ea, eb, Intersection) && Mergeable(ma, mb, Intersection)
              && Known(m, name) == Some((Merged(ea, eb, Intersection), Merged(ma, mb, Intersection)))
    decreases |a|
  {
    if a != [] {
      Merging(a[1..], b[1..], name);
      assert a == [a[0]] + a[1..] && b == [b[0]] + b[1..];
      var m := MergeStores(a, b).value;
      assert m == [m[0]] + m[1..] && MergeStores(a[1..], b[1..]) == Ok(m[1..]) && MergeEntry(a[0], b[0]) == Ok(m[0]);
      hide Known, MergeStores, InBlock, EndBlock;
      Pushed(a[0], a[1..], name);
      Pushed(b[0], b[1..], name);
      Pushed(m[0], m[1..], name);
    }
  }
}
