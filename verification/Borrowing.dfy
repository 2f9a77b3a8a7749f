/** Borrowing and releasing: what the evaluation of an expression does to the store can be undone. */
module Borrowing {
  import opened Permission
  import opened Convert
  import opened Merge
  import opened Stores
  import opened Interpreter

  // ----- stores with one permission replaced

  predicate InScope(st: Store, name: string) {
    Find(st, name) < |st|
  }

  function Eff(st: Store, name: string): Perm
    requires InScope(st, name)
  {
    st[Find(st, name)].eff
  }

  function Max(st: Store, name: string): Perm
    requires InScope(st, name)
  {
    st[Find(st, name)].max
  }

  /** The store with the effective permission of one variable replaced. */
  function Put(st: Store, name: string, p: Perm): Store
    requires InScope(st, name)
  {
    st[Find(st, name) := st[Find(st, name)].(eff := p)]
  }

  lemma PutFind(st: Store, name: string, p: Perm, other: string)
    requires InScope(st, name)
    ensures Find(Put(st, name, p), other) == Find(st, other)
    ensures InScope(st, other) ==> Max(Put(st, name, p), other) == Max(st, other)
    ensures InScope(st, other) ==> Eff(Put(st, name, p), other) == if other == name then p else Eff(st, other)
  {
    var i := Find(st, other);
    if i < |st| {
      FindUnique(Put(st, name, p), other, i);
    } else {
      assert forall k :: 0 <= k < |st| ==> Holds(Put(st, name, p)[k], other) == Holds(st[k], other);
    }
  }

  /** Every effective permission is limited by its maximum, names of functions included. */
  predicate WithinMax(st: Store) {
    forall i :: 0 <= i < |st| && st[i].Var? ==>
      Mergeable(st[i].max, st[i].eff, Intersection) && Merged(st[i].max, st[i].eff, Intersection) == st[i].eff
  }

  /** What an assignment of `p` leaves in the variable. */
  function Limit(st: Store, name: string, p: Perm): Perm
    requires InScope(st, name) && Mergeable(Max(st, name), p, Intersection)
  {
    Merged(Max(st, name), p, Intersection)
  }

  lemma SetIsPut(st: Store, name: string, p: Perm)
    ensures SetEffective(st, name, p).Ok? <==> InScope(st, name) && Mergeable(Max(st, name), p, Intersection)
    ensures SetEffective(st, name, p).Ok? ==> SetEffective(st, name, p).value == Put(st, name, Limit(st, name, p))
  {
  }

  lemma SetFits(st: Store, name: string, p: Perm)
    requires WithinMax(st) && SetEffective(st, name, p).Ok?
    ensures WithinMax(SetEffective(st, name, p).value)
  {
    LimitedByMax(Max(st, name), p);
  }

  // ----- lending

  /** `b` can be lent from `st`: it is in scope, and what would be left in it is defined. */
  predicate CanLend(st: Store, b: Borrowed) {
    && InScope(st, b.name) && Eff(st, b.name) == b.perm
    && Convertible(b.perm, false) && Mergeable(Max(st, b.name), Dead(b.perm), Intersection)
  }

  /** The store with `b` lent: nothing but the dead permission is left in it. */
  function Lend(st: Store, b: Borrowed): Store
    requires CanLend(st, b)
  {
    Put(st, b.name, Limit(st, b.name, Dead(b.perm)))
  }

  lemma LendFits(st: Store, b: Borrowed)
    requires WithinMax(st) && CanLend(st, b)
    ensures WithinMax(Lend(st, b))
  {
    SetIsPut(st, b.name, Dead(b.perm));
    SetFits(st, b.name, Dead(b.perm));
  }

  /** Giving a lent variable its permission back restores the store. */
  lemma GiveBack(st: Store, b: Borrowed)
    requires WithinMax(st) && CanLend(st, b)
    ensures SetEffective(Lend(st, b), b.name, b.perm) == Ok(st)
  {
    PutFind(st, b.name, Limit(st, b.name, Dead(b.perm)), b.name);
    SetIsPut(Lend(st, b), b.name, b.perm);
    var i := Find(st, b.name);
    assert Lend(st, b)[i := st[i]] == st;
  }

  /** What a visit of the fragment returns: nothing is borrowed but the owner. */
  ghost predicate OnlyOwnerLent(st: Store, v: Visit) {
    && v.deps == []
    && match v.owner
       case NoOwner => v.st == st
       case OwnedBy(b) => CanLend(st, b) && v.st == Lend(st, b)
  }

  lemma OwnerReleased(st: Store, v: Visit)
    requires WithinMax(st) && OnlyOwnerLent(st, v)
    ensures WithinMax(v.st)
    ensures Release(v.st, OwnerToDeps(v)) == Ok(st) && Release(v.st, OwnerList(v.owner) + v.deps) == Ok(st)
  {
    if v.owner.OwnedBy? {
      LendFits(st, v.owner.b);
      GiveBack(st, v.owner.b);
      assert v.deps + [v.owner.b] == [v.owner.b] == [v.owner.b] + v.deps;
      assert [v.owner.b][1..] == [];
    }
  }

  // ----- several variables lent at once

  /** `st'` is `st` with `bs` lent, in order. */
  ghost predicate AllLent(st: Store, bs: seq<Borrowed>, st': Store)
    decreases |bs|
  {
    if bs == [] then st' == st
    else CanLend(st, bs[0]) && AllLent(Lend(st, bs[0]), bs[1..], st')
  }

  predicate DistinctNames(bs: seq<Borrowed>) {
    forall i, j :: 0 <= i < j < |bs| ==> bs[i].name != bs[j].name
  }

  function Names(bs: seq<Borrowed>): set<string> {
    set b <- bs :: b.name
  }

  lemma {:induction false} AllLentFits(st: Store, bs: seq<Borrowed>, st': Store)
    requires WithinMax(st) && AllLent(st, bs, st')
    ensures WithinMax(st')
    decreases |bs|
  {
    if bs != [] {
      LendFits(st, bs[0]);
      AllLentFits(Lend(st, bs[0]), bs[1..], st');
    }
  }

  // ----- stores that differ in the permissions of some variables

  /** The stores differ at most in the effective permissions of the innermost variables of these names. */
  predicate AgreeOutside(a: Store, b: Store, names: set<string>) {
    |a| == |b| && forall i :: 0 <= i < |a| ==>
      || b[i] == a[i]
      || (a[i].Var? && b[i].Var? && a[i].name in names && b[i] == a[i].(eff := b[i].eff) && Find(a, a[i].name) == i)
  }

  lemma AgreeFind(a: Store, b: Store, names: set<string>, name: string)
    requires AgreeOutside(a, b, names)
    ensures Find(b, name) == Find(a, name)
    ensures InScope(a, name) ==> Max(b, name) == Max(a, name) && (name !in names ==> Eff(b, name) == Eff(a, name))
  {
    var i := Find(a, name);
    assert forall k :: 0 <= k < |a| ==> Holds(b[k], name) == Holds(a[k], name);
    if i < |a| {
      FindUnique(b, name, i);
    }
  }

  lemma AgreeTransitive(a: Store, b: Store, c: Store, m: set<string>, n: set<string>)
    requires AgreeOutside(a, b, m) && AgreeOutside(b, c, n)
    ensures AgreeOutside(a, c, m + n)
  {
    forall i | 0 <= i < |a|
      ensures c[i] == a[i]
        || (a[i].Var? && c[i].Var? && a[i].name in m + n && c[i] == a[i].(eff := c[i].eff) && Find(a, a[i].name) == i)
    {
      if a[i].Var? {
        AgreeFind(a, b, m, a[i].name);
      }
    }
  }

  lemma PutAgrees(st: Store, name: string, p: Perm)
    requires InScope(st, name)
    ensures AgreeOutside(st, Put(st, name, p), {name})
  {
  }

  /** Stores that may differ in some variables only are equal exactly if these have the same permissions. */
  lemma AgreeEqual(a: Store, b: Store, names: set<string>)
    requires AgreeOutside(a, b, names)
    ensures a == b <==> forall n <- names :: InScope(a, n) ==> InScope(b, n) && Eff(b, n) == Eff(a, n)
  {
    if forall n <- names :: InScope(a, n) ==> InScope(b, n) && Eff(b, n) == Eff(a, n) {
      forall i | 0 <= i < |a|
        ensures b[i] == a[i]
      {
        if a[i].Var? {
          AgreeFind(a, b, names, a[i].name);
        }
      }
    }
  }

  // ----- releasing

  /** The permission of the last of the borrowed variables of that name. */
  function LastPerm(bs: seq<Borrowed>, name: string): Perm
    requires name in Names(bs)
  {
    var last := bs[|bs| - 1];
    if last.name == name then last.perm else LastPerm(bs[..|bs| - 1], name)
  }

  /** Of each name the last permission to be given back is the one the variable has in `st`. */
  predicate LastAsFirst(st: Store, bs: seq<Borrowed>) {
    forall n <- Names(bs) :: InScope(st, n) && LastPerm(bs, n) == Eff(st, n)
  }

  /** `b` can be given back as it is: its permission is below the maximum. */
  predicate CanGive(st: Store, b: Borrowed) {
    InScope(st, b.name) && Mergeable(Max(st, b.name), b.perm, Intersection) && Limit(st, b.name, b.perm) == b.perm
  }

  lemma AgreeCanGive(a: Store, b: Store, names: set<string>, x: Borrowed)
    requires AgreeOutside(a, b, names)
    ensures CanGive(b, x) == CanGive(a, x)
  {
    AgreeFind(a, b, names, x.name);
  }

  /** What is lent from limited permissions can be given back. */
  lemma LentCanGive(st: Store, b: Borrowed)
    requires WithinMax(st) && CanLend(st, b)
    ensures CanGive(st, b)
  {
  }

  lemma ReleaseSnoc(st: Store, bs: seq<Borrowed>, b: Borrowed)
    requires Release(st, bs).Ok?
    ensures Release(st, bs + [b]) ==
      var next := SetEffective(Release(st, bs).value, b.name, b.perm); if next.Ok? then next else Panic
    decreases |bs|
  {
    if bs == [] {
      assert ([] + [b])[1..] == [];
    } else {
      assert (bs + [b])[1..] == bs[1..] + [b];
      ReleaseSnoc(SetEffective(st, bs[0].name, bs[0].perm).value, bs[1..], b);
    }
  }

  /** Releasing sets each named variable to the permission of the last of its name, and no other. */
  lemma {:induction false} ReleaseSets(st: Store, bs: seq<Borrowed>)
    requires forall b <- bs :: CanGive(st, b)
    ensures Release(st, bs).Ok? && AgreeOutside(st, Release(st, bs).value, Names(bs))
    ensures forall n <- Names(bs) :: InScope(Release(st, bs).value, n) && Eff(Release(st, bs).value, n) == LastPerm(bs, n)
    decreases |bs|
  {
    hide Merged, Mergeable;
    if bs != [] {
      var k := |bs| - 1;
      var init, b := bs[..k], bs[k];
      assert bs == init + [b];
      ReleaseSets(st, init);
      var before := Release(st, init).value;
      ReleaseSnoc(st, init, b);
      AgreeCanGive(st, before, Names(init), b);
      SetIsPut(before, b.name, b.perm);
      PutAgrees(before, b.name, b.perm);
      AgreeTransitive(st, before, Put(before, b.name, b.perm), Names(init), {b.name});
      assert Names(init) + {b.name} == Names(bs);
      forall n | n in Names(bs)
        ensures InScope(Put(before, b.name, b.perm), n) && Eff(Put(before, b.name, b.perm), n) == LastPerm(bs, n)
      {
        PutFind(before, b.name, b.perm, n);
      }
    }
  }

  /** Lending touches the variables lent, and what is lent can be given back. */
  lemma {:induction false} LentAgrees(st: Store, bs: seq<Borrowed>, st': Store)
    requires WithinMax(st) && AllLent(st, bs, st')
    ensures AgreeOutside(st, st', Names(bs)) && forall b <- bs :: CanGive(st, b)
    decreases |bs|
  {
    if bs != [] {
      var b, next := bs[0], Lend(st, bs[0]);
      LentCanGive(st, b);
      LendFits(st, b);
      LentAgrees(next, bs[1..], st');
      PutAgrees(st, b.name, Limit(st, b.name, Dead(b.perm)));
      AgreeTransitive(st, next, st', {b.name}, Names(bs[1..]));
      assert bs == [b] + bs[1..];
      assert {b.name} + Names(bs[1..]) == Names(bs);
      forall x | x in bs
        ensures CanGive(st, x)
      {
        if x in bs[1..] {
          AgreeCanGive(st, next, {b.name}, x);
        }
      }
    }
  }

  /** Releasing what was lent, in any order and whether or not a variable was lent several times, succeeds; it
      restores the store exactly if of each variable the permission given back last is the one it had. */
  lemma ReleaseExactly(st: Store, bs: seq<Borrowed>, st': Store, order: seq<Borrowed>)
    requires WithinMax(st) && AllLent(st, bs, st') && forall b :: b in order <==> b in bs
    ensures Release(st', order).Ok? && (Release(st', order) == Ok(st) <==> LastAsFirst(st, order))
  {
    LentAgrees(st, bs, st');
    forall b | b in order
      ensures CanGive(st, b) && CanGive(st', b)
    {
      AgreeCanGive(st, st', Names(bs), b);
    }
    ReleaseSets(st', order);
    var after := Release(st', order).value;
    assert Names(order) == Names(bs);
    AgreeTransitive(st, st', after, Names(bs), Names(order));
    assert Names(bs) + Names(order) == Names(order);
    AgreeEqual(st, after, Names(order));
    assert forall n <- Names(order) :: InScope(st, n);
  }

  /** Borrowed variables that had their permissions in `st`, each of its own name, are last as first. */
  lemma {:induction false} DistinctLast(st: Store, bs: seq<Borrowed>)
    requires DistinctNames(bs) && forall b <- bs :: InScope(st, b.name) && b.perm == Eff(st, b.name)
    ensures LastAsFirst(st, bs)
    decreases |bs|
  {
    if bs != [] {
      var k := |bs| - 1;
      assert bs == bs[..k] + [bs[k]];
      DistinctLast(st, bs[..k]);
    }
  }

  /** What is lent with a name of its own has the permission of the store. */
  lemma {:induction false} DistinctLent(st: Store, bs: seq<Borrowed>, st': Store)
    requires AllLent(st, bs, st') && DistinctNames(bs)
    ensures forall b <- bs :: InScope(st, b.name) && b.perm == Eff(st, b.name)
    decreases |bs|
  {
    if bs != [] {
      DistinctLent(Lend(st, bs[0]), bs[1..], st');
      forall b | b in bs
        ensures InScope(st, b.name) && b.perm == Eff(st, b.name)
      {
        if b in bs[1..] {
          PutFind(st, bs[0].name, Limit(st, bs[0].name, Dead(bs[0].perm)), b.name);
        }
      }
    }
  }

  /** Variables lent with different names can be released in any order: the store is restored. */
  lemma ReleaseAnyOrder(st: Store, bs: seq<Borrowed>, st': Store, order: seq<Borrowed>)
    requires WithinMax(st) && AllLent(st, bs, st') && DistinctNames(bs) && multiset(order) == multiset(bs)
    ensures Release(st', order) == Ok(st)
  {
    assert forall b :: b in order <==> b in multiset(order);
    DistinctOrder(bs, order);
    DistinctLent(st, bs, st');
    DistinctLast(st, order);
    ReleaseExactly(st, bs, st', order);
  }

  lemma DistinctOrder(bs: seq<Borrowed>, order: seq<Borrowed>)
    requires DistinctNames(bs) && multiset(order) == multiset(bs)
    ensures DistinctNames(order)
  {
    forall i, j | 0 <= i < j < |order|
      ensures order[i].name != order[j].name
    {
      if order[i].name == order[j].name {
        assert order[i] in multiset(order) && order[j] in multiset(order);
        OnceEach(bs, order[i], order[j]);
        TwiceIn(order, i, j);
      }
    }
  }

  /** Of one name, variables with distinct names contain one, once. */
  lemma OnceEach(bs: seq<Borrowed>, a: Borrowed, b: Borrowed)
    requires DistinctNames(bs) && a in bs && b in bs && a.name == b.name
    ensures a == b && multiset(bs)[a] == 1
  {
    var k :| 0 <= k < |bs| && bs[k] == a;
    assert bs == bs[..k] + [bs[k]] + bs[k + 1..];
    assert a !in bs[..k] && a !in bs[k + 1..];
  }

  lemma TwiceIn(bs: seq<Borrowed>, i: nat, j: nat)
    requires i < j < |bs| && bs[i] == bs[j]
    ensures multiset(bs)[bs[i]] >= 2
  {
    assert bs == bs[..i] + [bs[i]] + bs[i + 1..j] + [bs[j]] + bs[j + 1..];
  }

  // ----- a variable lent twice

  /** Of the variables lent only these two are the same. */
  predicate OnlyTwice(bs: seq<Borrowed>, i: nat, j: nat) {
    i < j < |bs| && forall k, l :: 0 <= k < l < |bs| ==> (bs[k].name == bs[l].name <==> k == i && l == j)
  }

  /** The second time a variable is lent it has what was left the first time. */
  lemma {:induction false} LentAgain(st: Store, bs: seq<Borrowed>, st': Store, k: nat)
    requires AllLent(st, bs, st') && k < |bs| && forall l :: 0 <= l < k ==> bs[l].name != bs[k].name
    ensures InScope(st, bs[k].name) && bs[k].perm == Eff(st, bs[k].name)
    ensures Convertible(bs[k].perm, false) && Mergeable(Max(st, bs[k].name), Dead(bs[k].perm), Intersection)
    ensures forall j :: k < j < |bs| && bs[j].name == bs[k].name && (forall l :: k < l < j ==> bs[l].name != bs[k].name) ==>
      bs[j].perm == Limit(st, bs[k].name, Dead(bs[k].perm))
    decreases |bs|
  {
    var b, left := bs[0], Limit(st, bs[0].name, Dead(bs[0].perm));
    PutFind(st, b.name, left, bs[k].name);
    if k > 0 {
      assert forall l :: 0 <= l < |bs| - 1 ==> bs[1..][l] == bs[l + 1];
      LentAgain(Lend(st, b), bs[1..], st', k - 1);
      assert forall j :: k < j < |bs| ==> bs[j] == bs[1..][j - 1];
    } else {
      forall j | 0 < j < |bs| && bs[j].name == b.name && (forall l :: 0 < l < j ==> bs[l].name != b.name)
        ensures bs[j].perm == left
      {
        assert forall l :: 0 <= l < |bs| - 1 ==> bs[1..][l] == bs[l + 1];
        LentAgain(Lend(st, b), bs[1..], st', j - 1);
      }
    }
  }
  /** Lending the variable and leaving it dead, within its maximum, changes nothing. */
  predicate UnchangedByLending(st: Store, name: string) {
    && InScope(st, name) && Convertible(Eff(st, name), false)
    && Mergeable(Max(st, name), Dead(Eff(st, name)), Intersection) && Limit(st, name, Dead(Eff(st, name))) == Eff(st, name)
  }

  lemma {:induction false} LastPermAt(bs: seq<Borrowed>, k: nat)
    requires k < |bs| && forall l :: k < l < |bs| ==> bs[l].name != bs[k].name
    ensures bs[k].name in Names(bs) && LastPerm(bs, bs[k].name) == bs[k].perm
    decreases |bs|
  {
    var init := bs[..|bs| - 1];
    if k < |bs| - 1 {
      LastPermAt(init, k);
      assert init[k] in bs;
    }
  }

  /** Where one variable is lent twice and the others once, all others are last as first, and that one exactly if
      lending does not change it. */
  lemma TwiceLast(st: Store, bs: seq<Borrowed>, st': Store, i: nat, j: nat)
    requires AllLent(st, bs, st') && OnlyTwice(bs, i, j)
    ensures forall n <- Names(bs) :: InScope(st, n) && (n != bs[i].name ==> LastPerm(bs, n) == Eff(st, n))
    ensures bs[i].name in Names(bs) && (LastPerm(bs, bs[i].name) == Eff(st, bs[i].name) <==> UnchangedByLending(st, bs[i].name))
  {
    LentAgain(st, bs, st', i);
    LastPermAt(bs, j);
    assert bs[i].name == bs[j].name;
    forall n | n in Names(bs) && n != bs[i].name
      ensures InScope(st, n) && LastPerm(bs, n) == Eff(st, n)
    {
      var b :| b in bs && b.name == n;
      var k :| 0 <= k < |bs| && bs[k] == b;
      assert forall l :: 0 <= l < k ==> bs[l].name != bs[k].name;
      LentAgain(st, bs, st', k);
      LastPermAt(bs, k);
    }
  }

  /** Releasing in the order of lending then restores the store exactly if lending does not change that variable. */
  lemma LentTwice(st: Store, bs: seq<Borrowed>, st': Store, i: nat, j: nat)
    requires WithinMax(st) && AllLent(st, bs, st') && OnlyTwice(bs, i, j)
    ensures Release(st', bs).Ok? && (Release(st', bs) == Ok(st) <==> UnchangedByLending(st, bs[i].name))
  {
    ReleaseExactly(st, bs, st', bs);
    TwiceLast(st, bs, st', i, j);
  }

  /** With one variable lent twice the order matters: released last first it is always restored, released first
      first exactly if lending does not change it. */
  lemma RepeatedLendingOrder(st: Store, first: Borrowed, second: Borrowed)
    requires WithinMax(st) && CanLend(st, first) && CanLend(Lend(st, first), second) && first.name == second.name
    ensures var lent := Lend(Lend(st, first), second);
      && Release(lent, [second, first]) == Ok(st)
      && Release(lent, [first, second]).Ok? && (Release(lent, [first, second]) == Ok(st) <==> UnchangedByLending(st, first.name))
  {
    var lent, bs := Lend(Lend(st, first), second), [first, second];
    assert bs[1..] == [second] && [second][1..] == [];
    assert AllLent(Lend(Lend(st, first), second), [], lent);
    assert AllLent(Lend(st, first), [second], lent);
    assert AllLent(st, bs, lent);
    LentTwice(st, bs, lent, 0, 1);
    LastPermAt([second, first], 1);
    assert Names([second, first]) == {first.name};
    ReleaseExactly(st, bs, lent, [second, first]);
  }
}
