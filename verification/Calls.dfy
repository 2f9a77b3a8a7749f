/** What a call does to the variables that own its arguments, whether they are lent, frozen or taken for good. */
module Calls {
  import opened BasePermission
  import opened Permission
  import opened Assignable
  import opened Convert
  import opened Merge
  import opened Stores
  import opened Interpreter
  import opened Borrowing
  import opened Evaluation
  import opened Ownership

  /** The variable that owns an argument, the base permission it is converted to when the argument is bound to its
      parameter, and whether it is given back after the call. */
  datatype Passing = Passing(b: Borrowed, goal: Rights, lent: bool)

  /** How one visited argument is passed: copied, or of a value without owner, it leaves no trace. */
  ghost function PassingOf(v: Visit, param: Perm): seq<Passing> {
    if AssignableTo(v.perm, param, Copy) || v.owner.NoOwner? || v.perm.Wildcard? || param.Wildcard? then []
    else if !BaseOf(param).o then [Passing(v.owner.b, NO_RIGHTS, true)]
    else [Passing(v.owner.b, TransferGoal(v.owner.b.perm, v.perm, param), false)]
  }

  /** How the arguments are passed, from left to right. */
  ghost function Passings(st: Store, args: seq<Expr>, params: seq<Perm>): seq<Passing>
    decreases |args|
  {
    if args == [] || params == [] then []
    else
      var v := VisitExpr(st, args[0]);
      if !v.Ok? then []
      else
        var t := MoveOrCopy(v.value.st, v.value.perm, params[0], v.value.owner, v.value.deps);
        if t.Ok? then PassingOf(v.value, params[0]) + Passings(t.value.st, args[1..], params[1..]) else []
  }

  /** The evaluation of every argument only borrows; what becomes of its value is open. */
  ghost predicate ArgsEvaluate(st: Store, args: seq<Expr>, params: seq<Perm>)
    decreases |args|
  {
    args != [] && params != [] ==>
      var v := VisitExpr(st, args[0]);
      OnlyBorrows(st, args[0]) &&
      (v.Ok? ==>
         var t := MoveOrCopy(v.value.st, v.value.perm, params[0], v.value.owner, v.value.deps);
         t.Ok? ==> ArgsEvaluate(t.value.st, args[1..], params[1..]))
  }

  /** The variables that are given back. */
  function GivenBack(ps: seq<Passing>): seq<Borrowed> {
    if ps == [] then []
    else if ps[0].lent then [ps[0].b] + GivenBack(ps[1..]) else GivenBack(ps[1..])
  }

  function Owners(ps: seq<Passing>): set<string> {
    set p <- ps :: p.b.name
  }

  // ----- the store after the arguments

  /** The owner can be lent, and what is left of it is defined. */
  predicate CanPass(st: Store, p: Passing) {
    CanLend(st, p.b) && Mergeable(Max(st, p.b.name), ConvertToBase(p.b.perm, p.goal, false), Intersection)
  }

  /** What is left in the owner. */
  function Left(st: Store, p: Passing): Perm
    requires CanPass(st, p)
  {
    Limit(st, p.b.name, ConvertToBase(p.b.perm, p.goal, false))
  }

  /** `st'` is `st` after the arguments have been passed. */
  predicate AllPassed(st: Store, ps: seq<Passing>, st': Store)
    decreases |ps|
  {
    if ps == [] then st' == st
    else CanPass(st, ps[0]) && AllPassed(Put(st, ps[0].b.name, Left(st, ps[0])), ps[1..], st')
  }

  lemma PassFits(st: Store, p: Passing)
    requires WithinMax(st) && CanPass(st, p)
    ensures WithinMax(Put(st, p.b.name, Left(st, p)))
  {
    SetIsPut(st, p.b.name, ConvertToBase(p.b.perm, p.goal, false));
    SetFits(st, p.b.name, ConvertToBase(p.b.perm, p.goal, false));
  }

  lemma {:induction false} PassedAppend(st: Store, ps: seq<Passing>, mid: Store, qs: seq<Passing>, st': Store)
    requires AllPassed(st, ps, mid) && AllPassed(mid, qs, st')
    ensures AllPassed(st, ps + qs, st') && GivenBack(ps + qs) == GivenBack(ps) + GivenBack(qs)
    decreases |ps|
  {
    if ps == [] {
      assert ps + qs == qs;
    } else {
      assert (ps + qs)[1..] == ps[1..] + qs;
      PassedAppend(Put(st, ps[0].b.name, Left(st, ps[0])), ps[1..], mid, qs, st');
    }
  }

  /** Binding one argument to its parameter. */
  lemma ArgumentPasses(st: Store, arg: Expr, param: Perm)
    requires WithinMax(st) && OnlyBorrows(st, arg) && VisitExpr(st, arg).Ok?
    requires var v := VisitExpr(st, arg).value; MoveOrCopy(v.st, v.perm, param, v.owner, v.deps).Ok?
    ensures var v := VisitExpr(st, arg).value;
      var t := MoveOrCopy(v.st, v.perm, param, v.owner, v.deps).value;
      && WithinMax(t.st) && t.deps == []
      && AllPassed(st, PassingOf(v, param), t.st) && OwnerList(t.owner) == GivenBack(PassingOf(v, param))
  {
    BorrowsUndoable(st, arg);
    UndoableReleased(st, arg);
    hide VisitExpr, OnlyBorrows;
    var v := VisitExpr(st, arg).value;
    var t := MoveOrCopy(v.st, v.perm, param, v.owner, v.deps).value;
    if AssignableTo(v.perm, param, Copy) {
    } else {
      CannotBeWildcards(v, param);
      if v.owner.OwnedBy? {
        OwnerPasses(st, v, param);
      } else {
        NobodyPasses(v, param);
      }
    }
  }

  lemma CannotBeWildcards(v: Visit, param: Perm)
    requires !AssignableTo(v.perm, param, Copy) && MoveOrCopy(v.st, v.perm, param, v.owner, v.deps).Ok?
    ensures !v.perm.Wildcard? && !param.Wildcard?
  {
  }

  lemma NobodyPasses(v: Visit, param: Perm)
    requires v.owner.NoOwner? && v.deps == [] && !AssignableTo(v.perm, param, Copy)
    requires MoveOrCopy(v.st, v.perm, param, v.owner, v.deps).Ok?
    ensures MoveOrCopy(v.st, v.perm, param, v.owner, v.deps).value == Transfer(v.st, NoOwner, [])
  {
    hide AssignableTo;
  }

  lemma OwnerPasses(st: Store, v: Visit, param: Perm)
    requires WithinMax(st) && OnlyOwnerLent(st, v) && v.owner.OwnedBy? && !v.perm.Wildcard? && !param.Wildcard?
    requires !AssignableTo(v.perm, param, Copy) && MoveOrCopy(v.st, v.perm, param, v.owner, v.deps).Ok?
    ensures var t := MoveOrCopy(v.st, v.perm, param, v.owner, v.deps).value;
      && WithinMax(t.st) && t.deps == []
      && AllPassed(st, PassingOf(v, param), t.st) && OwnerList(t.owner) == GivenBack(PassingOf(v, param))
  {
    var b, p := v.owner.b, PassingOf(v, param)[0];
    var t := MoveOrCopy(v.st, v.perm, param, v.owner, v.deps).value;
    assert PassingOf(v, param)[1..] == [];
    if BaseOf(param).o {
      OwnerTransfer(st, b, v.perm, param);
      assert t.st == Put(st, b.name, Left(st, p));
    } else {
      assert t == Transfer(v.st, v.owner, []);
    }
    PassFits(st, p);
    assert GivenBack([p]) == if p.lent then [p.b] else [] by { assert [p][1..] == []; }
    assert AllPassed(t.st, [], t.st);
  }

  /** The first argument and the others, visited and passed. */
  lemma ArgsUnfold(st: Store, args: seq<Expr>, params: seq<Perm>)
    requires args != [] && VisitArgs(st, args, params).Ok?
    ensures var v := VisitExpr(st, args[0]);
      && params != [] && v.Ok?
      && var t := MoveOrCopy(v.value.st, v.value.perm, params[0], v.value.owner, v.value.deps);
         && t.Ok?
         && var rest := VisitArgs(t.value.st, args[1..], params[1..]);
            && rest.Ok?
            && VisitArgs(st, args, params).value.st == rest.value.st
            && VisitArgs(st, args, params).value.deps == OwnerList(t.value.owner) + t.value.deps + rest.value.deps
            && Passings(st, args, params) == PassingOf(v.value, params[0]) + Passings(t.value.st, args[1..], params[1..])
  {
    hide MoveOrCopy, PassingOf, Release, VisitIndex, VisitIdent, SelectPath, SliceResult;
  }

  /** The arguments of a call leave in the store, and to be given back, what `Passings` says. */
  lemma {:induction false} ArgsPass(st: Store, args: seq<Expr>, params: seq<Perm>)
    requires WithinMax(st) && ArgsEvaluate(st, args, params) && VisitArgs(st, args, params).Ok?
    ensures var a := VisitArgs(st, args, params).value;
      AllPassed(st, Passings(st, args, params), a.st) && a.deps == GivenBack(Passings(st, args, params))
    decreases |args|
  {
    if args != [] {
      ArgsUnfold(st, args, params);
      hide VisitExpr, VisitArgs, Passings, OnlyBorrows, MoveOrCopy, PassingOf, WithinMax, AllPassed, GivenBack;
      var v := VisitExpr(st, args[0]).value;
      ArgumentPasses(st, args[0], params[0]);
      var t := MoveOrCopy(v.st, v.perm, params[0], v.owner, v.deps).value;
      ArgsPass(t.st, args[1..], params[1..]);
      var rest := VisitArgs(t.st, args[1..], params[1..]).value;
      PassedAppend(st, PassingOf(v, params[0]), t.st, Passings(t.st, args[1..], params[1..]), rest.st);
      assert OwnerList(t.owner) + t.deps + rest.deps == OwnerList(t.owner) + rest.deps;
    }
  }

  // ----- what is left in each owner

  /** The last time a variable is passed. */
  function LastPassing(ps: seq<Passing>, name: string): Passing
    requires name in Owners(ps)
    decreases |ps|
  {
    if name in Owners(ps[1..]) then LastPassing(ps[1..], name) else ps[0]
  }

  /** Passing leaves the permission `p` in the variable: that of the last time, converted, within the maximum. */
  predicate PassingLeaves(st: Store, ps: seq<Passing>, name: string, p: Perm)
    requires name in Owners(ps)
  {
    var last := LastPassing(ps, name);
    && InScope(st, name) && Convertible(last.b.perm, false)
    && Mergeable(Max(st, name), ConvertToBase(last.b.perm, last.goal, false), Intersection)
    && p == Limit(st, name, ConvertToBase(last.b.perm, last.goal, false))
  }

  /** Leaving a permission depends on maxima only. */
  lemma PassingLeavesAgree(a: Store, b: Store, names: set<string>, ps: seq<Passing>, name: string, p: Perm)
    requires AgreeOutside(a, b, names) && name in Owners(ps)
    ensures PassingLeaves(a, ps, name, p) == PassingLeaves(b, ps, name, p)
  {
    AgreeFind(a, b, names, name);
  }

  /** Passing arguments touches their owners only, and says what is left in each; what is lent can be given back. */
  lemma {:induction false} PassedLeaves(st: Store, ps: seq<Passing>, st': Store)
    requires WithinMax(st) && AllPassed(st, ps, st')
    ensures AgreeOutside(st, st', Owners(ps)) && forall b <- GivenBack(ps) :: CanGive(st, b)
    ensures forall n <- Owners(ps) :: InScope(st', n) && PassingLeaves(st, ps, n, Eff(st', n))
    decreases |ps|
  {
    hide Merged, Mergeable, ConvertToBase, Convertible, WithinMax;
    if ps != [] {
      var p, rest := ps[0], ps[1..];
      var name, next := p.b.name, Put(st, p.b.name, Left(st, p));
      LentCanGive(st, p.b);
      PassFits(st, p);
      PassedLeaves(next, rest, st');
      PutAgrees(st, name, Left(st, p));
      AgreeTransitive(st, next, st', {name}, Owners(rest));
      assert ps == [p] + rest;
      assert {name} + Owners(rest) == Owners(ps);
      forall b | b in GivenBack(ps)
        ensures CanGive(st, b)
      {
        if b in GivenBack(rest) {
          AgreeCanGive(st, next, {name}, b);
        }
      }
      forall n | n in Owners(ps)
        ensures InScope(st', n) && PassingLeaves(st, ps, n, Eff(st', n))
      {
        if n in Owners(rest) {
          PassingLeavesAgree(st, next, {name}, rest, n, Eff(st', n));
        } else {
          AgreeFind(next, st', Owners(rest), n);
          PutFind(st, name, Left(st, p), n);
        }
      }
    }
  }

  /** What was lent for a call can be given back after the arguments have been passed. */
  lemma ReleasedCanGive(st: Store, f: Visit, ps: seq<Passing>, st': Store)
    requires WithinMax(st) && OnlyOwnerLent(st, f) && AllPassed(f.st, ps, st')
    ensures AgreeOutside(st, st', Names(OwnerList(f.owner)) + Owners(ps))
    ensures forall b <- GivenBack(ps) + OwnerList(f.owner) :: CanGive(st', b)
    ensures forall n <- Owners(ps) :: InScope(st', n) && PassingLeaves(st, ps, n, Eff(st', n))
  {
    hide OnlyOwnerLent, AllPassed, WithinMax, PassingLeaves, CanGive;
    var owner := OwnerList(f.owner);
    FunctionLent(st, f);
    PassedLeaves(f.st, ps, st');
    AgreeTransitive(st, f.st, st', Names(owner), Owners(ps));
    forall b | b in GivenBack(ps) + owner
      ensures CanGive(st', b)
    {
      if b in GivenBack(ps) {
        AgreeCanGive(f.st, st', Owners(ps), b);
      } else {
        AgreeCanGive(st, st', Names(owner) + Owners(ps), b);
      }
    }
    forall n | n in Owners(ps)
      ensures InScope(st', n) && PassingLeaves(st, ps, n, Eff(st', n))
    {
      PassingLeavesAgree(st, f.st, Names(owner), ps, n, Eff(st', n));
    }
  }

  /** After the arguments have been passed and what was lent is given back with the owner of the function. */
  lemma PassedReleased(st: Store, f: Visit, ps: seq<Passing>, st': Store)
    requires WithinMax(st) && OnlyOwnerLent(st, f) && AllPassed(f.st, ps, st')
    ensures var released := GivenBack(ps) + OwnerList(f.owner);
      && Release(st', released).Ok?
      && Changes(st, ps, released, Release(st', released).value)
  {
    hide OnlyOwnerLent, AllPassed, WithinMax, PassingLeaves, CanGive;
    var owner := OwnerList(f.owner);
    var released := GivenBack(ps) + owner;
    ReleasedCanGive(st, f, ps, st');
    ReleaseSets(st', released);
    var after := Release(st', released).value;
    AgreeTransitive(st, st', after, Names(owner) + Owners(ps), Names(released));
    assert Names(released) == Names(GivenBack(ps)) + Names(owner);
    assert Names(owner) + Owners(ps) + Names(released) == Owners(ps) + Names(released);
    forall n | n in Owners(ps) && n !in Names(released)
      ensures InScope(after, n) && PassingLeaves(st, ps, n, Eff(after, n))
    {
      AgreeFind(st', after, Names(released), n);
    }
  }

  /** `after` is `st` but for the variables passed or released: what is released has the permission given back
      last, what is only passed what passing leaves. */
  predicate Changes(st: Store, ps: seq<Passing>, released: seq<Borrowed>, after: Store) {
    && AgreeOutside(st, after, Owners(ps) + Names(released))
    && (forall n <- Names(released) :: InScope(after, n) && Eff(after, n) == LastPerm(released, n))
    && (forall n <- Owners(ps) :: n !in Names(released) ==> InScope(after, n) && PassingLeaves(st, ps, n, Eff(after, n)))
  }

  lemma FunctionLent(st: Store, f: Visit)
    requires WithinMax(st) && OnlyOwnerLent(st, f)
    ensures WithinMax(f.st) && AgreeOutside(st, f.st, Names(OwnerList(f.owner))) && forall b <- OwnerList(f.owner) :: CanGive(st, b)
  {
    if f.owner.OwnedBy? {
      var b := f.owner.b;
      LendFits(st, b);
      PutAgrees(st, b.name, Limit(st, b.name, Dead(b.perm)));
      assert Names([b]) == {b.name};
    }
  }

  // ----- calls

  /** Every completed call whose function and arguments only borrow while they are evaluated: nothing stays
      borrowed, and of each variable it is known what the call leaves. */
  lemma CallChanges(st: Store, fun: Expr, args: seq<Expr>)
    requires WithinMax(st) && OnlyBorrows(st, fun) && VisitExpr(st, Call(fun, args)).Ok?
    requires var f := VisitExpr(st, fun);
      f.Ok? && f.value.perm.Node? && f.value.perm.kind.Func? ==> ArgsEvaluate(f.value.st, args, Params(f.value.perm))
    ensures var f, c := VisitExpr(st, fun), VisitExpr(st, Call(fun, args)).value;
      && f.Ok? && f.value.perm.Node? && f.value.perm.kind.Func? && c.owner.NoOwner? && c.deps == []
      && var ps := Passings(f.value.st, args, Params(f.value.perm));
         Changes(st, ps, GivenBack(ps) + OwnerList(f.value.owner), c.st)
  {
    CallSteps(st, fun, args);
    BorrowsUndoable(st, fun);
    hide VisitExpr, VisitArgs, OnlyBorrows, ArgsEvaluate, Passings, Changes, AllPassed, Release, WithinMax;
    var f := VisitExpr(st, fun).value;
    UndoableReleased(st, fun);
    ArgsPass(f.st, args, Params(f.perm));
    var ps := Passings(f.st, args, Params(f.perm));
    var a := VisitArgs(f.st, args, Params(f.perm)).value;
    PassedReleased(st, f, ps, a.st);
    assert a.deps + f.deps + OwnerList(f.owner) == GivenBack(ps) + OwnerList(f.owner);
  }

  /** A store that changed like this is the same exactly if each variable ends as it was. */
  lemma ChangesNothing(st: Store, ps: seq<Passing>, released: seq<Borrowed>, after: Store)
    requires Changes(st, ps, released, after)
    ensures after == st <==>
      && LastAsFirst(st, released)
      && forall n <- Owners(ps) :: n !in Names(released) ==> InScope(st, n) && PassingLeaves(st, ps, n, Eff(st, n))
  {
    var names := Owners(ps) + Names(released);
    AgreeEqual(st, after, names);
    forall n | n in names
      ensures InScope(st, n)
    {
      AgreeFind(st, after, names, n);
    }
  }

  /** A completed call restores the store exactly if each variable it gives back last gets what it had, and what it
      takes for good leaves as much in its owner as was there. */
  lemma CallRestoresAll(st: Store, fun: Expr, args: seq<Expr>)
    requires WithinMax(st) && OnlyBorrows(st, fun) && VisitExpr(st, Call(fun, args)).Ok?
    requires var f := VisitExpr(st, fun);
      f.Ok? && f.value.perm.Node? && f.value.perm.kind.Func? ==> ArgsEvaluate(f.value.st, args, Params(f.value.perm))
    ensures var f := VisitExpr(st, fun);
      && f.Ok? && f.value.perm.Node? && f.value.perm.kind.Func?
      && var ps := Passings(f.value.st, args, Params(f.value.perm));
         var released := GivenBack(ps) + OwnerList(f.value.owner);
         VisitExpr(st, Call(fun, args)).value.st == st <==>
           && LastAsFirst(st, released)
           && forall n <- Owners(ps) :: n !in Names(released) ==> InScope(st, n) && PassingLeaves(st, ps, n, Eff(st, n))
  {
    CallChanges(st, fun, args);
    hide VisitExpr, OnlyBorrows, ArgsEvaluate, Passings, Changes, LastAsFirst, PassingLeaves;
    var f := VisitExpr(st, fun).value;
    var ps := Passings(f.st, args, Params(f.perm));
    ChangesNothing(st, ps, GivenBack(ps) + OwnerList(f.owner), VisitExpr(st, Call(fun, args)).value.st);
  }

  // ----- arguments of different owners

  function OwnerSeq(ps: seq<Passing>): (bs: seq<Borrowed>)
    ensures |bs| == |ps| && forall i :: 0 <= i < |ps| ==> bs[i] == ps[i].b
  {
    seq(|ps|, i requires 0 <= i < |ps| => ps[i].b)
  }

  lemma {:induction false} GivenDistinct(ps: seq<Passing>, more: seq<Borrowed>)
    requires DistinctNames(OwnerSeq(ps) + more)
    ensures DistinctNames(GivenBack(ps) + more)
    decreases |ps|
  {
    var all := OwnerSeq(ps) + more;
    if ps == [] {
      assert all == more == GivenBack(ps) + more;
    } else {
      var rest := OwnerSeq(ps[1..]) + more;
      assert all == [ps[0].b] + rest;
      assert forall i :: 0 <= i < |rest| ==> rest[i] == all[i + 1];
      GivenDistinct(ps[1..], more);
      if ps[0].lent {
        var given := GivenBack(ps[1..]) + more;
        assert GivenBack(ps) + more == [ps[0].b] + given;
        forall i | 0 <= i < |given|
          ensures given[i].name != ps[0].b.name
        {
          GivenIsOwner(ps[1..], more, given[i]);
          var k :| 0 <= k < |rest| && rest[k] == given[i];
          assert all[k + 1].name != all[0].name;
        }
      }
    }
  }

  lemma {:induction false} GivenIsOwner(ps: seq<Passing>, more: seq<Borrowed>, b: Borrowed)
    requires b in GivenBack(ps) + more
    ensures b in OwnerSeq(ps) + more
    decreases |ps|
  {
    if ps != [] && b !in more {
      var all := OwnerSeq(ps) + more;
      assert all == [ps[0].b] + (OwnerSeq(ps[1..]) + more);
      if b in GivenBack(ps[1..]) {
        GivenIsOwner(ps[1..], more, b);
      }
    }
  }

  /** Variables passed once each have the permission of the store, and are passed last as they are passed first. */
  lemma {:induction false} PassedDistinct(st: Store, ps: seq<Passing>, st': Store)
    requires AllPassed(st, ps, st') && DistinctNames(OwnerSeq(ps))
    ensures forall p <- ps :: CanLend(st, p.b) && LastPassing(ps, p.b.name) == p
    decreases |ps|
  {
    if ps != [] {
      var rest := ps[1..];
      assert forall i :: 0 <= i < |rest| ==> OwnerSeq(rest)[i] == OwnerSeq(ps)[i + 1];
      PassedDistinct(Put(st, ps[0].b.name, Left(st, ps[0])), rest, st');
      forall p | p in ps
        ensures CanLend(st, p.b) && LastPassing(ps, p.b.name) == p
      {
        var i :| 0 <= i < |ps| && ps[i] == p;
        if i > 0 {
          assert p == rest[i - 1] && OwnerSeq(ps)[i].name != OwnerSeq(ps)[0].name;
          PutFind(st, ps[0].b.name, Left(st, ps[0]), p.b.name);
        } else {
          assert forall q <- rest :: q.b.name != p.b.name by { OthersDiffer(ps); }
        }
      }
    }
  }

  lemma OthersDiffer(ps: seq<Passing>)
    requires ps != [] && DistinctNames(OwnerSeq(ps))
    ensures forall q <- ps[1..] :: q.b.name != ps[0].b.name
  {
    forall q | q in ps[1..]
      ensures q.b.name != ps[0].b.name
    {
      var i :| 0 <= i < |ps| - 1 && ps[1..][i] == q;
      assert OwnerSeq(ps)[i + 1] == q.b && OwnerSeq(ps)[0] == ps[0].b;
    }
  }

  /** The variables whose values are taken for good. */
  function Taken(ps: seq<Passing>): set<string> {
    set p <- ps | !p.lent :: p.b.name
  }

  lemma AgreeFewer(a: Store, b: Store, names: set<string>, fewer: set<string>)
    requires AgreeOutside(a, b, names)
    requires forall n <- names :: n !in fewer && InScope(a, n) ==> InScope(b, n) && Eff(b, n) == Eff(a, n)
    ensures AgreeOutside(a, b, fewer)
  {
    forall i | 0 <= i < |a| && a[i].Var?
      ensures b[i] == a[i] || a[i].name in fewer
    {
      AgreeFind(a, b, names, a[i].name);
    }
  }

  /** A completed call whose function and arguments have different owners changes exactly the owners of the
      arguments it takes for good, each to its permission converted as the transfer asks for, within its maximum. */
  lemma CallTakes(st: Store, fun: Expr, args: seq<Expr>)
    requires WithinMax(st) && OnlyBorrows(st, fun) && VisitExpr(st, Call(fun, args)).Ok?
    requires var f := VisitExpr(st, fun);
      f.Ok? && f.value.perm.Node? && f.value.perm.kind.Func? ==>
        && ArgsEvaluate(f.value.st, args, Params(f.value.perm))
        && DistinctNames(OwnerSeq(Passings(f.value.st, args, Params(f.value.perm))) + OwnerList(f.value.owner))
    ensures var f, c := VisitExpr(st, fun), VisitExpr(st, Call(fun, args)).value;
      && f.Ok? && f.value.perm.Node? && f.value.perm.kind.Func? && c.owner.NoOwner? && c.deps == []
      && var ps := Passings(f.value.st, args, Params(f.value.perm));
         && AgreeOutside(st, c.st, Taken(ps))
         && forall p <- ps :: !p.lent ==> TakenFrom(st, p, c.st)
  {
    CallSteps(st, fun, args);
    CallChanges(st, fun, args);
    BorrowsUndoable(st, fun);
    hide VisitExpr, VisitArgs, OnlyBorrows, ArgsEvaluate, Passings, Changes;
    var f := VisitExpr(st, fun).value;
    UndoableReleased(st, fun);
    ArgsPass(f.st, args, Params(f.perm));
    TakenOnly(st, f, Passings(f.st, args, Params(f.perm)), VisitArgs(f.st, args, Params(f.perm)).value.st,
              VisitExpr(st, Call(fun, args)).value.st);
  }

  /** The value of `p` was taken from its owner, which keeps what `Ownership.Leaves` says. */
  predicate TakenFrom(st: Store, p: Passing, after: Store) {
    CanLend(st, p.b) && InScope(after, p.b.name) && Ownership.Leaves(st, p.b, p.goal, Put(st, p.b.name, Eff(after, p.b.name)))
  }

  lemma {:induction false} GivenExact(ps: seq<Passing>, b: Borrowed)
    ensures b in GivenBack(ps) <==> exists p :: p in ps && p.lent && p.b == b
    decreases |ps|
  {
    if ps != [] {
      GivenExact(ps[1..], b);
      assert ps == [ps[0]] + ps[1..];
    }
  }

  /** The owner of the function owns none of the arguments. */
  lemma OwnersDiffer(ps: seq<Passing>, owner: seq<Borrowed>)
    requires DistinctNames(OwnerSeq(ps) + owner)
    ensures DistinctNames(OwnerSeq(ps)) && forall p <- ps, b <- owner :: p.b.name != b.name
    ensures forall p, q :: p in ps && q in ps && p.b.name == q.b.name ==> p == q
  {
    var all := OwnerSeq(ps) + owner;
    assert forall i :: 0 <= i < |ps| ==> all[i] == ps[i].b;
    assert forall i :: 0 <= i < |owner| ==> all[|ps| + i] == owner[i];
  }

  lemma TakenOnly(st: Store, f: Visit, ps: seq<Passing>, st': Store, after: Store)
    requires WithinMax(st) && OnlyOwnerLent(st, f) && AllPassed(f.st, ps, st')
    requires DistinctNames(OwnerSeq(ps) + OwnerList(f.owner)) && Changes(st, ps, GivenBack(ps) + OwnerList(f.owner), after)
    ensures AgreeOutside(st, after, Taken(ps)) && forall p <- ps :: !p.lent ==> TakenFrom(st, p, after)
  {
    var owner := OwnerList(f.owner);
    var released := GivenBack(ps) + owner;
    OwnersDiffer(ps, owner);
    PassedOnce(st, f, ps, st');
    GivenDistinct(ps, owner);
    forall b | b in released
      ensures InScope(st, b.name) && b.perm == Eff(st, b.name)
    {
      GivenExact(ps, b);
    }
    DistinctLast(st, released);
    var names := Owners(ps) + Names(released);
    forall n | n in names && n !in Taken(ps)
      ensures n in Names(released)
    {
      if p :| p in ps && p.b.name == n {
        GivenExact(ps, p.b);
      }
    }
    AgreeFewer(st, after, names, Taken(ps));
    forall p | p in ps && !p.lent
      ensures TakenFrom(st, p, after)
    {
      NotGiven(ps, owner, p);
      assert PassingLeaves(st, ps, p.b.name, Eff(after, p.b.name));
    }
  }

  lemma NotGiven(ps: seq<Passing>, owner: seq<Borrowed>, p: Passing)
    requires DistinctNames(OwnerSeq(ps) + owner) && p in ps && !p.lent
    ensures p.b.name !in Names(GivenBack(ps) + owner)
  {
    OwnersDiffer(ps, owner);
    forall b | b in GivenBack(ps) + owner
      ensures b.name != p.b.name
    {
      GivenExact(ps, b);
    }
  }

  /** Variables that own neither the function nor two arguments can be lent from the store before the call. */
  lemma PassedOnce(st: Store, f: Visit, ps: seq<Passing>, st': Store)
    requires OnlyOwnerLent(st, f) && AllPassed(f.st, ps, st') && DistinctNames(OwnerSeq(ps) + OwnerList(f.owner))
    ensures forall p <- ps :: CanLend(st, p.b) && LastPassing(ps, p.b.name) == p
    ensures forall b <- OwnerList(f.owner) :: CanLend(st, b)
  {
    OwnersDiffer(ps, OwnerList(f.owner));
    PassedDistinct(f.st, ps, st');
    forall p | p in ps
      ensures CanLend(st, p.b)
    {
      if f.owner.OwnedBy? {
        assert f.owner.b in OwnerList(f.owner);
        PutFind(st, f.owner.b.name, Limit(st, f.owner.b.name, Dead(f.owner.b.perm)), p.b.name);
      }
    }
  }
}
