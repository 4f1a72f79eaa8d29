/** Which edits create_patches emits: one for every difference of the two trees, nothing where they agree, and in the
    order of the paths. */
module Differences {
  import opened CStrings
  import opened SiblingLinks
  import opened JsonTrees
  import opened Sorting
  import opened Comparing
  import opened Edits
  import opened Diffing
  import Pointers

  predicate SameContainer(f: Val, t: Val) {
    (f.VArray? && t.VArray?) || (f.VObject? && t.VObject?)
  }

  /** A child that one of two containers of the same kind has and the other has not. Elements are taken away at the
      index where the shorter array ends, and put behind its end. */
  ghost predicate IsOnlyChild(f: Val, t: Val, token: Token, action: Action, x: Val, cs: bool) {
    match (f, t, token, action)
    case (VObject(m), VObject(n), Key(k), Remove) => Norm(k, cs) in m && Norm(k, cs) !in n
    case (VObject(m), VObject(n), Key(k), Add) => Norm(k, cs) !in m && Norm(k, cs) in n && x == n[Norm(k, cs)]
    case (VArray(es), VArray(fs), Index(i), Remove) => i == |fs| < |es|
    case (VArray(es), VArray(fs), End, Add) => exists i | |es| <= i < |fs| :: x == fs[i]
    case _ => false
  }

  /** Values are replaced where they differ and are not two containers of the same kind; other children are taken
      away or added. */
  ghost predicate IsDifference(f: Val, t: Val, path: seq<Token>, action: Action, x: Val, cs: bool)
    decreases |path|
  {
    if path == [] then action == Replace && x == t && f != t && !SameContainer(f, t)
    else if |path| == 1 && action != Replace then IsOnlyChild(f, t, path[0], action, x, cs)
    else
      match (ChildOf(f, path[0], cs), ChildOf(t, path[0], cs))
      case (Some(a), Some(b)) => IsDifference(a, b, path[1..], action, x, cs)
      case _ => false
  }

  ghost predicate Describes(e: Edit, path: seq<Token>, f: Val, t: Val, cs: bool) {
    path <= e.path && IsDifference(f, t, e.path[|path|..], e.action, EditValue(e, cs), cs)
  }

  // ---------- every edit is a difference ----------

  lemma LeafEdits(path: seq<Token>, from: Json, to: Json, cs: bool)
    requires Source(from, cs) && Target(to, cs) && !SameContainer(Abs(from, cs), Abs(to, cs))
    ensures Diff(path, from, to, cs) == if Abs(from, cs) == Abs(to, cs) then [] else [Edit(Replace, path, Some(to))]
  {
  }

  lemma DescribesBelow(e: Edit, path: seq<Token>, token: Token, f: Val, t: Val, cs: bool)
    requires ChildOf(f, token, cs).Some? && ChildOf(t, token, cs).Some?
    requires Describes(e, path + [token], ChildOf(f, token, cs).value, ChildOf(t, token, cs).value, cs)
    ensures Describes(e, path, f, t, cs)
  {
    hide ChildOf, IsOnlyChild, EditValue;
    var q := e.path[|path|..];
    assert q[0] == token && q[1..] == e.path[|path + [token]|..];
  }

  lemma DescribesHere(e: Edit, path: seq<Token>, token: Token, f: Val, t: Val, cs: bool)
    requires e.path == path + [token] && e.action != Replace && IsOnlyChild(f, t, token, e.action, EditValue(e, cs), cs)
    ensures Describes(e, path, f, t, cs)
  {
    hide IsOnlyChild, EditValue;
    assert e.path[|path|..] == [token];
  }

  lemma {:induction false} EditDescribes(path: seq<Token>, from: Json, to: Json, e: Edit, cs: bool)
    requires Source(from, cs) && Target(to, cs) && e in Diff(path, from, to, cs)
    ensures Describes(e, path, Abs(from, cs), Abs(to, cs), cs)
    decreases from, 1
  {
    hide Describes;
    match (from, to) {
      case (Array(es), Array(fs)) =>
        assert [] + es == es && [] + fs == fs;
        hide Source, Target;
        ElemEditDescribes(path, es, fs, 0, e, cs) by { SourceElems(es, fs, cs); }
      case (Object(ms, _), Object(ns, _)) =>
        ObjectWalks(from, to, cs);
        WalkEditDescribes(path, from, Sort(ms, cs), Sort(ns, cs), e, cs);
        SortedMeaning(from, to, cs);
      case _ =>
        LeafEdits(path, from, to, cs);
        ReplaceDescribes(path, Abs(from, cs), to, cs);
    }
  }

  lemma ReplaceDescribes(path: seq<Token>, f: Val, to: Json, cs: bool)
    requires f != Abs(to, cs) && !SameContainer(f, Abs(to, cs))
    ensures Describes(Edit(Replace, path, Some(to)), path, f, Abs(to, cs), cs)
  {
  }

  lemma SourceElems(es: seq<Json>, fs: seq<Json>, cs: bool)
    requires Source(Array(es), cs) && Target(Array(fs), cs)
    ensures (forall e | e in es :: Source(e, cs)) && (forall e | e in fs :: Target(e, cs))
    ensures |es| <= Pointers.ULONG_MAX + 1
  {
  }

  lemma SortedMeaning(from: Json, to: Json, cs: bool)
    requires from.Object? && to.Object? && Source(from, cs) && Target(to, cs)
    ensures Abs(from, cs) == VObject(AbsMembers(Sort(from.members, cs), cs))
    ensures Abs(to, cs) == VObject(AbsMembers(Sort(to.members, cs), cs))
  {
    hide Sort, AbsMembers;
    SortedSide(from, cs) by { SourceMembers(from, cs); }
    SortedSide(to, cs);
  }

  /** The loops over the elements, from some index on. */
  lemma {:induction false} ElemEditDescribes(path: seq<Token>, es: seq<Json>, fs: seq<Json>, index: nat, e: Edit,
                                             cs: bool)
    requires (forall e | e in es :: Source(e, cs)) && (forall e | e in fs :: Target(e, cs))
    requires |es| <= Pointers.ULONG_MAX + 1 && index <= |es| && index <= |fs|
    requires e in DiffElems(path, es[index..], fs[index..], index, cs)
    ensures Describes(e, path, VArray(AbsElems(es, cs)), VArray(AbsElems(fs, cs)), cs)
    decreases es, 0, |es| - index
  {
    hide Describes, Diff, Abs, Source, Target;
    var f, t := VArray(AbsElems(es, cs)), VArray(AbsElems(fs, cs));
    if index < |es| && index < |fs| {
      assert es[index..][1..] == es[index + 1..] && fs[index..][1..] == fs[index + 1..];
      if e in Diff(path + [Index(index)], es[index], fs[index], cs) {
        EditDescribes(path + [Index(index)], es[index], fs[index], e, cs);
        DescribesBelow(e, path, Index(index), f, t, cs);
      } else {
        ElemEditDescribes(path, es, fs, index + 1, e, cs);
      }
    } else if index < |es| {
      assert fs[index..] == [];
      RemovalsAre(path, es[index..], index, e, cs);
      DescribesHere(e, path, Index(index), f, t, cs);
    } else {
      assert es[index..] == [];
      var i := AdditionsAre(path, fs[index..], index, e, cs);
      DescribesHere(e, path, End, f, t, cs);
    }
  }

  lemma {:induction false} RemovalsAre(path: seq<Token>, es: seq<Json>, index: nat, e: Edit, cs: bool)
    requires e in DiffElems(path, es, [], index, cs)
    ensures e == Edit(Remove, path + [Index(index)], None)
    decreases es
  {
    if e != Edit(Remove, path + [Index(index)], None) { RemovalsAre(path, es[1..], index, e, cs); }
  }

  lemma {:induction false} AdditionsAre(path: seq<Token>, fs: seq<Json>, index: nat, e: Edit, cs: bool) returns (i: nat)
    requires e in DiffElems(path, [], fs, index, cs)
    ensures i < |fs| && e == Edit(Add, path + [End], Some(fs[i]))
    decreases fs
  {
    if e == Edit(Add, path + [End], Some(fs[0])) {
      i := 0;
    } else {
      i := AdditionsAre(path, fs[1..], index + 1, e, cs);
      i := i + 1;
    }
  }

  /** The walk over sorted members. */
  lemma {:induction false} WalkEditDescribes(path: seq<Token>, owner: Json, fs: seq<Member<Json>>,
                                             ts: seq<Member<Json>>, e: Edit, cs: bool)
    requires (forall m | m in fs :: m.value < owner) && Walkable(fs, ts, cs) && e in DiffWalk(owner, path, fs, ts, cs)
    ensures Describes(e, path, VObject(AbsMembers(fs, cs)), VObject(AbsMembers(ts, cs)), cs)
    decreases owner, 0, |fs| + |ts|
  {
    hide Describes, Diff, Abs, AbsMembers, Source, Target, Walkable, Cmp;
    WalkableTail(fs, ts, cs);
    var diff := WalkOrder(fs, ts, cs);
    if diff == 0 {
      assert fs[0] in fs;
      BothHeads(fs, ts, cs);
      if e in Diff(path + [Key(fs[0].key)], fs[0].value, ts[0].value, cs) {
        EditDescribes(path + [Key(fs[0].key)], fs[0].value, ts[0].value, e, cs);
        DescribesBelow(e, path, Key(fs[0].key), VObject(AbsMembers(fs, cs)), VObject(AbsMembers(ts, cs)), cs);
      } else {
        WalkEditDescribes(path, owner, fs[1..], ts[1..], e, cs);
        DescribesMore(e, path, AbsMembers(fs[1..], cs), AbsMembers(ts[1..], cs), AbsMembers(fs, cs),
                      AbsMembers(ts, cs), cs);
      }
    } else if diff < 0 {
      FromHead(fs, ts, cs);
      if e == Edit(Remove, path + [Key(fs[0].key)], None) {
        DescribesHere(e, path, Key(fs[0].key), VObject(AbsMembers(fs, cs)), VObject(AbsMembers(ts, cs)), cs);
      } else {
        WalkEditDescribes(path, owner, fs[1..], ts, e, cs);
        DescribesMore(e, path, AbsMembers(fs[1..], cs), AbsMembers(ts, cs), AbsMembers(fs, cs), AbsMembers(ts, cs), cs);
      }
    } else {
      ToHead(fs, ts, cs);
      if e == Edit(Add, path + [Key(ts[0].key)], Some(ts[0].value)) {
        DescribesHere(e, path, Key(ts[0].key), VObject(AbsMembers(fs, cs)), VObject(AbsMembers(ts, cs)), cs);
      } else {
        WalkEditDescribes(path, owner, fs, ts[1..], e, cs);
        DescribesMore(e, path, AbsMembers(fs, cs), AbsMembers(ts[1..], cs), AbsMembers(fs, cs), AbsMembers(ts, cs), cs);
      }
    }
  }

  /** Keys that the smaller maps have mean the same in the larger ones. */
  ghost predicate Agree(m: map<Str, Val>, n: map<Str, Val>, m': map<Str, Val>, n': map<Str, Val>) {
    forall k | k in m || k in n ::
      (k in m <==> k in m') && (k in n <==> k in n') && (k in m ==> m'[k] == m[k]) && (k in n ==> n'[k] == n[k])
  }

  lemma DescribesMore(e: Edit, path: seq<Token>, m: map<Str, Val>, n: map<Str, Val>, m': map<Str, Val>,
                      n': map<Str, Val>, cs: bool)
    requires Describes(e, path, VObject(m), VObject(n), cs) && Agree(m, n, m', n')
    ensures Describes(e, path, VObject(m'), VObject(n'), cs)
  {
    hide EditValue;
  }

  lemma BothHeads(fs: seq<Member<Json>>, ts: seq<Member<Json>>, cs: bool)
    requires fs != [] && ts != [] && Cmp(fs[0].key, ts[0].key, cs) == 0 && Walkable(fs, ts, cs)
    ensures var m, n, k := AbsMembers(fs, cs), AbsMembers(ts, cs), Norm(fs[0].key, cs);
            k in m && k in n && m[k] == Abs(fs[0].value, cs) && n[k] == Abs(ts[0].value, cs)
            && Agree(AbsMembers(fs[1..], cs), AbsMembers(ts[1..], cs), m, n)
  {
    hide AbsMembers, Norm, Cmp, Abs, Source, Target;
    SplitHead(fs, cs);
    SplitHead(ts, cs);
    CmpZero(fs[0].key, ts[0].key, cs);
  }

  lemma FromHead(fs: seq<Member<Json>>, ts: seq<Member<Json>>, cs: bool)
    requires fs != [] && (ts != [] ==> Cmp(fs[0].key, ts[0].key, cs) < 0) && Walkable(fs, ts, cs)
    ensures var m, n, k := AbsMembers(fs, cs), AbsMembers(ts, cs), Norm(fs[0].key, cs);
            k in m && k !in n && Agree(AbsMembers(fs[1..], cs), n, m, n)
  {
    hide AbsMembers, Norm, Cmp, Abs, Source, Target;
    SplitHead(fs, cs);
    BelowAll(ts, fs[0].key, cs);
  }

  lemma ToHead(fs: seq<Member<Json>>, ts: seq<Member<Json>>, cs: bool)
    requires ts != [] && (fs != [] ==> Cmp(fs[0].key, ts[0].key, cs) > 0) && Walkable(fs, ts, cs)
    ensures var m, n, k := AbsMembers(fs, cs), AbsMembers(ts, cs), Norm(ts[0].key, cs);
            k !in m && k in n && n[k] == Abs(ts[0].value, cs) && Agree(m, AbsMembers(ts[1..], cs), m, n)
  {
    hide AbsMembers, Norm, Cmp, Abs, Source, Target;
    SplitHead(ts, cs);
    if fs != [] { CmpFlip(ts[0].key, fs[0].key, cs); }
    BelowAll(fs, ts[0].key, cs);
  }

  // ---------- every difference has its edit ----------

  /** The same path, with keys counted as the mode counts them. */
  predicate SamePath(p: seq<Token>, q: seq<Token>, cs: bool) {
    |p| == |q| && forall i | 0 <= i < |p| :: SameToken(p[i], q[i], cs)
  }

  predicate SameToken(a: Token, b: Token, cs: bool) {
    a == b || (a.Key? && b.Key? && Norm(a.name, cs) == Norm(b.name, cs))
  }

  /** An edit for this difference. */
  ghost predicate IsEdit(e: Edit, path: seq<Token>, q: seq<Token>, action: Action, x: Val, cs: bool) {
    path <= e.path && SamePath(e.path[|path|..], q, cs) && e.action == action
    && (action != Remove ==> EditValue(e, cs) == x)
  }

  lemma EditsBelow(e: Edit, path: seq<Token>, token: Token, q: seq<Token>, action: Action, x: Val, cs: bool)
    requires q != [] && SameToken(token, q[0], cs) && IsEdit(e, path + [token], q[1..], action, x, cs)
    ensures IsEdit(e, path, q, action, x, cs)
  {
    hide EditValue, SameToken;
    var p := e.path[|path|..];
    assert p[0] == token && p[1..] == e.path[|path + [token]|..];
    forall i | 0 <= i < |p| ensures SameToken(p[i], q[i], cs) {
      if i > 0 { assert p[i] == p[1..][i - 1] && q[i] == q[1..][i - 1]; }
    }
  }

  lemma EditsHere(e: Edit, path: seq<Token>, token: Token, q: seq<Token>, action: Action, x: Val, cs: bool)
    requires |q| == 1 && e.path == path + [token] && SameToken(token, q[0], cs) && e.action == action
    requires action != Remove ==> EditValue(e, cs) == x
    ensures IsEdit(e, path, q, action, x, cs)
  {
    hide EditValue;
    assert e.path[|path|..] == [token];
  }

  lemma {:induction false} DifferenceEdited(path: seq<Token>, from: Json, to: Json, q: seq<Token>, action: Action,
                                            x: Val, cs: bool) returns (e: Edit)
    requires Source(from, cs) && Target(to, cs) && IsDifference(Abs(from, cs), Abs(to, cs), q, action, x, cs)
    ensures e in Diff(path, from, to, cs) && IsEdit(e, path, q, action, x, cs)
    decreases from, 1
  {
    match (from, to) {
      case (Array(es), Array(fs)) =>
        hide IsEdit, IsDifference, Source, Target, DiffElems;
        SourceElems(es, fs, cs);
        e := ElemDifferenceEdited(path, es, fs, q, action, x, cs);
        assert es[0..] == es && fs[0..] == fs;
      case (Object(ms, _), Object(ns, _)) =>
        hide IsEdit, IsDifference, Source, Target, DiffWalk, Sort;
        ObjectWalks(from, to, cs);
        SortedMeaning(from, to, cs);
        e := WalkDifferenceEdited(path, from, Sort(ms, cs), Sort(ns, cs), q, action, x, cs);
      case _ =>
        e := LeafEdited(path, from, to, q, action, x, cs);
    }
  }

  lemma LeafEdited(path: seq<Token>, from: Json, to: Json, q: seq<Token>, action: Action, x: Val, cs: bool)
    returns (e: Edit)
    requires Source(from, cs) && Target(to, cs) && !SameContainer(Abs(from, cs), Abs(to, cs))
    requires IsDifference(Abs(from, cs), Abs(to, cs), q, action, x, cs)
    ensures e in Diff(path, from, to, cs) && IsEdit(e, path, q, action, x, cs)
  {
    hide IsDifference, Source, Target, Diff, Abs;
    LeafEdits(path, from, to, cs);
    NothingBelow(Abs(from, cs), Abs(to, cs), q, action, x, cs);
    e := Edit(Replace, path, Some(to));
    assert e.path[|path|..] == [];
  }

  lemma NothingBelow(f: Val, t: Val, q: seq<Token>, action: Action, x: Val, cs: bool)
    requires !SameContainer(f, t) && IsDifference(f, t, q, action, x, cs)
    ensures q == [] && action == Replace && x == t && f != t
  {
  }

  lemma {:induction false} ElemDifferenceEdited(path: seq<Token>, es: seq<Json>, fs: seq<Json>, q: seq<Token>,
                                                action: Action, x: Val, cs: bool) returns (e: Edit)
    requires (forall e | e in es :: Source(e, cs)) && (forall e | e in fs :: Target(e, cs))
    requires |es| <= Pointers.ULONG_MAX + 1
    requires IsDifference(VArray(AbsElems(es, cs)), VArray(AbsElems(fs, cs)), q, action, x, cs)
    ensures e in DiffElems(path, es[0..], fs[0..], 0, cs) && IsEdit(e, path, q, action, x, cs)
    decreases es, 0
  {
    hide IsEdit, Diff, DiffElems, Abs, Source, Target;
    if |q| == 1 && action == Remove {
      RemovalIncluded(path, es, fs, 0, cs);
      e := Edit(Remove, path + [q[0]], None);
      EditsHere(e, path, q[0], q, action, x, cs);
    } else if |q| == 1 && action == Add {
      var i :| |es| <= i < |fs| && x == AbsElems(fs, cs)[i];
      AdditionIncluded(path, es, fs, 0, i, cs);
      e := Edit(Add, path + [End], Some(fs[i]));
      EditsHere(e, path, End, q, action, x, cs);
    } else {
      var i := q[0].i;
      e := DifferenceEdited(path + [Index(i)], es[i], fs[i], q[1..], action, x, cs);
      ElementIncluded(path, es, fs, 0, i, e, cs);
      EditsBelow(e, path, Index(i), q, action, x, cs);
    }
  }

  lemma {:induction false} ElementIncluded(path: seq<Token>, es: seq<Json>, fs: seq<Json>, index: nat, i: nat, e: Edit,
                                           cs: bool)
    requires index <= i < |es| <= Pointers.ULONG_MAX + 1 && i < |fs|
    requires e in Diff(path + [Index(i)], es[i], fs[i], cs)
    ensures e in DiffElems(path, es[index..], fs[index..], index, cs)
    decreases i - index
  {
    hide Diff;
    assert es[index..][1..] == es[index + 1..] && fs[index..][1..] == fs[index + 1..];
    if index < i { ElementIncluded(path, es, fs, index + 1, i, e, cs); }
  }

  lemma {:induction false} RemovalIncluded(path: seq<Token>, es: seq<Json>, fs: seq<Json>, index: nat, cs: bool)
    requires index <= |fs| < |es| <= Pointers.ULONG_MAX + 1
    ensures Edit(Remove, path + [Index(|fs|)], None) in DiffElems(path, es[index..], fs[index..], index, cs)
    decreases |fs| - index
  {
    hide Diff;
    if index < |fs| {
      assert es[index..][1..] == es[index + 1..] && fs[index..][1..] == fs[index + 1..];
      RemovalIncluded(path, es, fs, index + 1, cs);
    }
  }

  lemma {:induction false} AdditionIncluded(path: seq<Token>, es: seq<Json>, fs: seq<Json>, index: nat, i: nat,
                                            cs: bool)
    requires index <= i && |es| <= i < |fs| && |es| <= Pointers.ULONG_MAX + 1
    ensures Edit(Add, path + [End], Some(fs[i]))
            in DiffElems(path, if index <= |es| then es[index..] else [], fs[index..], index, cs)
    decreases i - index
  {
    hide Diff;
    assert fs[index..][1..] == fs[index + 1..];
    if index < |es| { assert es[index..][1..] == es[index + 1..]; }
    if index < i { AdditionIncluded(path, es, fs, index + 1, i, cs); }
  }

  lemma {:induction false} WalkDifferenceEdited(path: seq<Token>, owner: Json, fs: seq<Member<Json>>,
      ts: seq<Member<Json>>, q: seq<Token>, action: Action, x: Val, cs: bool) returns (e: Edit)
    requires (forall m | m in fs :: m.value < owner) && Walkable(fs, ts, cs)
    requires IsDifference(VObject(AbsMembers(fs, cs)), VObject(AbsMembers(ts, cs)), q, action, x, cs)
    ensures e in DiffWalk(owner, path, fs, ts, cs) && IsEdit(e, path, q, action, x, cs)
    decreases owner, 0, |fs| + |ts|, 1
  {
    hide IsEdit, Diff, Abs, AbsMembers, Source, Target, Walkable, Cmp, IsDifference, Norm, DistinctKeys;
    KeyFirst(AbsMembers(fs, cs), AbsMembers(ts, cs), q, action, x, cs);
    var k := Norm(q[0].name, cs);
    if fs == [] && ts == [] { NoMembers(cs); }
    WalkableTail(fs, ts, cs);
    var diff := WalkOrder(fs, ts, cs);
    if diff == 0 {
      e := BothDifferenceEdited(path, owner, fs, ts, q, action, x, cs);
    } else if diff < 0 {
      FromHead(fs, ts, cs);
      if k == Norm(fs[0].key, cs) {
        OnlyRemoved(AbsMembers(fs, cs), AbsMembers(ts, cs), q, action, x, cs);
        e := Edit(Remove, path + [Key(fs[0].key)], None);
        EditsHere(e, path, Key(fs[0].key), q, action, x, cs);
      } else {
        WalkableKeys(fs, ts, cs);
        RestFrom(fs, k, cs);
        DifferenceInRest(AbsMembers(fs, cs), AbsMembers(ts, cs), AbsMembers(fs[1..], cs), AbsMembers(ts, cs), q,
                         action, x, cs);
        e := WalkDifferenceEdited(path, owner, fs[1..], ts, q, action, x, cs);
      }
    } else {
      ToHead(fs, ts, cs);
      if k == Norm(ts[0].key, cs) {
        OnlyAdded(AbsMembers(fs, cs), AbsMembers(ts, cs), q, action, x, cs);
        e := Edit(Add, path + [Key(ts[0].key)], Some(ts[0].value));
        EditsHere(e, path, Key(ts[0].key), q, action, x, cs);
      } else {
        WalkableKeys(fs, ts, cs);
        RestFrom(ts, k, cs);
        DifferenceInRest(AbsMembers(fs, cs), AbsMembers(ts, cs), AbsMembers(fs, cs), AbsMembers(ts[1..], cs), q,
                         action, x, cs);
        e := WalkDifferenceEdited(path, owner, fs, ts[1..], q, action, x, cs);
      }
    }
  }

  lemma {:induction false} BothDifferenceEdited(path: seq<Token>, owner: Json, fs: seq<Member<Json>>,
      ts: seq<Member<Json>>, q: seq<Token>, action: Action, x: Val, cs: bool) returns (e: Edit)
    requires (forall m | m in fs :: m.value < owner) && Walkable(fs, ts, cs) && (fs != [] || ts != [])
    requires WalkOrder(fs, ts, cs) == 0 && q != [] && q[0].Key?
    requires IsDifference(VObject(AbsMembers(fs, cs)), VObject(AbsMembers(ts, cs)), q, action, x, cs)
    ensures e in DiffWalk(owner, path, fs, ts, cs) && IsEdit(e, path, q, action, x, cs)
    decreases owner, 0, |fs| + |ts|, 0
  {
    hide IsEdit, Diff, Abs, AbsMembers, Source, Target, Walkable, Cmp, IsDifference, Norm, DistinctKeys;
    WalkableTail(fs, ts, cs);
    assert fs[0] in fs;
    BothHeads(fs, ts, cs);
    if Norm(q[0].name, cs) == Norm(fs[0].key, cs) {
      ChildDifference(AbsMembers(fs, cs), AbsMembers(ts, cs), q, action, x, cs);
      e := DifferenceEdited(path + [Key(fs[0].key)], fs[0].value, ts[0].value, q[1..], action, x, cs);
      EditsBelow(e, path, Key(fs[0].key), q, action, x, cs);
    } else {
      RestBoth(fs, ts, Norm(q[0].name, cs), cs);
      DifferenceInRest(AbsMembers(fs, cs), AbsMembers(ts, cs), AbsMembers(fs[1..], cs), AbsMembers(ts[1..], cs), q,
                       action, x, cs);
      e := WalkDifferenceEdited(path, owner, fs[1..], ts[1..], q, action, x, cs);
    }
  }

  /** A difference of two maps begins with a key of one of them. */
  lemma KeyFirst(m: map<Str, Val>, n: map<Str, Val>, q: seq<Token>, action: Action, x: Val, cs: bool)
    requires IsDifference(VObject(m), VObject(n), q, action, x, cs)
    ensures q != [] && q[0].Key? && (Norm(q[0].name, cs) in m || Norm(q[0].name, cs) in n)
  {
    hide Norm;
  }

  lemma NoMembers(cs: bool)
    ensures AbsMembers([], cs) == map[]
  {
  }

  lemma ChildDifference(m: map<Str, Val>, n: map<Str, Val>, q: seq<Token>, action: Action, x: Val, cs: bool)
    requires IsDifference(VObject(m), VObject(n), q, action, x, cs) && q != [] && q[0].Key?
    requires Norm(q[0].name, cs) in m && Norm(q[0].name, cs) in n
    ensures IsDifference(m[Norm(q[0].name, cs)], n[Norm(q[0].name, cs)], q[1..], action, x, cs)
  {
    hide Norm;
  }

  lemma OnlyRemoved(m: map<Str, Val>, n: map<Str, Val>, q: seq<Token>, action: Action, x: Val, cs: bool)
    requires IsDifference(VObject(m), VObject(n), q, action, x, cs) && q != [] && q[0].Key?
    requires Norm(q[0].name, cs) in m && Norm(q[0].name, cs) !in n
    ensures |q| == 1 && action == Remove
  {
    hide Norm;
  }

  lemma OnlyAdded(m: map<Str, Val>, n: map<Str, Val>, q: seq<Token>, action: Action, x: Val, cs: bool)
    requires IsDifference(VObject(m), VObject(n), q, action, x, cs) && q != [] && q[0].Key?
    requires Norm(q[0].name, cs) !in m && Norm(q[0].name, cs) in n
    ensures |q| == 1 && action == Add && x == n[Norm(q[0].name, cs)]
  {
    hide Norm;
  }

  /** Only what the maps have at the first key counts. */
  lemma DifferenceInRest(m: map<Str, Val>, n: map<Str, Val>, m': map<Str, Val>, n': map<Str, Val>, q: seq<Token>,
                         action: Action, x: Val, cs: bool)
    requires IsDifference(VObject(m), VObject(n), q, action, x, cs) && q != [] && q[0].Key?
    requires var k := Norm(q[0].name, cs);
             (k in m <==> k in m') && (k in n <==> k in n') && (k in m ==> m'[k] == m[k]) && (k in n ==> n'[k] == n[k])
    ensures IsDifference(VObject(m'), VObject(n'), q, action, x, cs)
  {
    hide Norm;
  }

  lemma RestBoth(fs: seq<Member<Json>>, ts: seq<Member<Json>>, k: Str, cs: bool)
    requires fs != [] && ts != [] && Cmp(fs[0].key, ts[0].key, cs) == 0 && k != Norm(fs[0].key, cs)
    requires Walkable(fs, ts, cs)
    ensures var m, n, m', n' := AbsMembers(fs, cs), AbsMembers(ts, cs), AbsMembers(fs[1..], cs),
            AbsMembers(ts[1..], cs);
            (k in m <==> k in m') && (k in n <==> k in n') && (k in m ==> m'[k] == m[k]) && (k in n ==> n'[k] == n[k])
  {
    hide AbsMembers, Norm, Cmp, Abs, Source, Target;
    SplitHead(fs, cs);
    SplitHead(ts, cs);
    CmpZero(fs[0].key, ts[0].key, cs);
  }

  lemma WalkableKeys(fs: seq<Member<Json>>, ts: seq<Member<Json>>, cs: bool)
    requires Walkable(fs, ts, cs)
    ensures DistinctKeys(fs, cs) && DistinctKeys(ts, cs)
  {
  }

  lemma RestFrom(fs: seq<Member<Json>>, k: Str, cs: bool)
    requires fs != [] && DistinctKeys(fs, cs) && k != Norm(fs[0].key, cs)
    ensures var m, m' := AbsMembers(fs, cs), AbsMembers(fs[1..], cs);
            (k in m <==> k in m') && (k in m ==> m'[k] == m[k])
  {
    hide AbsMembers, Norm, Abs;
    SplitHead(fs, cs);
  }

  // ---------- in which order, and how often ----------

  /** Names in key order, indices as numbers, and the end of an array behind them. */
  predicate TokenBefore(a: Token, b: Token, cs: bool) {
    match (a, b)
    case (Key(x), Key(y)) => Cmp(x, y, cs) < 0
    case (Index(i), Index(k)) => i < k
    case (Index(_), End) => true
    case _ => false
  }

  predicate PathBefore(p: seq<Token>, q: seq<Token>, cs: bool) {
    p != [] && q != [] && (TokenBefore(p[0], q[0], cs) || (p[0] == q[0] && PathBefore(p[1..], q[1..], cs)))
  }

  /** An earlier and a later edit: their paths are in order, or both shorten or both lengthen the same array. */
  predicate Follows(e: Edit, later: Edit, cs: bool) {
    PathBefore(e.path, later.path, cs)
    || (e.path == later.path && e.action == later.action && e.action != Replace && e.path != []
        && !e.path[|e.path| - 1].Key?)
  }

  ghost predicate Ordered(edits: seq<Edit>, cs: bool) {
    forall i, k | 0 <= i < k < |edits| :: Follows(edits[i], edits[k], cs)
  }

  lemma OrderedTogether(a: seq<Edit>, b: seq<Edit>, cs: bool)
    requires Ordered(a, cs) && Ordered(b, cs) && forall e, later | e in a && later in b :: Follows(e, later, cs)
    ensures Ordered(a + b, cs)
  {
    hide Follows;
    var all := a + b;
    forall i, k | 0 <= i < k < |all| ensures Follows(all[i], all[k], cs) {
      if i < |a| <= k { assert a[i] in a && b[k - |a|] in b; }
    }
  }

  lemma OneOrdered(e: Edit, cs: bool)
    ensures Ordered([e], cs)
  {
  }

  lemma {:induction false} BranchesBefore(path: seq<Token>, a: Token, b: Token, p: seq<Token>, q: seq<Token>, cs: bool)
    requires path + [a] <= p && path + [b] <= q && TokenBefore(a, b, cs)
    ensures PathBefore(p, q, cs)
    decreases |path|
  {
    hide TokenBefore;
    if path == [] {
      assert p[0] == a && q[0] == b;
    } else {
      assert p[0] == path[0] && q[0] == path[0];
      assert path[1..] + [a] <= p[1..] && path[1..] + [b] <= q[1..];
      BranchesBefore(path[1..], a, b, p[1..], q[1..], cs);
    }
  }

  /** Every edit is below the path of the walk. */
  lemma DiffBelow(path: seq<Token>, from: Json, to: Json, e: Edit, cs: bool)
    requires Source(from, cs) && Target(to, cs) && e in Diff(path, from, to, cs)
    ensures path <= e.path
  {
    hide Source, Target, Diff;
    EditDescribes(path, from, to, e, cs);
  }

  lemma {:induction false} DiffOrdered(path: seq<Token>, from: Json, to: Json, cs: bool)
    requires Source(from, cs) && Target(to, cs)
    ensures Ordered(Diff(path, from, to, cs), cs)
    decreases from, 1
  {
    hide Ordered;
    match (from, to) {
      case (Array(es), Array(fs)) =>
        hide Source, Target, DiffElems;
        SourceElems(es, fs, cs);
        ElemsOrdered(path, es, fs, 0, cs);
      case (Object(ms, _), Object(ns, _)) =>
        hide Source, Target, DiffWalk, Sort;
        ObjectWalks(from, to, cs);
        WalkOrdered(path, from, Sort(ms, cs), Sort(ns, cs), cs);
      case _ =>
        LeafEdits(path, from, to, cs);
        OneOrdered(Edit(Replace, path, Some(to)), cs);
        NoneOrdered(cs);
    }
  }

  lemma NoneOrdered(cs: bool)
    ensures Ordered([], cs)
  {
  }

  /** The edits of the elements from some index on are at this index or behind it. */
  lemma {:induction false} ElemEditAt(path: seq<Token>, es: seq<Json>, fs: seq<Json>, index: nat, e: Edit, cs: bool)
    returns (t: Token)
    requires (forall e | e in es :: Source(e, cs)) && (forall e | e in fs :: Target(e, cs))
    requires e in DiffElems(path, es, fs, index, cs)
    ensures path + [t] <= e.path && (t.End? || (t.Index? && t.i >= index))
    decreases es, |fs|
  {
    hide Diff, Source, Target;
    if es != [] && fs != [] && e in Diff(path + [Index(index)], es[0], fs[0], cs) {
      DiffBelow(path + [Index(index)], es[0], fs[0], e, cs);
      t := Index(index);
    } else if es != [] && fs != [] {
      t := ElemEditAt(path, es[1..], fs[1..], index + 1, e, cs);
    } else if es != [] {
      RemovalsAre(path, es, index, e, cs);
      t := Index(index);
    } else {
      var i := AdditionsAre(path, fs, index, e, cs);
      t := End;
    }
  }

  lemma {:induction false} ElemsOrdered(path: seq<Token>, es: seq<Json>, fs: seq<Json>, index: nat, cs: bool)
    requires (forall e | e in es :: Source(e, cs)) && (forall e | e in fs :: Target(e, cs))
    ensures Ordered(DiffElems(path, es, fs, index, cs), cs)
    decreases es, 0
  {
    hide Diff, Ordered, Source, Target, Follows;
    if es != [] && fs != [] && index <= Pointers.ULONG_MAX {
      var a, b := Diff(path + [Index(index)], es[0], fs[0], cs), DiffElems(path, es[1..], fs[1..], index + 1, cs);
      DiffOrdered(path + [Index(index)], es[0], fs[0], cs);
      ElemsOrdered(path, es[1..], fs[1..], index + 1, cs);
      forall e, later | e in a && later in b ensures Follows(e, later, cs) {
        DiffBelow(path + [Index(index)], es[0], fs[0], e, cs);
        var t := ElemEditAt(path, es[1..], fs[1..], index + 1, later, cs);
        InOrder(path, Index(index), t, e, later, cs);
      }
      OrderedTogether(a, b, cs);
    } else if es != [] {
      TailOrdered(path, es, fs, index, cs);
    } else {
      TailOrdered(path, es, fs, index, cs);
    }
  }

  lemma InOrder(path: seq<Token>, a: Token, b: Token, e: Edit, later: Edit, cs: bool)
    requires path + [a] <= e.path && path + [b] <= later.path && TokenBefore(a, b, cs)
    ensures Follows(e, later, cs)
  {
    hide TokenBefore, PathBefore;
    BranchesBefore(path, a, b, e.path, later.path, cs);
  }

  lemma TailOrdered(path: seq<Token>, es: seq<Json>, fs: seq<Json>, index: nat, cs: bool)
    requires es == [] || fs == [] || index > Pointers.ULONG_MAX
    ensures Ordered(DiffElems(path, es, fs, index, cs), cs)
  {
    hide PathBefore, DiffElems;
    var edits := DiffElems(path, es, fs, index, cs);
    if es != [] && fs != [] {
      Stopped(path, es, fs, index, cs);
    } else {
      forall i, k | 0 <= i < k < |edits| ensures Follows(edits[i], edits[k], cs) {
        assert edits[i] in edits && edits[k] in edits;
        if fs == [] {
          if es == [] { Stopped(path, es, fs, index, cs); }
          RemovalsAre(path, es, index, edits[i], cs);
          RemovalsAre(path, es, index, edits[k], cs);
        } else {
          var x := AdditionsAre(path, fs, index, edits[i], cs);
          var y := AdditionsAre(path, fs, index, edits[k], cs);
        }
      }
    }
  }

  lemma Stopped(path: seq<Token>, es: seq<Json>, fs: seq<Json>, index: nat, cs: bool)
    requires (es == [] && fs == []) || (es != [] && index > Pointers.ULONG_MAX)
    ensures DiffElems(path, es, fs, index, cs) == []
  {
  }

  /** The edits of a walk are at its keys. */
  lemma {:induction false} WalkEditAt(path: seq<Token>, owner: Json, fs: seq<Member<Json>>, ts: seq<Member<Json>>,
                                      e: Edit, cs: bool) returns (k: Str)
    requires (forall m | m in fs :: m.value < owner) && Walkable(fs, ts, cs) && e in DiffWalk(owner, path, fs, ts, cs)
    ensures path + [Key(k)] <= e.path && ((exists m :: m in fs && m.key == k) || exists m :: m in ts && m.key == k)
    decreases |fs| + |ts|
  {
    hide Diff, Source, Target, Walkable, Cmp;
    WalkableTail(fs, ts, cs);
    var diff := WalkOrder(fs, ts, cs);
    if diff == 0 {
      assert fs[0] in fs;
      if e in Diff(path + [Key(fs[0].key)], fs[0].value, ts[0].value, cs) {
        DiffBelow(path + [Key(fs[0].key)], fs[0].value, ts[0].value, e, cs);
        k := fs[0].key;
      } else {
        k := WalkEditAt(path, owner, fs[1..], ts[1..], e, cs);
      }
    } else if diff < 0 {
      if e == Edit(Remove, path + [Key(fs[0].key)], None) {
        k := fs[0].key;
        assert fs[0] in fs;
      } else {
        k := WalkEditAt(path, owner, fs[1..], ts, e, cs);
      }
    } else {
      if e == Edit(Add, path + [Key(ts[0].key)], Some(ts[0].value)) {
        k := ts[0].key;
        assert ts[0] in ts;
      } else {
        k := WalkEditAt(path, owner, fs, ts[1..], e, cs);
      }
    }
  }

  /** All keys of a list are above this one. */
  predicate Above(key: Str, ms: seq<Member<Json>>, cs: bool) {
    forall m | m in ms :: Cmp(key, m.key, cs) < 0
  }

  lemma RestAbove(ms: seq<Member<Json>>, key: Str, cs: bool)
    requires ms != [] && Sorted(ms, cs) && DistinctKeys(ms, cs) && Cmp(key, ms[0].key, cs) <= 0
    ensures Above(key, ms[1..], cs) && (Cmp(key, ms[0].key, cs) < 0 ==> Above(key, ms, cs))
  {
    hide Cmp;
    forall i | 1 <= i < |ms| ensures Cmp(key, ms[i].key, cs) < 0 {
      CmpZero(ms[0].key, ms[i].key, cs);
      CmpTransitive(key, ms[0].key, ms[i].key, cs);
    }
  }

  lemma HeadsBefore(fs: seq<Member<Json>>, ts: seq<Member<Json>>, cs: bool)
    requires Walkable(fs, ts, cs) && (fs != [] || ts != [])
    ensures var diff := WalkOrder(fs, ts, cs);
            if diff == 0 then Above(fs[0].key, fs[1..], cs) && Above(fs[0].key, ts[1..], cs)
            else if diff < 0 then Above(fs[0].key, fs[1..], cs) && Above(fs[0].key, ts, cs)
            else Above(ts[0].key, fs, cs) && Above(ts[0].key, ts[1..], cs)
  {
    hide Cmp, Source, Target, Sorted, DistinctKeys;
    if fs != [] { CmpZero(fs[0].key, fs[0].key, cs); }
    if ts != [] { CmpZero(ts[0].key, ts[0].key, cs); }
    if fs != [] && ts != [] { CmpFlip(ts[0].key, fs[0].key, cs); }
    var diff := WalkOrder(fs, ts, cs);
    if diff <= 0 {
      RestAbove(fs, fs[0].key, cs);
      if ts != [] { RestAbove(ts, fs[0].key, cs); }
    } else {
      RestAbove(ts, ts[0].key, cs);
      if fs != [] { RestAbove(fs, ts[0].key, cs); }
    }
  }

  lemma {:induction false} WalkOrdered(path: seq<Token>, owner: Json, fs: seq<Member<Json>>, ts: seq<Member<Json>>,
                                       cs: bool)
    requires (forall m | m in fs :: m.value < owner) && Walkable(fs, ts, cs)
    ensures Ordered(DiffWalk(owner, path, fs, ts, cs), cs)
    decreases owner, 0, |fs| + |ts|
  {
    hide Diff, Ordered, Source, Target, Walkable, Cmp, Follows, Above;
    if fs == [] && ts == [] {
      NoneOrdered(cs);
    } else {
      WalkableTail(fs, ts, cs);
      HeadsBefore(fs, ts, cs);
      var diff := WalkOrder(fs, ts, cs);
      if diff == 0 {
        assert fs[0] in fs;
        DiffOrdered(path + [Key(fs[0].key)], fs[0].value, ts[0].value, cs);
        WalkOrdered(path, owner, fs[1..], ts[1..], cs);
        forall e | e in Diff(path + [Key(fs[0].key)], fs[0].value, ts[0].value, cs)
          ensures path + [Key(fs[0].key)] <= e.path
        {
          DiffBelow(path + [Key(fs[0].key)], fs[0].value, ts[0].value, e, cs);
        }
        FirstThenWalk(path, owner, fs[0].key, Diff(path + [Key(fs[0].key)], fs[0].value, ts[0].value, cs), fs[1..],
                      ts[1..], cs);
      } else if diff < 0 {
        WalkOrdered(path, owner, fs[1..], ts, cs);
        OneOrdered(Edit(Remove, path + [Key(fs[0].key)], None), cs);
        FirstThenWalk(path, owner, fs[0].key, [Edit(Remove, path + [Key(fs[0].key)], None)], fs[1..], ts, cs);
      } else {
        WalkOrdered(path, owner, fs, ts[1..], cs);
        OneOrdered(Edit(Add, path + [Key(ts[0].key)], Some(ts[0].value)), cs);
        FirstThenWalk(path, owner, ts[0].key, [Edit(Add, path + [Key(ts[0].key)], Some(ts[0].value))], fs, ts[1..], cs);
      }
    }
  }

  lemma FirstThenWalk(path: seq<Token>, owner: Json, key: Str, first: seq<Edit>, fs: seq<Member<Json>>,
                      ts: seq<Member<Json>>, cs: bool)
    requires (forall m | m in fs :: m.value < owner) && Walkable(fs, ts, cs)
    requires Above(key, fs, cs) && Above(key, ts, cs) && Ordered(first, cs)
    requires (forall e | e in first :: path + [Key(key)] <= e.path) && Ordered(DiffWalk(owner, path, fs, ts, cs), cs)
    ensures Ordered(first + DiffWalk(owner, path, fs, ts, cs), cs)
  {
    hide DiffWalk, Ordered, Source, Target, Walkable, Cmp, Follows;
    var rest := DiffWalk(owner, path, fs, ts, cs);
    forall e, later | e in first && later in rest ensures Follows(e, later, cs) {
      var k := WalkEditAt(path, owner, fs, ts, later, cs);
      InOrder(path, Key(key), Key(k), e, later, cs);
    }
    OrderedTogether(first, rest, cs);
  }

  // ---------- all together ----------

  /** create_patches: its edits are exactly the differences of the two trees, in the order of their paths; only edits
      that shorten or lengthen the same array share a path. */
  lemma EditsAreDifferences(from: Json, to: Json, cs: bool)
    requires Source(from, cs) && Target(to, cs)
    ensures var edits, f, t := Diff([], from, to, cs), Abs(from, cs), Abs(to, cs);
            Ordered(edits, cs)
            && (forall e | e in edits :: IsDifference(f, t, e.path, e.action, EditValue(e, cs), cs))
            && forall q, action, x | IsDifference(f, t, q, action, x, cs) ::
                 exists e | e in edits ::
                   SamePath(e.path, q, cs) && e.action == action && (action != Remove ==> EditValue(e, cs) == x)
  {
    hide Source, Target, Diff, Abs, IsDifference, Ordered, EditValue, SamePath;
    var edits, f, t := Diff([], from, to, cs), Abs(from, cs), Abs(to, cs);
    DiffOrdered([], from, to, cs);
    forall e | e in edits ensures IsDifference(f, t, e.path, e.action, EditValue(e, cs), cs) {
      EditDescribes([], from, to, e, cs);
      assert e.path[0..] == e.path;
    }
    forall q, action, x | IsDifference(f, t, q, action, x, cs)
      ensures exists e | e in edits ::
                SamePath(e.path, q, cs) && e.action == action && (action != Remove ==> EditValue(e, cs) == x)
    {
      var e := DifferenceEdited([], from, to, q, action, x, cs);
      assert e.path[0..] == e.path;
    }
  }

  /** Equal trees need no patch, and only they. */
  lemma NoPatchForEqual(from: Json, to: Json, cs: bool)
    requires Source(from, cs) && Target(to, cs)
    ensures Diff([], from, to, cs) == [] <==> Abs(from, cs) == Abs(to, cs)
  {
    hide Source, Target, Diff, Abs;
    var f := Abs(from, cs);
    if Diff([], from, to, cs) == [] {
      DiffRuns(f, [], from, to, cs);
    }
    if f == Abs(to, cs) && Diff([], from, to, cs) != [] {
      var e := Diff([], from, to, cs)[0];
      assert e in Diff([], from, to, cs);
      EditDescribes([], from, to, e, cs);
      NoDifference(f, e.path[0..], e.action, EditValue(e, cs), cs);
    }
  }

  lemma {:induction false} NoDifference(v: Val, q: seq<Token>, action: Action, x: Val, cs: bool)
    ensures !IsDifference(v, v, q, action, x, cs)
    decreases |q|
  {
    if q != [] && ChildOf(v, q[0], cs).Some? { NoDifference(ChildOf(v, q[0], cs).value, q[1..], action, x, cs); }
  }
}
