/** The edit list that create_patches emits, and the proof that running it turns `from` into `to`. */
module Diffing {
  import opened CStrings
  import opened SiblingLinks
  import opened JsonTrees
  import opened Sorting
  import opened Comparing
  import opened Edits
  import Pointers

  /** One patch: `value` is there for add and replace. */
  datatype Edit = Edit(action: Action, path: seq<Token>, value: Option<Json>)

  function EditValue(e: Edit, cs: bool): Val {
    if e.value.Some? then Abs(e.value.value, cs) else VNull
  }

  /** The edits for the subtree at `path`, in the order in which create_patches appends them. */
  function Diff(path: seq<Token>, from: Json, to: Json, cs: bool): seq<Edit>
    decreases from
  {
    if !SameType(from, to) then [Edit(Replace, path, Some(to))]
    else
      match from
      case Number(d) => if d == to.num then [] else [Edit(Replace, path, Some(to))]
      case String(s) => if s == to.text then [] else [Edit(Replace, path, Some(to))]
      case Array(es) => DiffElems(path, es, to.elems, 0, cs)
      case Object(ms, _) =>
        SortCorrect(ms, cs);
        DiffWalk(from, path, Sort(ms, cs), Sort(to.members, cs), cs)
      case _ => []
  }

  /** Elements present in both are patched in place, left over ones are removed at the index where
      `to` ends, new ones are added at the end; an index beyond unsigned long stops the array. */
  function DiffElems(path: seq<Token>, fs: seq<Json>, ts: seq<Json>, index: nat, cs: bool): seq<Edit>
    decreases fs, |ts|
  {
    if fs != [] && index > Pointers.ULONG_MAX then []
    else if fs != [] && ts != [] then
      Diff(path + [Index(index)], fs[0], ts[0], cs) + DiffElems(path, fs[1..], ts[1..], index + 1, cs)
    else if fs != [] then
      [Edit(Remove, path + [Index(index)], None)] + DiffElems(path, fs[1..], ts, index, cs)
    else if ts != [] then
      [Edit(Add, path + [End], Some(ts[0]))] + DiffElems(path, fs, ts[1..], index + 1, cs)
    else []
  }

  /** The merge walk over the two sorted member lists. */
  function DiffWalk(ghost owner: Json, path: seq<Token>, fs: seq<Member<Json>>, ts: seq<Member<Json>>,
                    cs: bool): seq<Edit>
    requires forall m | m in fs :: m.value < owner
    decreases owner, |fs| + |ts|
  {
    if fs == [] && ts == [] then []
    else
      var diff := WalkOrder(fs, ts, cs);
      if diff == 0 then
        Diff(path + [Key(fs[0].key)], fs[0].value, ts[0].value, cs) + DiffWalk(owner, path, fs[1..], ts[1..], cs)
      else if diff < 0 then
        [Edit(Remove, path + [Key(fs[0].key)], None)] + DiffWalk(owner, path, fs[1..], ts, cs)
      else
        [Edit(Add, path + [Key(ts[0].key)], Some(ts[0].value))] + DiffWalk(owner, path, fs, ts[1..], cs)
  }

  /** Both trees after create_patches: it sorts the objects that it walks. */
  function AfterDiff(from: Json, to: Json, cs: bool): (r: (Json, Json))
    ensures SameType(from, r.0) && SameType(to, r.1)
    decreases from
  {
    if !SameType(from, to) then (from, to)
    else
      match from
      case Array(es) =>
        var (fs, ts) := AfterDiffElems(es, to.elems, 0, cs);
        (Array(fs), Array(ts))
      case Object(ms, _) =>
        SortCorrect(ms, cs);
        var f, t := SortedObject(from, cs), SortedObject(to, cs);
        var (fs, ts) := AfterDiffWalk(from, f.members, t.members, cs);
        (Object(fs, f.link), Object(ts, t.link))
      case _ => (from, to)
  }

  function AfterDiffElems(fs: seq<Json>, ts: seq<Json>, index: nat, cs: bool): (r: (seq<Json>, seq<Json>))
    ensures |r.0| == |fs| && |r.1| == |ts|
    decreases fs
  {
    if fs == [] || ts == [] || index > Pointers.ULONG_MAX then (fs, ts)
    else
      var (f, t) := AfterDiff(fs[0], ts[0], cs);
      var (us, vs) := AfterDiffElems(fs[1..], ts[1..], index + 1, cs);
      ([f] + us, [t] + vs)
  }

  function AfterDiffWalk(ghost owner: Json, fs: seq<Member<Json>>, ts: seq<Member<Json>>, cs: bool)
    : (r: (seq<Member<Json>>, seq<Member<Json>>))
    requires forall m | m in fs :: m.value < owner
    ensures |r.0| == |fs| && |r.1| == |ts|
    ensures forall i | 0 <= i < |fs| :: r.0[i].key == fs[i].key
    ensures forall i | 0 <= i < |ts| :: r.1[i].key == ts[i].key
    decreases owner, |fs| + |ts|
  {
    if fs == [] && ts == [] then (fs, ts)
    else
      var diff := WalkOrder(fs, ts, cs);
      if diff == 0 then
        var (f, t) := AfterDiff(fs[0].value, ts[0].value, cs);
        var (us, vs) := AfterDiffWalk(owner, fs[1..], ts[1..], cs);
        ([Member(fs[0].key, f)] + us, [Member(ts[0].key, t)] + vs)
      else if diff < 0 then
        var (us, vs) := AfterDiffWalk(owner, fs[1..], ts, cs);
        ([fs[0]] + us, vs)
      else
        var (us, vs) := AfterDiffWalk(owner, fs, ts[1..], cs);
        (us, [ts[0]] + vs)
  }

  /** Which list the walk takes from: 1 for `to`, -1 for `from`, 0 for both. */
  function WalkOrder(fs: seq<Member<Json>>, ts: seq<Member<Json>>, cs: bool): (diff: int)
    requires fs != [] || ts != []
    ensures diff <= 0 ==> fs != []
    ensures diff >= 0 ==> ts != []
  {
    if fs == [] then 1 else if ts == [] then -1 else Cmp(fs[0].key, ts[0].key, cs)
  }

  lemma AfterWalkUnfold(owner: Json, fs: seq<Member<Json>>, ts: seq<Member<Json>>, cs: bool)
    requires (forall m | m in fs :: m.value < owner) && (fs != [] || ts != [])
    ensures var diff, after := WalkOrder(fs, ts, cs), AfterDiffWalk(owner, fs, ts, cs);
            if diff == 0 then
              var (x, y) := AfterDiff(fs[0].value, ts[0].value, cs);
              after.0 == [Member(fs[0].key, x)] + AfterDiffWalk(owner, fs[1..], ts[1..], cs).0
              && after.1 == [Member(ts[0].key, y)] + AfterDiffWalk(owner, fs[1..], ts[1..], cs).1
            else if diff < 0 then
              after.0 == [fs[0]] + AfterDiffWalk(owner, fs[1..], ts, cs).0
              && after.1 == AfterDiffWalk(owner, fs[1..], ts, cs).1
            else
              after.0 == AfterDiffWalk(owner, fs, ts[1..], cs).0
              && after.1 == [ts[0]] + AfterDiffWalk(owner, fs, ts[1..], cs).1
  {
    hide AfterDiff, Cmp;
  }

  /** Run a list of edits; an edit that does not apply stops the run. */
  function Run(v: Val, edits: seq<Edit>, cs: bool): Option<Val>
    decreases edits
  {
    if edits == [] then Some(v)
    else
      match Step(v, edits[0].path, edits[0].action, EditValue(edits[0], cs), cs)
      case None => None
      case Some(w) => Run(w, edits[1..], cs)
  }

  lemma {:induction false} RunParts(v: Val, a: seq<Edit>, b: seq<Edit>, w: Val, cs: bool)
    requires Run(v, a, cs) == Some(w)
    ensures Run(v, a + b, cs) == Run(w, b, cs)
    decreases a
  {
    if a == [] {
      assert a + b == b;
    } else {
      DropHead(a, b);
      RunParts(Step(v, a[0].path, a[0].action, EditValue(a[0], cs), cs).value, a[1..], b, w, cs);
    }
  }

  lemma RunOne(v: Val, e: Edit, cs: bool)
    ensures Run(v, [e], cs) == Step(v, e.path, e.action, EditValue(e, cs), cs)
  {
    assert [e][1..] == [];
  }

  /** Array indices in the tree fit in an unsigned long. */
  predicate Small(j: Json)
    decreases j
  {
    match j
    case Array(es) => |es| <= Pointers.ULONG_MAX + 1 && forall e | e in es :: Small(e)
    case Object(ms, _) => forall m | m in ms :: Small(m.value)
    case _ => true
  }

  predicate Source(j: Json, cs: bool) {
    Standard(j) && Unique(j, cs) && Small(j)
  }

  predicate Target(j: Json, cs: bool) {
    Standard(j) && Unique(j, cs)
  }

  /** Running the edits for a subtree puts `to` where `from` was and changes nothing else. */
  lemma {:induction false} DiffRuns(v: Val, path: seq<Token>, from: Json, to: Json, cs: bool)
    requires Source(from, cs) && Target(to, cs)
    requires Look(v, path, cs) == Some(Abs(from, cs))
    ensures Run(v, Diff(path, from, to, cs), cs) == Some(Put(v, path, Abs(to, cs), cs))
    decreases from, 2
  {
    StepReplace(v, path, Abs(to, cs), cs);
    RunOne(v, Edit(Replace, path, Some(to)), cs);
    LookPut(v, path, cs);
    if SameType(from, to) {
      match from
      case Array(es) =>
        assert [] + AbsElems(es, cs) == AbsElems(es, cs);
        assert [] + AbsElems(to.elems, cs) == AbsElems(to.elems, cs);
        DiffElemsRuns(v, path, [], es, to.elems, cs);
      case Object(ms, _) =>
        DiffObjectRuns(v, path, from, to, cs);
      case _ =>
    }
  }

  lemma {:induction false} DiffObjectRuns(v: Val, path: seq<Token>, from: Json, to: Json, cs: bool)
    requires from.Object? && to.Object? && Source(from, cs) && Target(to, cs)
    requires Look(v, path, cs) == Some(Abs(from, cs))
    ensures Run(v, Diff(path, from, to, cs), cs) == Some(Put(v, path, Abs(to, cs), cs))
    decreases from, 1
  {
    hide Look, Put, Run, Source, Target, Walkable, Sorted, DistinctKeys;
    var fs, ts := Sort(from.members, cs), Sort(to.members, cs);
    ObjectWalks(from, to, cs);
    DiffWalkRuns(v, path, from, AbsMembers(from.members, cs), fs, ts, cs);
  }

  /** The sorted members of two objects start a walk over the whole of both. */
  lemma ObjectWalks(from: Json, to: Json, cs: bool)
    requires from.Object? && to.Object? && Source(from, cs) && Target(to, cs)
    ensures var fs, ts, m := Sort(from.members, cs), Sort(to.members, cs), AbsMembers(from.members, cs);
            (forall f | f in fs :: f.value < from) && Walkable(fs, ts, cs)
            && Reflects(m, fs, ts, cs) && Walked(m, fs, ts, cs) == Abs(to, cs)
  {
    hide Source, Target, Sorted, DistinctKeys, AbsMembers;
    SourceMembers(from, cs);
    SortedSide(from, cs);
    SortedSide(to, cs);
    var m := AbsMembers(from.members, cs);
    assert m - m.Keys == map[];
  }

  lemma SourceMembers(j: Json, cs: bool)
    requires j.Object? && Source(j, cs)
    ensures forall m | m in j.members :: m.value < j && Source(m.value, cs)
    ensures Target(j, cs)
  {
  }

  lemma TargetParts(j: Json, cs: bool)
    requires j.Object? && Target(j, cs)
    ensures DistinctKeys(j.members, cs) && forall m | m in j.members :: Target(m.value, cs)
  {
  }

  lemma SortedSide(j: Json, cs: bool)
    requires j.Object? && Target(j, cs)
    ensures var s := Sort(j.members, cs);
            (forall m | m in s :: m in j.members && Target(m.value, cs))
            && Sorted(s, cs) && DistinctKeys(s, cs) && AbsMembers(s, cs) == AbsMembers(j.members, cs)
  {
    hide Sort;
    TargetParts(j, cs);
    SortKeepsMeaning(j.members, cs);
    SortCorrect(j.members, cs);
  }

  lemma {:induction false} DiffElemsRuns(v: Val, path: seq<Token>, done: seq<Val>, fs: seq<Json>, ts: seq<Json>,
                                         cs: bool)
    requires forall e | e in fs :: Source(e, cs)
    requires forall e | e in ts :: Target(e, cs)
    requires fs != [] ==> |done| + |fs| <= Pointers.ULONG_MAX + 1
    requires Look(v, path, cs) == Some(VArray(done + AbsElems(fs, cs)))
    ensures Run(v, DiffElems(path, fs, ts, |done|, cs), cs) == Some(Put(v, path, VArray(done + AbsElems(ts, cs)), cs))
    decreases fs, |ts|, 1
  {
    if fs != [] && ts != [] {
      PatchElem(v, path, done, fs, ts, cs);
    } else if fs != [] {
      DropElem(v, path, done, fs, ts, cs);
    } else if ts != [] {
      assert done + AbsElems([], cs) == done;
      AppendElem(v, path, done, ts, cs);
    } else {
      LookPut(v, path, cs);
    }
  }

  lemma {:induction false} PatchElem(v: Val, path: seq<Token>, done: seq<Val>, fs: seq<Json>, ts: seq<Json>, cs: bool)
    requires forall e | e in fs :: Source(e, cs)
    requires forall e | e in ts :: Target(e, cs)
    requires fs != [] ==> |done| + |fs| <= Pointers.ULONG_MAX + 1
    requires Look(v, path, cs) == Some(VArray(done + AbsElems(fs, cs)))
    requires fs != [] && ts != []
    ensures Run(v, DiffElems(path, fs, ts, |done|, cs), cs) == Some(Put(v, path, VArray(done + AbsElems(ts, cs)), cs))
    decreases fs, |ts|, 0
  {
    hide Look, Put, Run, Abs, AbsElems, Source, Target, Step;
    var x := Abs(ts[0], cs);
    var mid := VArray(done + [x] + AbsElems(fs[1..], cs));
    ShiftElems(done, fs, x, cs);
    ShiftElems(done, ts, x, cs);
    LookFurther(v, path, Index(|done|), cs);
    DiffRuns(v, path + [Index(|done|)], fs[0], ts[0], cs);
    Descend(v, path, Index(|done|), x, mid, cs);
    DiffElemsRuns(Put(v, path, mid, cs), path, done + [x], fs[1..], ts[1..], cs);
    RunBoth(v, path, Diff(path + [Index(|done|)], fs[0], ts[0], cs),
          DiffElems(path, fs[1..], ts[1..], |done| + 1, cs), mid, VArray(done + AbsElems(ts, cs)), cs);
  }

  lemma {:induction false} DropElem(v: Val, path: seq<Token>, done: seq<Val>, fs: seq<Json>, ts: seq<Json>, cs: bool)
    requires forall e | e in fs :: Source(e, cs)
    requires forall e | e in ts :: Target(e, cs)
    requires fs != [] ==> |done| + |fs| <= Pointers.ULONG_MAX + 1
    requires Look(v, path, cs) == Some(VArray(done + AbsElems(fs, cs)))
    requires fs != [] && ts == []
    ensures Run(v, DiffElems(path, fs, ts, |done|, cs), cs) == Some(Put(v, path, VArray(done + AbsElems(ts, cs)), cs))
    decreases fs, |ts|, 0
  {
    hide Look, Put, Run, Abs, AbsElems, Source, Target, Step;
    var mid := VArray(done + AbsElems(fs[1..], cs));
    ShiftElems(done, fs, VNull, cs);
    RunAct(v, path, Index(|done|), Remove, None, mid, cs);
    DiffElemsRuns(Put(v, path, mid, cs), path, done, fs[1..], ts, cs);
    RunBoth(v, path, [Edit(Remove, path + [Index(|done|)], None)],
          DiffElems(path, fs[1..], ts, |done|, cs), mid, VArray(done + AbsElems(ts, cs)), cs);
  }

  lemma {:induction false} AppendElem(v: Val, path: seq<Token>, done: seq<Val>, ts: seq<Json>, cs: bool)
    requires ts != [] && forall e | e in ts :: Target(e, cs)
    requires Look(v, path, cs) == Some(VArray(done))
    ensures Run(v, DiffElems(path, [], ts, |done|, cs), cs) == Some(Put(v, path, VArray(done + AbsElems(ts, cs)), cs))
    decreases var none: seq<Json> := []; none, |ts|, 0
  {
    hide Look, Put, Run, Abs, Source, Target, Step;
    var x := Abs(ts[0], cs);
    var mid := VArray(done + [x]);
    ShiftElems(done, ts, x, cs);
    RunAct(v, path, End, Add, Some(ts[0]), mid, cs);
    assert done + [x] + AbsElems([], cs) == done + [x];
    DiffElemsRuns(Put(v, path, mid, cs), path, done + [x], [], ts[1..], cs);
    RunBoth(v, path, [Edit(Add, path + [End], Some(ts[0]))],
          DiffElems(path, [], ts[1..], |done| + 1, cs), mid, VArray(done + AbsElems(ts, cs)), cs);
  }

  /** A single edit of a child of the container at `path`. */
  lemma RunAct(v: Val, path: seq<Token>, t: Token, action: Action, value: Option<Json>, mid: Val, cs: bool)
    requires Look(v, path, cs).Some?
    requires Act(Look(v, path, cs).value, t, action, EditValue(Edit(action, path, value), cs), cs) == Some(mid)
    ensures Run(v, [Edit(action, path + [t], value)], cs) == Some(Put(v, path, mid, cs))
    ensures Look(Put(v, path, mid, cs), path, cs) == Some(mid)
  {
    StepBelow(v, path, t, action, EditValue(Edit(action, path, value), cs), cs);
    RunOne(v, Edit(action, path + [t], value), cs);
    PutLook(v, path, mid, cs);
  }

  /** Edits that put a value at a child put a changed container at `path`. */
  lemma Descend(v: Val, path: seq<Token>, t: Token, x: Val, mid: Val, cs: bool)
    requires Look(v, path, cs).Some? && ChildOf(Look(v, path, cs).value, t, cs).Some?
    requires mid == WithChild(Look(v, path, cs).value, t, x, cs)
    ensures Look(v, path + [t], cs).Some?
    ensures Put(v, path + [t], x, cs) == Put(v, path, mid, cs)
    ensures Look(Put(v, path, mid, cs), path, cs) == Some(mid)
  {
    PutFurther(v, path, t, x, cs);
    PutLook(v, path, mid, cs);
  }

  /** Two runs that both work at `path` chain up. */
  lemma RunBoth(v: Val, path: seq<Token>, first: seq<Edit>, rest: seq<Edit>, mid: Val, end: Val, cs: bool)
    requires Look(v, path, cs).Some? && Run(v, first, cs) == Some(Put(v, path, mid, cs))
    requires Look(Put(v, path, mid, cs), path, cs).Some?
    requires Run(Put(v, path, mid, cs), rest, cs) == Some(Put(Put(v, path, mid, cs), path, end, cs))
    ensures Run(v, first + rest, cs) == Some(Put(v, path, end, cs))
  {
    RunParts(v, first, rest, Put(v, path, mid, cs), cs);
    PutPut(v, path, mid, end, cs);
  }

  /** The element after the finished ones, seen from the array as a whole. */
  lemma ShiftElems(done: seq<Val>, es: seq<Json>, x: Val, cs: bool)
    requires es != []
    ensures var all := done + AbsElems(es, cs);
            all[|done|] == Abs(es[0], cs)
            && all[|done| := x] == done + [x] + AbsElems(es[1..], cs)
            && RemoveAt(all, |done|) == done + AbsElems(es[1..], cs)
            && all == done + [Abs(es[0], cs)] + AbsElems(es[1..], cs)
  {
    ShiftSeq(done, Abs(es[0], cs), AbsElems(es[1..], cs), x);
  }

  lemma ShiftSeq<T>(done: seq<T>, y: T, rest: seq<T>, x: T)
    ensures var all := done + ([y] + rest);
            all[|done|] == y && all[|done| := x] == done + [x] + rest
            && RemoveAt(all, |done|) == done + rest && all == done + [y] + rest
  {
  }

  lemma {:induction false} DiffWalkRuns(v: Val, path: seq<Token>, owner: Json, m: map<Str, Val>,
    fs: seq<Member<Json>>, ts: seq<Member<Json>>, cs: bool)
    requires forall f | f in fs :: f.value < owner
    requires Walkable(fs, ts, cs)
    requires Look(v, path, cs) == Some(VObject(m)) && Reflects(m, fs, ts, cs)
    ensures Run(v, DiffWalk(owner, path, fs, ts, cs), cs) == Some(Put(v, path, Walked(m, fs, ts, cs), cs))
    decreases owner, 0, |fs| + |ts|, 1
  {
    if fs == [] && ts == [] {
      assert Walked(m, fs, ts, cs) == VObject(m);
      LookPut(v, path, cs);
    } else if WalkOrder(fs, ts, cs) == 0 {
      WalkBothRuns(v, path, owner, m, fs, ts, cs);
    } else if WalkOrder(fs, ts, cs) < 0 {
      WalkFromRuns(v, path, owner, m, fs, ts, cs);
    } else {
      WalkToRuns(v, path, owner, m, fs, ts, cs);
    }
  }

  lemma {:induction false} WalkBothRuns(v: Val, path: seq<Token>, owner: Json, m: map<Str, Val>,
    fs: seq<Member<Json>>, ts: seq<Member<Json>>, cs: bool)
    requires forall f | f in fs :: f.value < owner
    requires Walkable(fs, ts, cs)
    requires Look(v, path, cs) == Some(VObject(m)) && Reflects(m, fs, ts, cs)
    requires (fs != [] || ts != []) && WalkOrder(fs, ts, cs) == 0
    ensures Run(v, DiffWalk(owner, path, fs, ts, cs), cs) == Some(Put(v, path, Walked(m, fs, ts, cs), cs))
    decreases owner, 0, |fs| + |ts|, 0
  {
    hide Look, Put, Run, AbsMembers, Norm, Cmp, Step, Reflects, Walked, Walkable, Source, Target;
    var k, x := fs[0].key, Abs(ts[0].value, cs);
    var mid := m[Norm(k, cs) := x];
    WalkableTail(fs, ts, cs);
    WalkBoth(m, fs, ts, cs);
    LookFurther(v, path, Key(k), cs);
    DiffRuns(v, path + [Key(k)], fs[0].value, ts[0].value, cs);
    Descend(v, path, Key(k), x, VObject(mid), cs);
    DiffWalkRuns(Put(v, path, VObject(mid), cs), path, owner, mid, fs[1..], ts[1..], cs);
    RunBoth(v, path, Diff(path + [Key(k)], fs[0].value, ts[0].value, cs),
          DiffWalk(owner, path, fs[1..], ts[1..], cs), VObject(mid), Walked(m, fs, ts, cs), cs);
  }

  lemma {:induction false} WalkFromRuns(v: Val, path: seq<Token>, owner: Json, m: map<Str, Val>,
    fs: seq<Member<Json>>, ts: seq<Member<Json>>, cs: bool)
    requires forall f | f in fs :: f.value < owner
    requires Walkable(fs, ts, cs)
    requires Look(v, path, cs) == Some(VObject(m)) && Reflects(m, fs, ts, cs)
    requires (fs != [] || ts != []) && WalkOrder(fs, ts, cs) < 0
    ensures Run(v, DiffWalk(owner, path, fs, ts, cs), cs) == Some(Put(v, path, Walked(m, fs, ts, cs), cs))
    decreases owner, 0, |fs| + |ts|, 0
  {
    hide Look, Put, Run, AbsMembers, Norm, Cmp, Step, Reflects, Walked, Walkable, Source, Target;
    var k, mid := fs[0].key, m - {Norm(fs[0].key, cs)};
    WalkableTail(fs, ts, cs);
    WalkFrom(m, fs, ts, cs);
    RunAct(v, path, Key(k), Remove, None, VObject(mid), cs);
    DiffWalkRuns(Put(v, path, VObject(mid), cs), path, owner, mid, fs[1..], ts, cs);
    RunBoth(v, path, [Edit(Remove, path + [Key(k)], None)],
          DiffWalk(owner, path, fs[1..], ts, cs), VObject(mid), Walked(m, fs, ts, cs), cs);
  }

  lemma {:induction false} WalkToRuns(v: Val, path: seq<Token>, owner: Json, m: map<Str, Val>,
    fs: seq<Member<Json>>, ts: seq<Member<Json>>, cs: bool)
    requires forall f | f in fs :: f.value < owner
    requires Walkable(fs, ts, cs)
    requires Look(v, path, cs) == Some(VObject(m)) && Reflects(m, fs, ts, cs)
    requires (fs != [] || ts != []) && WalkOrder(fs, ts, cs) > 0
    ensures Run(v, DiffWalk(owner, path, fs, ts, cs), cs) == Some(Put(v, path, Walked(m, fs, ts, cs), cs))
    decreases owner, 0, |fs| + |ts|, 0
  {
    hide Look, Put, Run, AbsMembers, Norm, Cmp, Step, Reflects, Walked, Walkable, Source, Target;
    var k, x := ts[0].key, Abs(ts[0].value, cs);
    var mid := m[Norm(k, cs) := x];
    WalkableTail(fs, ts, cs);
    WalkTo(m, fs, ts, cs);
    RunAct(v, path, Key(k), Add, Some(ts[0].value), VObject(mid), cs);
    DiffWalkRuns(Put(v, path, VObject(mid), cs), path, owner, mid, fs, ts[1..], cs);
    RunBoth(v, path, [Edit(Add, path + [Key(k)], Some(ts[0].value))],
          DiffWalk(owner, path, fs, ts[1..], cs), VObject(mid), Walked(m, fs, ts, cs), cs);
  }

  ghost predicate Walkable(fs: seq<Member<Json>>, ts: seq<Member<Json>>, cs: bool) {
    Sorted(fs, cs) && DistinctKeys(fs, cs) && Sorted(ts, cs) && DistinctKeys(ts, cs)
    && (forall f | f in fs :: Source(f.value, cs)) && (forall t | t in ts :: Target(t.value, cs))
  }

  lemma WalkableTail(fs: seq<Member<Json>>, ts: seq<Member<Json>>, cs: bool)
    requires Walkable(fs, ts, cs)
    ensures fs != [] ==> Source(fs[0].value, cs) && Walkable(fs[1..], ts, cs)
    ensures ts != [] ==> Target(ts[0].value, cs) && Walkable(fs, ts[1..], cs)
    ensures fs != [] && ts != [] ==> Walkable(fs[1..], ts[1..], cs)
  {
    hide Source, Target;
  }

  /** The object being patched still holds the members of `fs`, and of `ts` only those also in `fs`. */
  ghost predicate Reflects(m: map<Str, Val>, fs: seq<Member<Json>>, ts: seq<Member<Json>>, cs: bool) {
    SubMap(AbsMembers(fs, cs), m)
    && forall k | k in AbsMembers(ts, cs) && k in m :: k in AbsMembers(fs, cs)
  }

  /** What the rest of the walk makes of the object. */
  ghost function Walked(m: map<Str, Val>, fs: seq<Member<Json>>, ts: seq<Member<Json>>, cs: bool): Val {
    VObject((m - AbsMembers(fs, cs).Keys) + AbsMembers(ts, cs))
  }

  lemma WalkBoth(m: map<Str, Val>, fs: seq<Member<Json>>, ts: seq<Member<Json>>, cs: bool)
    requires Walkable(fs, ts, cs) && Reflects(m, fs, ts, cs)
    requires fs != [] && ts != [] && Cmp(fs[0].key, ts[0].key, cs) == 0
    ensures var k := Norm(fs[0].key, cs);
            var mid := m[k := Abs(ts[0].value, cs)];
            k in m && m[k] == Abs(fs[0].value, cs)
            && Reflects(mid, fs[1..], ts[1..], cs) && Walked(mid, fs[1..], ts[1..], cs) == Walked(m, fs, ts, cs)
  {
    hide AbsMembers, Norm, Cmp, Abs;
    SplitHead(fs, cs);
    SplitHead(ts, cs);
    CmpZero(fs[0].key, ts[0].key, cs);
    ReplaceInRest(m, AbsMembers(fs[1..], cs), AbsMembers(ts[1..], cs), Norm(fs[0].key, cs),
                  Abs(fs[0].value, cs), Abs(ts[0].value, cs));
  }

  lemma ReplaceInRest(m: map<Str, Val>, f: map<Str, Val>, t: map<Str, Val>, k: Str, x: Val, y: Val)
    requires k !in f && k !in t
    ensures (m[k := y] - f.Keys) + t == (m - f[k := x].Keys) + t[k := y]
  {
  }

  lemma WalkFrom(m: map<Str, Val>, fs: seq<Member<Json>>, ts: seq<Member<Json>>, cs: bool)
    requires Walkable(fs, ts, cs) && Reflects(m, fs, ts, cs)
    requires fs != [] && (ts != [] ==> Cmp(fs[0].key, ts[0].key, cs) < 0)
    ensures var k := Norm(fs[0].key, cs);
            var mid := m - {k};
            k in m && Reflects(mid, fs[1..], ts, cs) && Walked(mid, fs[1..], ts, cs) == Walked(m, fs, ts, cs)
  {
    hide AbsMembers, Norm, Cmp, Abs;
    SplitHead(fs, cs);
    BelowAll(ts, fs[0].key, cs);
    RemoveFromRest(m, AbsMembers(fs[1..], cs), AbsMembers(ts, cs), Norm(fs[0].key, cs), Abs(fs[0].value, cs));
  }

  lemma RemoveFromRest(m: map<Str, Val>, f: map<Str, Val>, t: map<Str, Val>, k: Str, x: Val)
    ensures ((m - {k}) - f.Keys) + t == (m - f[k := x].Keys) + t
  {
  }

  lemma WalkTo(m: map<Str, Val>, fs: seq<Member<Json>>, ts: seq<Member<Json>>, cs: bool)
    requires Walkable(fs, ts, cs) && Reflects(m, fs, ts, cs)
    requires ts != [] && (fs != [] ==> Cmp(fs[0].key, ts[0].key, cs) > 0)
    ensures var k := Norm(ts[0].key, cs);
            var mid := m[k := Abs(ts[0].value, cs)];
            Reflects(mid, fs, ts[1..], cs) && Walked(mid, fs, ts[1..], cs) == Walked(m, fs, ts, cs)
  {
    hide AbsMembers, Norm, Cmp, Abs;
    SplitHead(ts, cs);
    if fs != [] { CmpFlip(ts[0].key, fs[0].key, cs); }
    BelowAll(fs, ts[0].key, cs);
    AddToRest(m, AbsMembers(fs, cs), AbsMembers(ts[1..], cs), Norm(ts[0].key, cs), Abs(ts[0].value, cs));
  }

  lemma AddToRest(m: map<Str, Val>, f: map<Str, Val>, t: map<Str, Val>, k: Str, x: Val)
    requires k !in f && k !in t
    ensures (m[k := x] - f.Keys) + t == (m - f.Keys) + t[k := x]
  {
  }
}
