/** Applying generated patches to the very tree they were generated from. create_patches has sorted its objects in
    place, so what is appended to them can be lost; this says exactly when nothing is. */
module SortedSources {
  import opened CStrings
  import opened SiblingLinks
  import opened JsonTrees
  import opened Sorting
  import opened Comparing
  import opened Pointers
  import opened Edits
  import opened Diffing
  import opened Patching
  import opened PatchRoundTrip
  import opened PatchesBelow
  import opened BrokenLinks
  import opened Reorderings
  import opened Vocabularies
  import opened WalkRuns

  // ---------- the condition ----------

  /** No addition is lost when `from` is patched after the patches to `to` have been generated. */
  predicate LosesNothing(from: Json, to: Json, cs: bool)
    decreases from
  {
    SameType(from, to) ==>
      match from
      case Array(es) => ElemsLoseNothing(es, to.elems, cs)
      case Object(ms, _) =>
        SortCorrect(ms, cs);
        WalkLosesNothing(from, Sort(ms, cs), Sort(to.members, cs), RightLink(SortedObject(from, cs)), cs)
      case _ => true
  }

  predicate ElemsLoseNothing(fs: seq<Json>, ts: seq<Json>, cs: bool)
    decreases fs
  {
    fs != [] && ts != [] ==> LosesNothing(fs[0], ts[0], cs) && ElemsLoseNothing(fs[1..], ts[1..], cs)
  }

  /** The link is right from the start, or the last member has gone before anything is appended. */
  predicate WalkLosesNothing(ghost owner: Json, fs: seq<Member<Json>>, ts: seq<Member<Json>>, right: bool, cs: bool)
    requires forall m | m in fs :: m.value < owner
    decreases owner, |fs| + |ts|
  {
    fs != [] || ts != [] ==>
      var diff := WalkOrder(fs, ts, cs);
      if diff == 0 then
        if Replaced(fs[0].value, ts[0].value)
        then (right || |fs| == 1) && WalkLosesNothing(owner, fs[1..], ts[1..], true, cs)
        else LosesNothing(fs[0].value, ts[0].value, cs) && WalkLosesNothing(owner, fs[1..], ts[1..], right, cs)
      else if diff < 0 then WalkLosesNothing(owner, fs[1..], ts, right || |fs| == 1, cs)
      else right && WalkLosesNothing(owner, fs, ts[1..], true, cs)
  }

  // ---------- what create_patches leaves means the same ----------

  /** create_patches only reorders its arguments. */
  lemma {:induction false} AfterDiffReorders(from: Json, to: Json, cs: bool)
    ensures Reordered(from, AfterDiff(from, to, cs).0) && Reordered(to, AfterDiff(from, to, cs).1)
    decreases from
  {
    if !SameType(from, to) {
      ReorderedSelf(from);
      ReorderedSelf(to);
    } else {
      match from {
        case Array(es) => AfterDiffElemsReorder(es, to.elems, 0, cs);
        case Object(ms, _) =>
          hide Reordered, Sort, Order, AfterDiffWalk;
          SortCorrect(ms, cs);
          AfterDiffWalkReorders(from, Sort(ms, cs), Sort(to.members, cs), cs);
          var (fs, ts) := AfterDiffWalk(from, Sort(ms, cs), Sort(to.members, cs), cs);
          SortedReorders(from, fs, SortedObject(from, cs).link, cs);
          SortedReorders(to, ts, SortedObject(to, cs).link, cs);
        case _ =>
          ReorderedSelf(from);
          ReorderedSelf(to);
      }
    }
  }

  lemma {:induction false} AfterDiffElemsReorder(fs: seq<Json>, ts: seq<Json>, index: nat, cs: bool)
    ensures var (us, vs) := AfterDiffElems(fs, ts, index, cs);
            (forall i | 0 <= i < |fs| :: Reordered(fs[i], us[i])) && forall i | 0 <= i < |ts| :: Reordered(ts[i], vs[i])
    decreases fs
  {
    hide Reordered, AfterDiff;
    AllSelf(fs);
    AllSelf(ts);
    if fs != [] && ts != [] && index <= ULONG_MAX {
      AfterDiffReorders(fs[0], ts[0], cs);
      AfterDiffElemsReorder(fs[1..], ts[1..], index + 1, cs);
    }
  }

  lemma {:induction false} AfterDiffWalkReorders(owner: Json, fs: seq<Member<Json>>, ts: seq<Member<Json>>, cs: bool)
    requires forall m | m in fs :: m.value < owner
    ensures Pairwise(fs, AfterDiffWalk(owner, fs, ts, cs).0) && Pairwise(ts, AfterDiffWalk(owner, fs, ts, cs).1)
    decreases owner, |fs| + |ts|
  {
    hide Pairwise, Reordered, AfterDiff, AfterDiffWalk, Cmp;
    if fs == [] && ts == [] {
      PairwiseSelf([]);
      NothingAfter(owner, cs);
    } else if WalkOrder(fs, ts, cs) == 0 {
      assert fs[0] in fs && fs == [fs[0]] + fs[1..] && ts == [ts[0]] + ts[1..];
      AfterWalkUnfold(owner, fs, ts, cs);
      var (f, t) := AfterDiff(fs[0].value, ts[0].value, cs);
      AfterDiffReorders(fs[0].value, ts[0].value, cs);
      AfterDiffWalkReorders(owner, fs[1..], ts[1..], cs);
      PairwiseCons(fs[0], f, fs[1..], AfterDiffWalk(owner, fs[1..], ts[1..], cs).0);
      PairwiseCons(ts[0], t, ts[1..], AfterDiffWalk(owner, fs[1..], ts[1..], cs).1);
    } else {
      OneSideReorders(owner, fs, ts, cs);
    }
  }

  lemma NothingAfter(owner: Json, cs: bool)
    ensures AfterDiffWalk(owner, [], [], cs) == ([], [])
  {
  }

  lemma {:induction false} OneSideReorders(owner: Json, fs: seq<Member<Json>>, ts: seq<Member<Json>>, cs: bool)
    requires (forall m | m in fs :: m.value < owner) && (fs != [] || ts != []) && WalkOrder(fs, ts, cs) != 0
    ensures Pairwise(fs, AfterDiffWalk(owner, fs, ts, cs).0) && Pairwise(ts, AfterDiffWalk(owner, fs, ts, cs).1)
    decreases owner, |fs| + |ts|, 0
  {
    hide Pairwise, Reordered, AfterDiff, AfterDiffWalk, Cmp;
    AfterWalkUnfold(owner, fs, ts, cs);
    if WalkOrder(fs, ts, cs) < 0 {
      assert fs == [fs[0]] + fs[1..];
      ReorderedSelf(fs[0].value);
      AfterDiffWalkReorders(owner, fs[1..], ts, cs);
      PairwiseCons(fs[0], fs[0].value, fs[1..], AfterDiffWalk(owner, fs[1..], ts, cs).0);
    } else {
      assert ts == [ts[0]] + ts[1..];
      ReorderedSelf(ts[0].value);
      AfterDiffWalkReorders(owner, fs, ts[1..], cs);
      PairwiseCons(ts[0], ts[0].value, ts[1..], AfterDiffWalk(owner, fs, ts[1..], cs).1);
    }
  }

  // ---------- the walk over the tree the patches came from ----------

  /** What create_patches leaves of a member of `from`. */
  function Left(f: Member<Json>, ts: seq<Member<Json>>, cs: bool): Json {
    var i := FindKey(ts, f.key, cs);
    if i < |ts| then AfterDiff(f.value, ts[i].value, cs).0 else f.value
  }

  /** The object holds the members of `from` as create_patches has left them. */
  ghost predicate Mirrors(d: Json, fs: seq<Member<Json>>, ts: seq<Member<Json>>, cs: bool) {
    forall i | 0 <= i < |fs| :: GetMember(d, fs[i].key, cs) == Some(Left(fs[i], ts, cs))
  }

  lemma LeftNext(f: Member<Json>, ts: seq<Member<Json>>, cs: bool)
    requires ts != []
    ensures Left(f, ts, cs) == if Norm(ts[0].key, cs) == Norm(f.key, cs) then AfterDiff(f.value, ts[0].value, cs).0
                               else Left(f, ts[1..], cs)
  {
    hide Norm, AfterDiff;
  }

  lemma LeftNone(f: Member<Json>, ts: seq<Member<Json>>, cs: bool)
    requires Norm(f.key, cs) !in Norms(ts, cs)
    ensures Left(f, ts, cs) == f.value
  {
    hide Norm, AfterDiff;
    assert forall t | t in ts :: Norm(t.key, cs) in Norms(ts, cs);
  }

  ghost predicate Leaves(after: seq<Member<Json>>, fs: seq<Member<Json>>, ts: seq<Member<Json>>, cs: bool) {
    |after| == |fs| && forall i | 0 <= i < |fs| :: after[i].value == Left(fs[i], ts, cs)
  }

  lemma LeavesCons(m: Member<Json>, rest: seq<Member<Json>>, fs: seq<Member<Json>>, ts': seq<Member<Json>>,
                   ts: seq<Member<Json>>, cs: bool)
    requires fs != [] && m.value == Left(fs[0], ts, cs) && Leaves(rest, fs[1..], ts', cs)
    requires forall i | 1 <= i < |fs| :: Left(fs[i], ts, cs) == Left(fs[i], ts', cs)
    ensures Leaves([m] + rest, fs, ts, cs)
  {
    hide Left;
    var all := [m] + rest;
    forall i | 1 <= i < |fs| ensures all[i].value == Left(fs[i], ts, cs) {
      assert all[i] == rest[i - 1] && fs[1..][i - 1] == fs[i];
    }
  }

  /** Elements whose keys are not that of the head of `ts`. */
  lemma LeftBehind(fs: seq<Member<Json>>, from: nat, ts: seq<Member<Json>>, cs: bool)
    requires ts != [] && forall i | from <= i < |fs| :: Norm(fs[i].key, cs) != Norm(ts[0].key, cs)
    ensures forall i | from <= i < |fs| :: Left(fs[i], ts, cs) == Left(fs[i], ts[1..], cs)
  {
    hide Left, Norm;
    forall i | from <= i < |fs| ensures Left(fs[i], ts, cs) == Left(fs[i], ts[1..], cs) { LeftNext(fs[i], ts, cs); }
  }

  /** The walk of create_patches leaves exactly this. */
  lemma {:induction false} WalkLeaves(owner: Json, fs: seq<Member<Json>>, ts: seq<Member<Json>>, keys: iset<Str>,
                                      cs: bool)
    requires Lists(owner, fs, ts, keys, cs)
    ensures Leaves(AfterDiffWalk(owner, fs, ts, cs).0, fs, ts, cs)
    decreases |fs| + |ts|
  {
    if fs != [] {
      hide Norm, Norms, Cmp, AfterDiff, AfterDiffWalk, Left, Lists, Leaves, DistinctKeys;
      ListsApart(owner, fs, ts, keys, cs);
      ListsTail(owner, fs, ts, keys, cs);
      ListsBounded(owner, fs, ts, keys, cs);
      AfterWalkUnfold(owner, fs, ts, cs);
      var diff := WalkOrder(fs, ts, cs);
      if diff == 0 {
        WalkLeaves(owner, fs[1..], ts[1..], keys, cs);
        LeftNext(fs[0], ts, cs);
        forall i | 1 <= i < |fs| ensures Norm(fs[i].key, cs) != Norm(ts[0].key, cs) { LaterDiffers(fs, i, cs); }
        LeftBehind(fs, 1, ts, cs);
        LeavesCons(Member(fs[0].key, AfterDiff(fs[0].value, ts[0].value, cs).0),
                   AfterDiffWalk(owner, fs[1..], ts[1..], cs).0, fs, ts[1..], ts, cs);
      } else if diff < 0 {
        WalkLeaves(owner, fs[1..], ts, keys, cs);
        LeftNone(fs[0], ts, cs);
        LeavesCons(fs[0], AfterDiffWalk(owner, fs[1..], ts, cs).0, fs, ts, ts, cs);
      } else {
        WalkLeaves(owner, fs, ts[1..], keys, cs);
        forall i | 0 <= i < |fs| ensures Norm(fs[i].key, cs) != Norm(ts[0].key, cs) { InNorms(fs, i, cs); }
        LeftBehind(fs, 0, ts, cs);
        SameLeaves(AfterDiffWalk(owner, fs, ts[1..], cs).0, fs, ts[1..], ts, cs);
      }
    }
  }

  lemma SameLeaves(after: seq<Member<Json>>, fs: seq<Member<Json>>, ts': seq<Member<Json>>, ts: seq<Member<Json>>,
                   cs: bool)
    requires Leaves(after, fs, ts', cs) && forall i | 0 <= i < |fs| :: Left(fs[i], ts, cs) == Left(fs[i], ts', cs)
    ensures Leaves(after, fs, ts, cs)
  {
    hide Left;
  }

  lemma ListsBounded(owner: Json, fs: seq<Member<Json>>, ts: seq<Member<Json>>, keys: iset<Str>, cs: bool)
    requires Lists(owner, fs, ts, keys, cs)
    ensures (forall f | f in fs :: f.value < owner) && DistinctKeys(fs, cs) && DistinctKeys(ts, cs)
  {
  }

  lemma LaterDiffers(ms: seq<Member<Json>>, i: nat, cs: bool)
    requires DistinctKeys(ms, cs) && 0 < i < |ms|
    ensures Norm(ms[i].key, cs) != Norm(ms[0].key, cs)
  {
  }

  lemma InNorms(ms: seq<Member<Json>>, i: nat, cs: bool)
    requires i < |ms|
    ensures Norm(ms[i].key, cs) in Norms(ms, cs)
  {
    assert ms[i] in ms;
  }

  ghost predicate Sides(owner: Json, fs: seq<Member<Json>>, ts: seq<Member<Json>>, keys: iset<Str>, cs: bool) {
    Lists(owner, fs, ts, keys, cs) && Walkable(fs, ts, cs)
    && (forall f | f in fs :: Fits(f.value, keys, cs) && Small(f.value))
    && forall t | t in ts :: Fits(t.value, keys, cs)
  }

  lemma SidesTail(owner: Json, fs: seq<Member<Json>>, ts: seq<Member<Json>>, keys: iset<Str>, cs: bool)
    requires Sides(owner, fs, ts, keys, cs)
    ensures Lists(owner, fs, ts, keys, cs) && Walkable(fs, ts, cs)
    ensures fs != [] ==> fs[0].key in keys && fs[0].value < owner && Fits(fs[0].value, keys, cs) && Small(fs[0].value)
                         && Sides(owner, fs[1..], ts, keys, cs)
    ensures ts != [] ==> ts[0].key in keys && Fits(ts[0].value, keys, cs) && Sides(owner, fs, ts[1..], keys, cs)
    ensures fs != [] && ts != [] ==> Sides(owner, fs[1..], ts[1..], keys, cs)
  {
    hide Lists, Walkable, Fits, Small;
    ListsTail(owner, fs, ts, keys, cs);
    WalkableTail(fs, ts, cs);
  }

  /** While nothing has been appended, the rest of `from` is the end of the object. */
  ghost predicate Tail(d: Json, fs: seq<Member<Json>>)
    requires d.Object?
  {
    |fs| <= |d.members| && forall i | 0 <= i < |fs| :: d.members[|d.members| - |fs| + i].key == fs[i].key
  }

  ghost predicate Reached(r: Outcome, goal: Val, cs: bool) {
    r.status == 0 && Abs(r.root, cs) == goal
  }

  /** The next round, when all other keys are found as before. */
  lemma MirrorsNext(owner: Json, d: Json, after: Json, fs: seq<Member<Json>>, ts: seq<Member<Json>>, keys: iset<Str>,
                    cs: bool)
    requires Lists(owner, fs, ts, keys, cs) && (fs != [] || ts != []) && Mirrors(d, fs, ts, cs)
    requires var k := Norm(if WalkOrder(fs, ts, cs) <= 0 then fs[0].key else ts[0].key, cs);
             forall name: Str | Norm(name, cs) != k :: GetMember(after, name, cs) == GetMember(d, name, cs)
    ensures var diff := WalkOrder(fs, ts, cs);
            Mirrors(after, if diff <= 0 then fs[1..] else fs, if diff >= 0 then ts[1..] else ts, cs)
  {
    hide Norm, Norms, Cmp, GetMember, Left;
    ListsApart(owner, fs, ts, keys, cs);
    var diff := WalkOrder(fs, ts, cs);
    var fs', ts' := if diff <= 0 then fs[1..] else fs, if diff >= 0 then ts[1..] else ts;
    forall i | 0 <= i < |fs'| ensures GetMember(after, fs'[i].key, cs) == Some(Left(fs'[i], ts', cs)) {
      InNorms(fs', i, cs);
      if diff <= 0 { assert fs'[i] == fs[i + 1]; }
      if diff >= 0 { LeftNext(fs'[i], ts, cs); }
    }
  }

  lemma MirrorsFirst(owner: Json, d: Json, fs: seq<Member<Json>>, ts: seq<Member<Json>>, keys: iset<Str>, cs: bool)
    requires Lists(owner, fs, ts, keys, cs) && fs != [] && Mirrors(d, fs, ts, cs) && d.Object?
    ensures var i := FindKey(d.members, fs[0].key, cs);
            i < |d.members| && Norm(fs[0].key, cs) in Norms(d.members, cs)
            && (ts != [] && WalkOrder(fs, ts, cs) == 0 ==>
                  d.members[i].value == AfterDiff(fs[0].value, ts[0].value, cs).0)
  {
    hide Norm, Norms, Cmp, AfterDiff, Left;
    KnownKey(d, fs[0].key, cs);
    ListsApart(owner, fs, ts, keys, cs);
    if ts != [] { LeftNext(fs[0], ts, cs); }
  }

  lemma TailFirst(d: Json, fs: seq<Member<Json>>, keys: iset<Str>, cs: bool)
    requires Open(d, keys, cs) && Tail(d, fs) && fs != []
    ensures FindKey(d.members, fs[0].key, cs) == |d.members| - |fs|
  {
    FoundAt(d.members, |d.members| - |fs|, fs[0].key, cs);
  }

  /** Taking out the next member of `from`. */
  lemma TakeNext(d: Json, fs: seq<Member<Json>>, keys: iset<Str>, cs: bool)
    requires Open(d, keys, cs) && fs != [] && FindKey(d.members, fs[0].key, cs) < |d.members|
    requires !RightLink(d) ==> Tail(d, fs)
    ensures var w := WithoutMember(d, fs[0].key, cs);
            (RightLink(w) <==> RightLink(d) || |fs| == 1) && (!RightLink(w) ==> Tail(w, fs[1..]))
  {
    hide Norm, FindKey;
    WithoutLink(d, fs[0].key, cs);
    if !RightLink(d) { TailFirst(d, fs, keys, cs); }
  }

  lemma WithoutLookups(d: Json, k: Str, keys: iset<Str>, cs: bool)
    requires Open(d, keys, cs)
    ensures forall name: Str | Norm(name, cs) != Norm(k, cs) ::
              GetMember(WithoutMember(d, k, cs), name, cs) == GetMember(d, name, cs)
  {
    hide GetMember, WithoutMember, Norm;
    forall name: Str | Norm(name, cs) != Norm(k, cs)
      ensures GetMember(WithoutMember(d, k, cs), name, cs) == GetMember(d, name, cs)
    {
      WithoutLookup(d, k, name, keys, cs);
    }
  }

  /** A run that has lost a member it should end with does not get there. */
  lemma DoomedRun(owner: Json, d: Json, fs: seq<Member<Json>>, ts: seq<Member<Json>>, n: Str, goal: map<Str, Val>,
                  keys: iset<Str>, cs: bool)
    requires Vocabulary(keys, cs) && Open(d, keys, cs) && Lists(owner, fs, ts, keys, cs)
    requires if n in Norms(fs, cs) then n !in Norms(d.members, cs) && (n in Norms(ts, cs) ==> n in goal)
             else n !in Norms(ts, cs) && n in goal
                  && (n in AbsMembers(d.members, cs) ==> AbsMembers(d.members, cs)[n] != goal[n])
    ensures !Reached(WalkRun(owner, d, fs, ts, cs), VObject(goal), cs)
  {
    hide Norm, Norms, AbsMembers, WalkRun, Lists, Open, Vocabulary;
    OpenObject(d, keys, cs);
    Frame(owner, d, fs, ts, n, keys, cs);
  }

  lemma OpenObject(d: Json, keys: iset<Str>, cs: bool)
    requires Open(d, keys, cs)
    ensures d.Object?
  {
  }

  /** Whatever is lost in appending behind a broken link dooms the run. */
  lemma BrokenDooms(owner: Json, d: Json, m: Member<Json>, fs: seq<Member<Json>>, ts: seq<Member<Json>>,
                    goal: map<Str, Val>, keys: iset<Str>, cs: bool)
    requires Vocabulary(keys, cs) && Open(d, keys, cs) && Lists(owner, fs, ts, keys, cs)
    requires m.key in keys && !RightLink(d) && Tail(d, fs)
    requires Norm(m.key, cs) !in Norms(d.members, cs) + Norms(fs, cs) + Norms(ts, cs) && Norm(m.key, cs) in goal
    requires AbsMembers(ts, cs).Keys <= goal.Keys
    requires fs == [] ==> Norms(d.members, cs) <= goal.Keys && Norms(d.members, cs) !! Norms(ts, cs)
    ensures !Reached(RestBehind(Adding(d, m), owner, fs, ts, cs), VObject(goal), cs)
  {
    if Appendable(d) {
      hide Norm, AbsMembers, WalkRun, Vocabulary, Appendable, AddedMember, Cmp;
      var a := AddedMember(d, m);
      var lost := AddedBroken(d, m, keys, cs);
      AddedOpen(d, m, keys, cs);
      AbsKeys(ts, cs);
      AbsKeys(a.members, cs);
      var last := d.members[|d.members| - 1];
      assert last in d.members;
      if fs != [] {
        assert last.key == fs[|fs| - 1].key && fs[|fs| - 1] in fs;
      }
      DoomedRun(owner, a, fs, ts, lost, goal, keys, cs);
    }
  }

  /** A moment of the walk: `right` says whether the link of the object is right. */
  ghost predicate Walking(owner: Json, d: Json, fs: seq<Member<Json>>, ts: seq<Member<Json>>, right: bool,
                          keys: iset<Str>, cs: bool) {
    Open(d, keys, cs) && Sides(owner, fs, ts, keys, cs) && Mirrors(d, fs, ts, cs)
    && Reflects(AbsMembers(d.members, cs), fs, ts, cs)
    && (right <==> RightLink(d)) && (!right ==> Tail(d, fs))
  }

  ghost function Goal(d: Json, fs: seq<Member<Json>>, ts: seq<Member<Json>>, cs: bool): (v: Val)
    requires d.Object?
    ensures v.VObject?
  {
    Walked(AbsMembers(d.members, cs), fs, ts, cs)
  }

  /** The walk reaches its goal exactly when nothing is lost. */
  lemma {:induction false} WalkClaim(owner: Json, d: Json, fs: seq<Member<Json>>, ts: seq<Member<Json>>, right: bool,
                                     keys: iset<Str>, cs: bool)
    requires Vocabulary(keys, cs) && Walking(owner, d, fs, ts, right, keys, cs)
    requires forall f | f in fs :: f.value < owner
    ensures Reached(WalkRun(owner, d, fs, ts, cs), Goal(d, fs, ts, cs), cs)
            <==> WalkLosesNothing(owner, fs, ts, right, cs)
    decreases owner, 0, |fs| + |ts|, 1
  {
    if fs == [] && ts == [] {
      EmptyWalk(owner, d, cs);
      EmptyGoal(d, cs);
    } else if WalkOrder(fs, ts, cs) == 0 {
      if Replaced(fs[0].value, ts[0].value) {
        ReplacedClaim(owner, d, fs, ts, right, keys, cs);
      } else {
        NestedClaim(owner, d, fs, ts, right, keys, cs);
      }
    } else if WalkOrder(fs, ts, cs) < 0 {
      GoneClaim(owner, d, fs, ts, right, keys, cs);
    } else {
      NewClaim(owner, d, fs, ts, right, keys, cs);
    }
  }

  lemma EmptyGoal(d: Json, cs: bool)
    requires d.Object?
    ensures Goal(d, [], [], cs) == Abs(d, cs)
  {
  }

  lemma WalkingParts(owner: Json, d: Json, fs: seq<Member<Json>>, ts: seq<Member<Json>>, right: bool, keys: iset<Str>,
                     cs: bool)
    requires Walking(owner, d, fs, ts, right, keys, cs)
    ensures Open(d, keys, cs) && d.Object? && Sides(owner, fs, ts, keys, cs) && Mirrors(d, fs, ts, cs)
            && Reflects(AbsMembers(d.members, cs), fs, ts, cs) && (right <==> RightLink(d)) && (!right ==> Tail(d, fs))
            && Lists(owner, fs, ts, keys, cs) && Walkable(fs, ts, cs)
  {
  }

  /** A key that only `from` has. */
  lemma {:induction false} GoneClaim(owner: Json, d: Json, fs: seq<Member<Json>>, ts: seq<Member<Json>>, right: bool,
                                     keys: iset<Str>, cs: bool)
    requires Vocabulary(keys, cs) && Walking(owner, d, fs, ts, right, keys, cs)
    requires (forall f | f in fs :: f.value < owner) && (fs != [] || ts != []) && WalkOrder(fs, ts, cs) < 0
    ensures Reached(WalkRun(owner, d, fs, ts, cs), Goal(d, fs, ts, cs), cs)
            <==> WalkLosesNothing(owner, fs, ts, right, cs)
    decreases owner, 0, |fs| + |ts|, 0
  {
    hide Norm, Norms, Cmp, AbsMembers, WalkRun, Apply, ToPatch, Open, Sides, Mirrors, Reflects, Walked, Tail;
    hide RightLink, Lists, Walkable, Vocabulary, LosesNothing, Replaced, Fits, Small, WithoutMember, GetMember, Abs;
    WalkingParts(owner, d, fs, ts, right, keys, cs);
    SidesTail(owner, fs, ts, keys, cs);
    ListsTail(owner, fs, ts, keys, cs);
    var k, w, right' := fs[0].key, WithoutMember(d, fs[0].key, cs), right || |fs| == 1;
    MirrorsFirst(owner, d, fs, ts, keys, cs);
    WalkRunUnfolds(owner, d, fs, ts, cs);
    RemoveStep(d, k, keys, cs);
    WithoutOpen(d, k, keys, cs);
    WithoutLookups(d, k, keys, cs);
    MirrorsNext(owner, d, w, fs, ts, keys, cs);
    TakeNext(d, fs, keys, cs);
    WalkFrom(AbsMembers(d.members, cs), fs, ts, cs);
    WalkClaim(owner, w, fs[1..], ts, right', keys, cs);
  }

  /** A key that only `to` has. */
  lemma {:induction false} NewClaim(owner: Json, d: Json, fs: seq<Member<Json>>, ts: seq<Member<Json>>, right: bool,
                                    keys: iset<Str>, cs: bool)
    requires Vocabulary(keys, cs) && Walking(owner, d, fs, ts, right, keys, cs)
    requires (forall f | f in fs :: f.value < owner) && (fs != [] || ts != []) && WalkOrder(fs, ts, cs) > 0
    ensures Reached(WalkRun(owner, d, fs, ts, cs), Goal(d, fs, ts, cs), cs)
            <==> WalkLosesNothing(owner, fs, ts, right, cs)
    decreases owner, 0, |fs| + |ts|, 0
  {
    hide Norm, Norms, Cmp, AbsMembers, WalkRun, Apply, ToPatch, Open, Sides, Mirrors, Reflects, Walked, Tail;
    hide RightLink, Lists, Walkable, Vocabulary, LosesNothing, Replaced, Fits, Small, WithoutMember, AddedMember;
    hide Appendable, GetMember, Abs;
    WalkingParts(owner, d, fs, ts, right, keys, cs);
    SidesTail(owner, fs, ts, keys, cs);
    ListsTail(owner, fs, ts, keys, cs);
    var k, x := ts[0].key, ts[0].value;
    var m, goal := NewMember(k, x), Goal(d, fs, ts, cs).fields;
    NewKey(owner, d, fs, ts, keys, cs);
    WalkRunUnfolds(owner, d, fs, ts, cs);
    AddStep(d, k, x, keys, cs);
    WithoutNew(d, k, cs);
    WalkTo(AbsMembers(d.members, cs), fs, ts, cs);
    RelinkedMeans(x, cs);
    if right {
      AppendableRight(d);
      AddedRight(d, m, keys, cs);
      MirrorsNext(owner, d, AddedMember(d, m), fs, ts, keys, cs);
      WalkClaim(owner, AddedMember(d, m), fs, ts[1..], true, keys, cs);
    } else {
      BrokenDooms(owner, d, m, fs, ts[1..], goal, keys, cs);
    }
  }

  lemma AppendableRight(d: Json)
    requires d.Object? && RightLink(d)
    ensures Appendable(d)
  {
  }

  /** The goal has all of `to` and, when `from` has been walked, all of the object. */
  lemma NewKey(owner: Json, d: Json, fs: seq<Member<Json>>, ts: seq<Member<Json>>, keys: iset<Str>, cs: bool)
    requires Open(d, keys, cs) && Lists(owner, fs, ts, keys, cs) && Reflects(AbsMembers(d.members, cs), fs, ts, cs)
    requires ts != [] && WalkOrder(fs, ts, cs) > 0
    ensures var k, goal := Norm(ts[0].key, cs), Goal(d, fs, ts, cs).fields;
            k !in Norms(d.members, cs) + Norms(fs, cs) + Norms(ts[1..], cs) && k in goal
            && AbsMembers(ts[1..], cs).Keys <= goal.Keys
            && (fs == [] ==> Norms(d.members, cs) <= goal.Keys && Norms(d.members, cs) !! Norms(ts[1..], cs))
  {
    hide Norm, Cmp, Abs;
    ListsApart(owner, fs, ts, keys, cs);
    AbsKeys(d.members, cs);
    AbsKeys(fs, cs);
    AbsKeys(ts, cs);
    AbsKeys(ts[1..], cs);
  }

  /** A key of both whose value is replaced: the old member goes, the new one is appended. */
  lemma {:induction false} ReplacedClaim(owner: Json, d: Json, fs: seq<Member<Json>>, ts: seq<Member<Json>>,
                                         right: bool, keys: iset<Str>, cs: bool)
    requires Vocabulary(keys, cs) && Walking(owner, d, fs, ts, right, keys, cs)
    requires (forall f | f in fs :: f.value < owner) && fs != [] && ts != [] && WalkOrder(fs, ts, cs) == 0
    requires Replaced(fs[0].value, ts[0].value)
    ensures Reached(WalkRun(owner, d, fs, ts, cs), Goal(d, fs, ts, cs), cs)
            <==> WalkLosesNothing(owner, fs, ts, right, cs)
    decreases owner, 0, |fs| + |ts|, 0
  {
    hide Norm, Norms, Cmp, AbsMembers, WalkRun, Apply, ApplyAll, Diff, ToPatch, ToPatches, Open, Sides, Mirrors;
    hide Reflects, Walked, Tail, RightLink, Lists, Walkable, Vocabulary, LosesNothing, Replaced, Fits, Small;
    hide WithoutMember, AddedMember, Appendable, GetMember, Abs;
    WalkingParts(owner, d, fs, ts, right, keys, cs);
    SidesTail(owner, fs, ts, keys, cs);
    ListsTail(owner, fs, ts, keys, cs);
    var k, x, w := fs[0].key, ts[0].value, WithoutMember(d, fs[0].key, cs);
    var m, right', goal := NewMember(k, x), right || |fs| == 1, Goal(d, fs, ts, cs).fields;
    MirrorsFirst(owner, d, fs, ts, keys, cs);
    WalkRunUnfolds(owner, d, fs, ts, cs);
    ReplacedStep(d, fs[0], x, keys, cs);
    ReplaceStep(d, k, x, keys, cs);
    WithoutOpen(d, k, keys, cs);
    TakeNext(d, fs, keys, cs);
    WalkBoth(AbsMembers(d.members, cs), fs, ts, cs);
    RelinkedMeans(x, cs);
    if right' {
      WithoutLookups(d, k, keys, cs);
      AppendableRight(w);
      AddedRight(w, m, keys, cs);
      MirrorsNext(owner, d, AddedMember(w, m), fs, ts, keys, cs);
      WithoutThenSet(AbsMembers(d.members, cs), Norm(k, cs), Abs(x, cs));
      WalkClaim(owner, AddedMember(w, m), fs[1..], ts[1..], true, keys, cs);
    } else {
      ReplacedKey(owner, d, fs, ts, keys, cs);
      BrokenDooms(owner, w, m, fs[1..], ts[1..], goal, keys, cs);
    }
  }

  lemma WithoutThenSet(m: map<Str, Val>, k: Str, x: Val)
    ensures (m - {k})[k := x] == m[k := x]
  {
  }

  lemma ReplacedKey(owner: Json, d: Json, fs: seq<Member<Json>>, ts: seq<Member<Json>>, keys: iset<Str>, cs: bool)
    requires Open(d, keys, cs) && Lists(owner, fs, ts, keys, cs) && fs != [] && ts != [] && WalkOrder(fs, ts, cs) == 0
    ensures var k, goal := Norm(fs[0].key, cs), Goal(d, fs, ts, cs).fields;
            k !in Norms(fs[1..], cs) + Norms(ts[1..], cs) && k in goal && AbsMembers(ts[1..], cs).Keys <= goal.Keys
  {
    hide Norm, Cmp, Abs;
    ListsApart(owner, fs, ts, keys, cs);
    AbsKeys(ts, cs);
    AbsKeys(ts[1..], cs);
  }

  /** A key of both whose value is edited in its place. */
  lemma {:induction false} NestedClaim(owner: Json, d: Json, fs: seq<Member<Json>>, ts: seq<Member<Json>>, right: bool,
                                       keys: iset<Str>, cs: bool)
    requires Vocabulary(keys, cs) && Walking(owner, d, fs, ts, right, keys, cs)
    requires (forall f | f in fs :: f.value < owner) && fs != [] && ts != [] && WalkOrder(fs, ts, cs) == 0
    requires !Replaced(fs[0].value, ts[0].value)
    ensures Reached(WalkRun(owner, d, fs, ts, cs), Goal(d, fs, ts, cs), cs)
            <==> WalkLosesNothing(owner, fs, ts, right, cs)
    decreases owner, 0, |fs| + |ts|, 0
  {
    hide Norm, Norms, Cmp, AbsMembers, WalkRun, Apply, ApplyAll, Diff, ToPatch, ToPatches, Open, Sides, Mirrors;
    hide Reflects, Walked, Tail, Lists, Walkable, Vocabulary, LosesNothing, Replaced, Fits, Small, GetMember, Abs;
    hide WithKid, AfterDiff, Generate;
    WalkingParts(owner, d, fs, ts, right, keys, cs);
    SidesTail(owner, fs, ts, keys, cs);
    ListsTail(owner, fs, ts, keys, cs);
    var f, t, i := fs[0].value, ts[0].value, FindKey(d.members, fs[0].key, cs);
    MirrorsFirst(owner, d, fs, ts, keys, cs);
    WalkRunUnfolds(owner, d, fs, ts, cs);
    NestedStep(d, fs[0], t, keys, cs);
    SourceClaim(f, t, keys, cs);
    var below := ApplyAll(AfterDiff(f, t, cs).0, Generate(f, t, cs), cs);
    if below.status == 0 {
      var w := WithKid(d, i, below.root);
      KidChanged(d, i, below.root, keys, cs);
      OpenObject(w, keys, cs);
      WalkBoth(AbsMembers(d.members, cs), fs, ts, cs);
      if Abs(below.root, cs) == Abs(t, cs) {
        MirrorsNext(owner, d, w, fs, ts, keys, cs);
        TailKept(d, w, fs);
        WalkClaim(owner, w, fs[1..], ts[1..], right, keys, cs);
      } else {
        ReplacedKey(owner, d, fs, ts, keys, cs);
        GoalHead(d, fs, ts, cs);
        ListsApart(owner, fs, ts, keys, cs);
        DoomedRun(owner, w, fs[1..], ts[1..], Norm(fs[0].key, cs), Goal(d, fs, ts, cs).fields, keys, cs);
      }
    }
  }

  lemma TailKept(d: Json, w: Json, fs: seq<Member<Json>>)
    requires d.Object? && w.Object? && fs != [] && |w.members| == |d.members|
    requires forall p | 0 <= p < |d.members| :: w.members[p].key == d.members[p].key
    ensures Tail(d, fs) ==> Tail(w, fs[1..])
  {
  }

  lemma GoalHead(d: Json, fs: seq<Member<Json>>, ts: seq<Member<Json>>, cs: bool)
    requires d.Object? && ts != []
    ensures var k, goal := Norm(ts[0].key, cs), Goal(d, fs, ts, cs).fields;
            k in goal && goal[k] == Abs(ts[0].value, cs)
  {
    hide Norm, Abs;
  }

  // ---------- arrays ----------

  /** A patch that aims at a child of the root. */
  lemma AtRoot(d: Json, t: Token, x: Json, keys: iset<Str>, cs: bool)
    requires Vocabulary(keys, cs) && TokenFits(t, keys)
    ensures PathText([t]) != ""
    ensures Detach(d, PathText([t]), cs)
            == match DetachChild(d, TokenText(t)) { case None => None case Some((rest, item)) => Some((rest, item)) }
    ensures Insert(d, PathText([t]), x, cs) == InsertChild(d, TokenText(t), x, cs)
  {
    hide PathText, DecodeInPlace, WithoutMember, AddedMember, Appendable, TokenText, TokenFits, Vocabulary;
    assert [] + [t] == [t];
    SplitPath([], t, keys, cs);
    EmptyPath();
    assert Get(d, "", cs) == Some([]);
  }

  lemma EmptyPath()
    ensures PathText([]) == ""
  {
  }

  lemma ElemRemoved(es: seq<Json>, i: nat, keys: iset<Str>, cs: bool)
    requires Vocabulary(keys, cs) && i < |es| && i < SIZE_MODULUS
    ensures Apply(Array(es), ToPatch(Edit(Remove, [Index(i)], None)), cs) == Outcome(0, Array(RemoveAt(es, i)))
  {
    hide Compose, Apply, PathText, Detach, Vocabulary, DecodeIndex;
    AtRoot(Array(es), Index(i), Null, keys, cs);
    RemoveIsDetach(Array(es), PathText([Index(i)]), cs);
    assert Dec(i) + "" == Dec(i);
    DecodeDec(i, "");
  }

  lemma ElemReplaced(es: seq<Json>, i: nat, x: Json, keys: iset<Str>, cs: bool)
    requires Vocabulary(keys, cs) && i < |es| && i < SIZE_MODULUS
    ensures Apply(Array(es), ToPatch(Edit(Replace, [Index(i)], Some(x))), cs) == Outcome(0, Array(es[i := Relinked(x)]))
  {
    hide Compose, Apply, PathText, Detach, Insert, Vocabulary, DecodeIndex, Relinked;
    var left, y := RemoveAt(es, i), Relinked(x);
    RelinkedTwice(x);
    AtRoot(Array(es), Index(i), y, keys, cs);
    AtRoot(Array(left), Index(i), y, keys, cs);
    ReplaceIsBoth(Array(es), PathText([Index(i)]), y, cs);
    assert Dec(i) + "" == Dec(i);
    DecodeDec(i, "");
    assert Dec(i)[0] in Dec(i);
    assert left[..i] + [y] + left[i..] == es[i := y];
  }

  lemma ElemAdded(es: seq<Json>, x: Json, keys: iset<Str>, cs: bool)
    requires Vocabulary(keys, cs)
    ensures Apply(Array(es), ToPatch(Edit(Add, [End], Some(x))), cs) == Outcome(0, Array(es + [Relinked(x)]))
  {
    hide Compose, Apply, PathText, Insert, Vocabulary, Relinked;
    RelinkedTwice(x);
    AtRoot(Array(es), End, Relinked(x), keys, cs);
    AddIsInsert(Array(es), PathText([End]), Relinked(x), cs);
  }

  /** After a prefix of an array has been dealt with: it stays, and the rest becomes that of `to` exactly when
      nothing is lost in it. */
  ghost predicate ElemsReached(done: seq<Json>, r: Outcome, goal: seq<Val>, cs: bool) {
    r.status == 0 && r.root.Array? && |done| <= |r.root.elems| && AbsElems(r.root.elems[|done|..], cs) == goal
  }

  ghost predicate Keeps(done: seq<Json>, r: Outcome) {
    r.status == 0 ==> r.root.Array? && |done| <= |r.root.elems| && r.root.elems[..|done|] == done
  }

  ghost function ElemsRun(d: Json, fs: seq<Json>, ts: seq<Json>, index: nat, cs: bool): Outcome {
    ApplyAll(d, ToPatches(DiffElems([], fs, ts, index, cs)), cs)
  }

  lemma ElemsUnfold(d: Json, fs: seq<Json>, ts: seq<Json>, index: nat, cs: bool)
    requires fs != [] ==> index <= ULONG_MAX
    ensures fs == [] && ts == [] ==> ElemsRun(d, fs, ts, index, cs) == Outcome(0, d)
    ensures fs != [] && ts != [] ==>
              var r := ApplyAll(d, ToPatches(Diff([Index(index)], fs[0], ts[0], cs)), cs);
              ElemsRun(d, fs, ts, index, cs)
              == if r.status != 0 then r else ElemsRun(r.root, fs[1..], ts[1..], index + 1, cs)
    ensures fs != [] && ts == [] ==>
              var r := Apply(d, ToPatch(Edit(Remove, [Index(index)], None)), cs);
              ElemsRun(d, fs, ts, index, cs) == if r.status != 0 then r else ElemsRun(r.root, fs[1..], ts, index, cs)
    ensures fs == [] && ts != [] ==>
              var r := Apply(d, ToPatch(Edit(Add, [End], Some(ts[0]))), cs);
              ElemsRun(d, fs, ts, index, cs)
              == if r.status != 0 then r else ElemsRun(r.root, fs, ts[1..], index + 1, cs)
  {
    hide Apply, ApplyAll, ToPatch, ToPatches, Diff;
    assert [] + [Index(index)] == [Index(index)] && [] + [End] == [End];
    if fs != [] && ts != [] {
      RunInParts(d, Diff([Index(index)], fs[0], ts[0], cs), DiffElems([], fs[1..], ts[1..], index + 1, cs), cs);
    } else if fs != [] {
      var e := Edit(Remove, [Index(index)], None);
      RunInParts(d, [e], DiffElems([], fs[1..], ts, index, cs), cs);
      OneRun(d, e, cs);
    } else if ts != [] {
      var e := Edit(Add, [End], Some(ts[0]));
      RunInParts(d, [e], DiffElems([], fs, ts[1..], index + 1, cs), cs);
      OneRun(d, e, cs);
    } else {
      NothingRun(d, index, cs);
    }
  }

  lemma NothingRun(d: Json, index: nat, cs: bool)
    ensures ElemsRun(d, [], [], index, cs) == Outcome(0, d)
  {
  }

  /** What the edits of one element make of it. */
  lemma {:induction false} ElemEdited(es: seq<Json>, i: nat, f: Json, t: Json, keys: iset<Str>, cs: bool)
    requires Vocabulary(keys, cs) && Fits(f, keys, cs) && Fits(t, keys, cs) && Small(f)
    requires i < |es| && i <= ULONG_MAX && es[i] == AfterDiff(f, t, cs).0
    ensures var r := ApplyAll(Array(es), ToPatches(Diff([Index(i)], f, t, cs)), cs);
            (r.status == 0 ==> r.root.Array? && |r.root.elems| == |es| && r.root.elems == es[i := r.root.elems[i]])
            && (r.status == 0 && Abs(r.root.elems[i], cs) == Abs(t, cs) <==> LosesNothing(f, t, cs))
    decreases f, 2
  {
    hide Apply, ApplyAll, Diff, ToPatch, ToPatches, Vocabulary, Fits, Small, AfterDiff, Abs, Relinked;
    assert [Index(i)] + [] == [Index(i)];
    DiffBelow(Index(i), [], f, t, cs);
    DiffAtRoot(f, t, cs);
    if Replaced(f, t) {
      BelowOne(Index(i), Edit(Replace, [], Some(t)));
      OneRun(Array(es), Edit(Replace, [Index(i)], Some(t)), cs);
      ElemReplaced(es, i, t, keys, cs);
      RelinkedMeans(t, cs);
    } else {
      ApplyAllBelow(Array(es), Index(i), i, Diff([], f, t, cs), cs);
      SourceClaim(f, t, keys, cs);
      var below := ApplyAll(es[i], Generate(f, t, cs), cs);
      assert WithKid(Array(es), i, below.root) == Array(es[i := below.root]);
    }
  }

  lemma {:induction false} ElemsClaim(done: seq<Json>, fs: seq<Json>, ts: seq<Json>, keys: iset<Str>, cs: bool)
    requires Vocabulary(keys, cs) && (forall f | f in fs :: Fits(f, keys, cs) && Small(f))
             && forall t | t in ts :: Fits(t, keys, cs)
    requires fs != [] ==> |done| + |fs| <= ULONG_MAX + 1
    ensures var d := Array(done + AfterDiffElems(fs, ts, |done|, cs).0);
            var r := ElemsRun(d, fs, ts, |done|, cs);
            Keeps(done, r) && (ElemsReached(done, r, AbsElems(ts, cs), cs) <==> ElemsLoseNothing(fs, ts, cs))
    decreases fs, |ts|, 1
  {
    hide Apply, ApplyAll, Diff, ToPatch, ToPatches, Vocabulary, Fits, Small, AfterDiff, Abs, Relinked, ElemsRun;
    hide LosesNothing;
    var after := AfterDiffElems(fs, ts, |done|, cs).0;
    var es := done + after;
    ElemsUnfold(Array(es), fs, ts, |done|, cs);
    if fs != [] && ts != [] {
      PairClaim(done, fs, ts, keys, cs);
    } else if fs != [] {
      ElemRemoved(es, |done|, keys, cs);
      assert RemoveAt(es, |done|) == done + fs[1..];
      ElemsClaim(done, fs[1..], ts, keys, cs);
    } else if ts != [] {
      ElemAdded(es, ts[0], keys, cs);
      assert es == done;
      var more := done + [Relinked(ts[0])];
      assert more + [] == more;
      ElemsClaim(more, [], ts[1..], keys, cs);
      RelinkedMeans(ts[0], cs);
      OneMore(done, Relinked(ts[0]), ElemsRun(Array(more), [], ts[1..], |more|, cs), ts, cs);
    } else {
      assert es == done && done[|done|..] == [];
    }
  }

  /** A finished element more. */
  lemma OneMore(done: seq<Json>, x: Json, r: Outcome, ts: seq<Json>, cs: bool)
    requires ts != [] && Keeps(done + [x], r)
    ensures Keeps(done, r)
    ensures ElemsReached(done, r, AbsElems(ts, cs), cs)
            <==> ElemsReached(done + [x], r, AbsElems(ts[1..], cs), cs) && Abs(x, cs) == Abs(ts[0], cs)
  {
    hide Abs;
    if r.status == 0 {
      var all := r.root.elems;
      var rest, more := all[|done|..], all[|done| + 1..];
      assert all[..|done|] == all[..|done| + 1][..|done|] == done;
      assert all[|done|] == all[..|done| + 1][|done|] == x;
      assert rest == [x] + more;
      var vs, ws := AbsElems(rest, cs), AbsElems(ts, cs);
      assert rest[1..] == more;
      assert vs == [Abs(x, cs)] + AbsElems(more, cs) && ws == [Abs(ts[0], cs)] + AbsElems(ts[1..], cs);
      assert vs == ws ==> vs[0] == ws[0] && vs[1..] == ws[1..];
    }
  }

  lemma {:induction false} PairClaim(done: seq<Json>, fs: seq<Json>, ts: seq<Json>, keys: iset<Str>, cs: bool)
    requires Vocabulary(keys, cs) && (forall f | f in fs :: Fits(f, keys, cs) && Small(f))
             && forall t | t in ts :: Fits(t, keys, cs)
    requires fs != [] && ts != [] && |done| + |fs| <= ULONG_MAX + 1
    ensures var d := Array(done + AfterDiffElems(fs, ts, |done|, cs).0);
            var r := ElemsRun(d, fs, ts, |done|, cs);
            Keeps(done, r) && (ElemsReached(done, r, AbsElems(ts, cs), cs) <==> ElemsLoseNothing(fs, ts, cs))
    decreases fs, |ts|, 0
  {
    hide Apply, ApplyAll, Diff, ToPatch, ToPatches, Vocabulary, Fits, Small, AfterDiff, Abs, Relinked, ElemsRun;
    hide LosesNothing, Keeps, ElemsReached, AfterDiffElems;
    var index := |done|;
    var after, rest := AfterDiffElems(fs, ts, index, cs).0, AfterDiffElems(fs[1..], ts[1..], index + 1, cs).0;
    PairLeaves(fs, ts, index, cs);
    var es := done + after;
    assert fs[0] in fs && ts[0] in ts;
    ElemsUnfold(Array(es), fs, ts, index, cs);
    ElemEdited(es, index, fs[0], ts[0], keys, cs);
    var r := ApplyAll(Array(es), ToPatches(Diff([Index(index)], fs[0], ts[0], cs)), cs);
    if r.status == 0 {
      var x := r.root.elems[index];
      var more := done + [x];
      assert r.root.elems == more + rest;
      ElemsClaim(more, fs[1..], ts[1..], keys, cs);
      OneMore(done, x, ElemsRun(Array(more + rest), fs[1..], ts[1..], index + 1, cs), ts, cs);
    } else {
      Failed(done, r, AbsElems(ts, cs), cs);
    }
  }

  lemma Failed(done: seq<Json>, r: Outcome, goal: seq<Val>, cs: bool)
    requires r.status != 0
    ensures Keeps(done, r) && !ElemsReached(done, r, goal, cs)
  {
  }

  lemma PairLeaves(fs: seq<Json>, ts: seq<Json>, index: nat, cs: bool)
    requires fs != [] && ts != [] && index <= ULONG_MAX
    ensures AfterDiffElems(fs, ts, index, cs).0
            == [AfterDiff(fs[0], ts[0], cs).0] + AfterDiffElems(fs[1..], ts[1..], index + 1, cs).0
  {
    hide AfterDiff;
  }

  // ---------- the theorem ----------

  lemma SourceClaim(from: Json, to: Json, keys: iset<Str>, cs: bool)
    requires Vocabulary(keys, cs) && Fits(from, keys, cs) && Fits(to, keys, cs) && Small(from)
    ensures Reached(ApplyAll(AfterDiff(from, to, cs).0, Generate(from, to, cs), cs), Abs(to, cs), cs)
            <==> LosesNothing(from, to, cs)
    decreases from, 1
  {
    if Replaced(from, to) {
      WholeReplaced(from, to, cs);
    } else {
      match from
      case Array(es) => ArrayClaim(from, to, keys, cs);
      case Object(_, _) => ObjectClaim(from, to, keys, cs);
      case _ =>
    }
  }

  lemma WholeReplaced(from: Json, to: Json, cs: bool)
    requires Replaced(from, to)
    ensures Reached(ApplyAll(AfterDiff(from, to, cs).0, Generate(from, to, cs), cs), Abs(to, cs), cs)
  {
    hide Apply, Diff, ToPatch, ToPatches, Replaced, Relinked, AfterDiff;
    var e, d := Edit(Replace, [], Some(to)), AfterDiff(from, to, cs).0;
    DiffAtRoot(from, to, cs);
    OneRun(d, e, cs);
    EmptyPath();
    ReplaceIsBoth(d, "", Relinked(to), cs);
    assert ToPatch(e) == Compose("replace", "", Some(Relinked(to))) by { WholeValue(to); }
    RelinkedTwice(to);
    RelinkedMeans(to, cs);
  }

  lemma WholeValue(to: Json)
    ensures ToPatch(Edit(Replace, [], Some(to))) == Compose("replace", "", Some(Relinked(to)))
  {
  }

  lemma {:induction false} ArrayClaim(from: Json, to: Json, keys: iset<Str>, cs: bool)
    requires Vocabulary(keys, cs) && Fits(from, keys, cs) && Fits(to, keys, cs) && Small(from)
    requires from.Array? && to.Array?
    ensures Reached(ApplyAll(AfterDiff(from, to, cs).0, Generate(from, to, cs), cs), Abs(to, cs), cs)
            <==> LosesNothing(from, to, cs)
    decreases from, 0
  {
    hide Apply, ToPatch, ToPatches, DiffElems, AfterDiffElems, ElemsLoseNothing, Vocabulary;
    var fs, ts := from.elems, to.elems;
    ElemsClaim([], fs, ts, keys, cs);
    var after := AfterDiffElems(fs, ts, 0, cs).0;
    assert [] + after == after;
    var r := ElemsRun(Array(after), fs, ts, 0, cs);
    if r.status == 0 { assert r.root.elems[0..] == r.root.elems; }
  }

  lemma {:induction false} ObjectClaim(from: Json, to: Json, keys: iset<Str>, cs: bool)
    requires Vocabulary(keys, cs) && Fits(from, keys, cs) && Fits(to, keys, cs) && Small(from)
    requires from.Object? && to.Object?
    ensures Reached(ApplyAll(AfterDiff(from, to, cs).0, Generate(from, to, cs), cs), Abs(to, cs), cs)
            <==> LosesNothing(from, to, cs)
    decreases from, 0
  {
    hide Apply, ToPatch, ToPatches, DiffWalk, AfterDiffWalk, Vocabulary, Sort, Order, AbsMembers, Walking, Reflects;
    hide Walkable, WalkLosesNothing, Walked, Small, Fits, RightLink;
    SortCorrect(from.members, cs);
    SortCorrect(to.members, cs);
    var fs, ts := Sort(from.members, cs), Sort(to.members, cs);
    var d := AfterDiff(from, to, cs).0;
    WalkBegins(from, to, keys, cs);
    WalkClaim(from, d, fs, ts, RightLink(SortedObject(from, cs)), keys, cs);
  }

  /** The objects as create_patches leaves them start a walk over the whole of both. */
  lemma WalkBegins(from: Json, to: Json, keys: iset<Str>, cs: bool)
    requires Fits(from, keys, cs) && Fits(to, keys, cs) && Small(from) && from.Object? && to.Object?
    requires forall f | f in Sort(from.members, cs) :: f.value < from
    ensures var fs, ts, d := Sort(from.members, cs), Sort(to.members, cs), AfterDiff(from, to, cs).0;
            Walking(from, d, fs, ts, RightLink(SortedObject(from, cs)), keys, cs) && Goal(d, fs, ts, cs) == Abs(to, cs)
  {
    hide Sort, Order, AbsMembers, Norm, Cmp, AfterDiffWalk, Abs, Reordered, Mirrors, Reflects, Walked, Walkable;
    hide Source, Target;
    var fs, ts, d := Sort(from.members, cs), Sort(to.members, cs), AfterDiff(from, to, cs).0;
    FitsIsStandard(from, keys, cs);
    FitsIsStandard(to, keys, cs);
    assert Source(from, cs) && Target(to, cs) by { SourceAndTarget(from, to, cs); }
    ObjectWalks(from, to, cs);
    SidesBegin(from, to, keys, cs);
    AfterDiffReorders(from, to, cs);
    ReorderedMeans(from, d, keys, cs);
    ObjectAbs(from, cs);
    ObjectAbs(d, cs);
    var after := AfterDiffWalk(from, fs, ts, cs).0;
    WalkLeaves(from, fs, ts, keys, cs);
    MirrorsBegin(d, fs, ts, keys, cs);
  }

  lemma SourceAndTarget(from: Json, to: Json, cs: bool)
    requires Standard(from) && Unique(from, cs) && Small(from) && Standard(to) && Unique(to, cs)
    ensures Source(from, cs) && Target(to, cs)
  {
  }

  lemma SidesBegin(from: Json, to: Json, keys: iset<Str>, cs: bool)
    requires Fits(from, keys, cs) && Fits(to, keys, cs) && Small(from) && from.Object? && to.Object?
    requires var fs, ts := Sort(from.members, cs), Sort(to.members, cs);
             (forall f | f in fs :: f.value < from) && Walkable(fs, ts, cs)
    ensures Sides(from, Sort(from.members, cs), Sort(to.members, cs), keys, cs)
  {
    hide Sort, Norm, Cmp, Source, Target;
    SortCorrect(from.members, cs);
    SortCorrect(to.members, cs);
  }

  lemma MirrorsBegin(d: Json, fs: seq<Member<Json>>, ts: seq<Member<Json>>, keys: iset<Str>, cs: bool)
    requires d.Object? && Leaves(d.members, fs, ts, cs) && DistinctKeys(fs, cs) && forall f | f in fs :: f.key in keys
    requires forall i | 0 <= i < |fs| :: d.members[i].key == fs[i].key
    ensures Open(d, keys, cs) && Mirrors(d, fs, ts, cs) && Tail(d, fs)
  {
    hide Norm, Left;
    forall m | m in d.members ensures m.key in keys {
      var i :| 0 <= i < |d.members| && d.members[i] == m;
      assert fs[i] in fs;
    }
    forall i, k | 0 <= i < k < |d.members| ensures Norm(d.members[i].key, cs) != Norm(d.members[k].key, cs) {
      assert d.members[i].key == fs[i].key && d.members[k].key == fs[k].key;
    }
    forall i | 0 <= i < |fs| ensures GetMember(d, fs[i].key, cs) == Some(Left(fs[i], ts, cs)) {
      FoundAt(d.members, i, fs[i].key, cs);
    }
  }

  /** Patching the tree that the patches were generated from succeeds and leaves a tree that equals `to`, up to
      member order, exactly when no addition is lost. */
  lemma SourceReachesTarget(from: Json, to: Json, keys: iset<Str>, cs: bool)
    requires Vocabulary(keys, cs) && Fits(from, keys, cs) && Fits(to, keys, cs) && Small(from)
    ensures var r := ApplyAll(AfterDiff(from, to, cs).0, Generate(from, to, cs), cs);
            r.status == 0 && Abs(r.root, cs) == Abs(to, cs) <==> LosesNothing(from, to, cs)
  {
    hide ApplyAll, Generate, AfterDiff, LosesNothing;
    SourceClaim(from, to, keys, cs);
  }

  /** Every object of the tree keeps its first and its last member when it is sorted. */
  predicate Steady(j: Json, cs: bool)
    decreases j
  {
    match j
    case Array(es) => forall e | e in es :: Steady(e, cs)
    case Object(ms, _) => KeepsEnds(ms, cs) && forall m | m in ms :: Steady(m.value, cs)
    case _ => true
  }

  /** A tree in order that is steady in this sense is safe whatever the target. */
  lemma {:induction false} SteadyLosesNothing(from: Json, to: Json, cs: bool)
    requires Steady(from, cs) && WellLinked(from) && Unique(from, cs)
    ensures LosesNothing(from, to, cs)
    decreases from
  {
    if SameType(from, to) {
      match from
      case Array(es) => SteadyElems(es, to.elems, cs);
      case Object(ms, _) =>
        SteadyObject(from, to, cs);
      case _ =>
    }
  }

  lemma {:induction false} SteadyObject(from: Json, to: Json, cs: bool)
    requires Steady(from, cs) && WellLinked(from) && Unique(from, cs) && from.Object? && to.Object?
    ensures LosesNothing(from, to, cs)
    decreases from, 1
  {
    hide KeepsEnds, RightLink, Sort, Order, Sorted, StrictlyIncreasing, WalkLosesNothing;
    var ms := from.members;
    SortCorrect(ms, cs);
    assert from == Object(ms);
    LinkAfterSort(ms, cs);
    SteadyWalk(from, Sort(ms, cs), Sort(to.members, cs), cs);
  }

  lemma {:induction false} SteadyElems(fs: seq<Json>, ts: seq<Json>, cs: bool)
    requires forall f | f in fs :: Steady(f, cs) && WellLinked(f) && Unique(f, cs)
    ensures ElemsLoseNothing(fs, ts, cs)
    decreases fs
  {
    if fs != [] && ts != [] {
      assert fs[0] in fs;
      SteadyLosesNothing(fs[0], ts[0], cs);
      SteadyElems(fs[1..], ts[1..], cs);
    }
  }

  lemma {:induction false} SteadyWalk(owner: Json, fs: seq<Member<Json>>, ts: seq<Member<Json>>, cs: bool)
    requires forall f | f in fs :: f.value < owner && Steady(f.value, cs) && WellLinked(f.value) && Unique(f.value, cs)
    ensures WalkLosesNothing(owner, fs, ts, true, cs)
    decreases owner, 0, |fs| + |ts|
  {
    if fs != [] || ts != [] {
      hide Cmp, Replaced, Steady, WellLinked, Unique;
      if WalkOrder(fs, ts, cs) == 0 {
        assert fs[0] in fs;
        SteadyLosesNothing(fs[0].value, ts[0].value, cs);
        SteadyWalk(owner, fs[1..], ts[1..], cs);
      } else if WalkOrder(fs, ts, cs) < 0 {
        SteadyWalk(owner, fs[1..], ts, cs);
      } else {
        SteadyWalk(owner, fs, ts[1..], cs);
      }
    }
  }

  /** The other way round: two members in the wrong order and one to add behind them. Every patch applies to the
      tree they were generated from, and the new member is nowhere. */
  lemma AdditionToSourceIsLost(a: Str, b: Str, c: Str, cs: bool)
    requires Cmp(a, b, cs) < 0 && Cmp(b, c, cs) < 0 && Patching.Survives(c)
    ensures var f, g, h := Member(a, Null), Member(b, Null), Member(c, Null);
            var from, to := Object([g, f]), Object([g, f, h]);
            ApplyAll(AfterDiff(from, to, cs).0, Generate(from, to, cs), cs) == Outcome(0, Object([f, g], Missing))
  {
    hide Cmp, Norm, Apply, ToPatch, ToPatches, Diff, AfterDiff;
    var f, g, h := Member(a, Null), Member(b, Null), Member(c, Null);
    var d, e := Object([f, g], Missing), Edit(Add, [Key(c)], Some(Null));
    SourceOfTwo(f, g, h, cs);
    OneRun(d, e, cs);
    CmpTransitive(a, b, c, cs);
    CmpZero(a, c, cs);
    CmpZero(b, c, cs);
    AddToTwo(f, g, c, cs);
  }

  lemma AddToTwo(f: Member<Json>, g: Member<Json>, c: Str, cs: bool)
    requires Patching.Survives(c) && Norm(c, cs) != Norm(f.key, cs) && Norm(c, cs) != Norm(g.key, cs)
    ensures var d := Object([f, g], Missing);
            Apply(d, ToPatch(Edit(Add, [Key(c)], Some(Null))), cs) == Outcome(0, d)
  {
    hide Norm, Apply, PathText, WithoutMember, Patching.Survives;
    var d := Object([f, g], Missing);
    AddAtRoot(d, c, Null, cs);
    WithoutNew(d, c, cs);
  }

  /** What create_patches makes of {g, f} and {g, f, h}. */
  lemma SourceOfTwo(f: Member<Json>, g: Member<Json>, h: Member<Json>, cs: bool)
    requires f.value == Null && g.value == Null
    requires Cmp(f.key, g.key, cs) < 0 && Cmp(g.key, h.key, cs) < 0
    ensures var from, to := Object([g, f]), Object([g, f, h]);
            AfterDiff(from, to, cs).0 == Object([f, g], Missing)
            && Diff([], from, to, cs) == [Edit(Add, [Key(h.key)], Some(h.value))]
  {
    hide Cmp, Norm, Sort, Order, DiffWalk, AfterDiffWalk;
    var from := Object([g, f]);
    CmpFlip(f.key, g.key, cs);
    CmpZero(f.key, g.key, cs);
    SortTwo(g, f, cs);
    SortSwapped(f, g, h, cs);
    SortCorrect(from.members, cs);
    LinkAfterSort(from.members, cs);
    assert f in from.members && g in from.members;
    OneNew(from, f, g, h, cs);
  }

  lemma OneNew(owner: Json, f: Member<Json>, g: Member<Json>, h: Member<Json>, cs: bool)
    requires f.value == Null && g.value == Null && f.value < owner && g.value < owner
    ensures DiffWalk(owner, [], [f, g], [f, g, h], cs) == [Edit(Add, [Key(h.key)], Some(h.value))]
    ensures AfterDiffWalk(owner, [f, g], [f, g, h], cs).0 == [f, g]
  {
    hide Cmp;
    CmpZero(f.key, f.key, cs);
    CmpZero(g.key, g.key, cs);
    var e := Edit(Add, [] + [Key(h.key)], Some(h.value));
    assert [] + [Key(h.key)] == [Key(h.key)];
    assert [f, g][1..] == [g] && [g][1..] == [] && [f, g, h][1..] == [g, h] && [g, h][1..] == [h] && [h][1..] == [];
    assert DiffWalk(owner, [], [], [h], cs) == [e] + DiffWalk(owner, [], [], [], cs);
    assert DiffWalk(owner, [], [g], [g, h], cs) == [] + DiffWalk(owner, [], [], [h], cs);
    assert DiffWalk(owner, [], [f, g], [f, g, h], cs) == [] + DiffWalk(owner, [], [g], [g, h], cs);
    assert AfterDiffWalk(owner, [], [h], cs).0 == [];
    assert AfterDiffWalk(owner, [g], [g, h], cs).0 == [g] + AfterDiffWalk(owner, [], [h], cs).0;
    assert AfterDiffWalk(owner, [f, g], [f, g, h], cs).0 == [f] + AfterDiffWalk(owner, [g], [g, h], cs).0;
  }
}
