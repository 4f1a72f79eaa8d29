/** Which objects have their members in key order after two trees were compared or walked for patches. */
module KeyOrders {
  import opened CStrings
  import opened JsonTrees
  import opened SiblingLinks
  import opened Sorting
  import opened Comparing
  import opened Edits
  import opened Diffing

  /** Every object of the tree has its members in key order. */
  predicate AllSorted(j: Json, cs: bool)
    decreases j
  {
    match j
    case Array(es) => forall e | e in es :: AllSorted(e, cs)
    case Object(ms, _) => Sorted(ms, cs) && forall m | m in ms :: AllSorted(m.value, cs)
    case _ => true
  }

  /** Two trees that compare_json found equal are in key order all the way down. */
  lemma {:induction false} EqualTreesAreSorted(a: Json, b: Json, cs: bool)
    requires SameSorted(a, b, cs)
    ensures AllSorted(AfterCompare(a, b, cs).0, cs) && AllSorted(AfterCompare(a, b, cs).1, cs)
    decreases a
  {
    match a {
      case Array(es) =>
        EqualElemsAreSorted(es, b.elems, cs);
      case Object(ms, _) =>
        SortCorrect(ms, cs);
        EqualWalkIsSorted(a, Sort(ms, cs), Sort(b.members, cs), cs);
        var (xs, ys) := AfterWalk(a, Sort(ms, cs), Sort(b.members, cs), cs);
        SortSorts(b.members, cs);
        SortedKeys(Sort(ms, cs), xs, cs);
        SortedKeys(Sort(b.members, cs), ys, cs);
      case _ =>
    }
  }

  lemma SortedKeys(xs: seq<Member<Json>>, ys: seq<Member<Json>>, cs: bool)
    requires Sorted(xs, cs) && |xs| == |ys| && forall i | 0 <= i < |xs| :: ys[i].key == xs[i].key
    ensures Sorted(ys, cs)
  {
    hide Cmp;
  }

  lemma {:induction false} EqualElemsAreSorted(xs: seq<Json>, ys: seq<Json>, cs: bool)
    requires SameElems(xs, ys, cs)
    ensures var (us, vs) := AfterElems(xs, ys, cs);
            (forall e | e in us :: AllSorted(e, cs)) && forall e | e in vs :: AllSorted(e, cs)
    decreases xs
  {
    if xs != [] {
      hide AfterCompare, AllSorted, SameSorted;
      EqualTreesAreSorted(xs[0], ys[0], cs);
      EqualElemsAreSorted(xs[1..], ys[1..], cs);
    }
  }

  lemma {:induction false} EqualWalkIsSorted(owner: Json, xs: seq<Member<Json>>, ys: seq<Member<Json>>, cs: bool)
    requires (forall m | m in xs :: m.value < owner) && SameWalk(owner, xs, ys, cs)
    ensures var (us, vs) := AfterWalk(owner, xs, ys, cs);
            (forall m | m in us :: AllSorted(m.value, cs)) && forall m | m in vs :: AllSorted(m.value, cs)
    decreases owner, |xs|
  {
    if xs != [] {
      hide AfterCompare, AllSorted, SameSorted, Cmp;
      assert xs[0] in xs;
      EqualTreesAreSorted(xs[0].value, ys[0].value, cs);
      EqualWalkIsSorted(owner, xs[1..], ys[1..], cs);
    }
  }

  /** Elements are compared with their partners while all in front of them are equal. */
  lemma {:induction false} ElementCompared(xs: seq<Json>, ys: seq<Json>, k: nat, cs: bool)
    requires k < |xs| && k < |ys| && forall i | 0 <= i < k :: SameSorted(xs[i], ys[i], cs)
    ensures var (us, vs) := AfterElems(xs, ys, cs); (us[k], vs[k]) == AfterCompare(xs[k], ys[k], cs)
    decreases k
  {
    hide AfterCompare, SameSorted;
    if k > 0 {
      forall i | 0 <= i < k - 1 ensures SameSorted(xs[1..][i], ys[1..][i], cs) {
        assert SameSorted(xs[i + 1], ys[i + 1], cs);
      }
      ElementCompared(xs[1..], ys[1..], k - 1, cs);
    }
  }

  /** Comparing two arrays stops at the first elements that differ: those behind them are as they were. */
  lemma {:induction false} ElementsBehindStay(xs: seq<Json>, ys: seq<Json>, k: nat, cs: bool)
    requires k < |xs| && k < |ys| && !SameSorted(xs[k], ys[k], cs)
    ensures var (us, vs) := AfterElems(xs, ys, cs); us[k + 1..] == xs[k + 1..] && vs[k + 1..] == ys[k + 1..]
    decreases k
  {
    hide AfterCompare, SameSorted;
    var (us, vs) := AfterElems(xs, ys, cs);
    assert us[1..][k..] == us[k + 1..] && vs[1..][k..] == vs[k + 1..];
    assert xs[1..][k..] == xs[k + 1..] && ys[1..][k..] == ys[k + 1..];
    if k > 0 && SameSorted(xs[0], ys[0], cs) { ElementsBehindStay(xs[1..], ys[1..], k - 1, cs); }
  }

  /** Members of two sorted objects are compared with their partners while all in front of them have the same keys and
      equal values. */
  lemma {:induction false} MemberCompared(owner: Json, xs: seq<Member<Json>>, ys: seq<Member<Json>>, k: nat, cs: bool)
    requires (forall m | m in xs :: m.value < owner) && k < |xs| && k < |ys| && Cmp(xs[k].key, ys[k].key, cs) == 0
    requires forall i | 0 <= i < k :: Cmp(xs[i].key, ys[i].key, cs) == 0 && SameSorted(xs[i].value, ys[i].value, cs)
    ensures var (us, vs) := AfterWalk(owner, xs, ys, cs);
            (us[k].value, vs[k].value) == AfterCompare(xs[k].value, ys[k].value, cs)
    decreases k
  {
    hide AfterCompare, SameSorted, Cmp;
    if k > 0 {
      forall i | 0 <= i < k - 1
        ensures Cmp(xs[1..][i].key, ys[1..][i].key, cs) == 0 && SameSorted(xs[1..][i].value, ys[1..][i].value, cs)
      {
        assert Cmp(xs[i + 1].key, ys[i + 1].key, cs) == 0;
      }
      MemberCompared(owner, xs[1..], ys[1..], k - 1, cs);
    }
  }

  /** Comparing two sorted objects stops at the first values that differ. */
  lemma {:induction false} MembersBehindStay(owner: Json, xs: seq<Member<Json>>, ys: seq<Member<Json>>, k: nat, cs: bool)
    requires (forall m | m in xs :: m.value < owner) && k < |xs| && k < |ys|
    requires !SameSorted(xs[k].value, ys[k].value, cs)
    ensures var (us, vs) := AfterWalk(owner, xs, ys, cs); us[k + 1..] == xs[k + 1..] && vs[k + 1..] == ys[k + 1..]
    decreases k
  {
    hide AfterCompare, SameSorted, Cmp;
    var (us, vs) := AfterWalk(owner, xs, ys, cs);
    assert us[1..][k..] == us[k + 1..] && vs[1..][k..] == vs[k + 1..];
    assert xs[1..][k..] == xs[k + 1..] && ys[1..][k..] == ys[k + 1..];
    if k > 0 { MembersBehindStay(owner, xs[1..], ys[1..], k - 1, cs); }
  }

  /** And in front of the first keys that differ. */
  lemma {:induction false} OtherKeysStay(owner: Json, xs: seq<Member<Json>>, ys: seq<Member<Json>>, k: nat, cs: bool)
    requires (forall m | m in xs :: m.value < owner) && k < |xs| && k < |ys|
    requires Cmp(xs[k].key, ys[k].key, cs) != 0
    ensures var (us, vs) := AfterWalk(owner, xs, ys, cs); us[k..] == xs[k..] && vs[k..] == ys[k..]
    decreases k
  {
    hide AfterCompare, SameSorted, Cmp;
    if k > 0 {
      var (us, vs) := AfterWalk(owner, xs, ys, cs);
      assert us[1..][k - 1..] == us[k..] && vs[1..][k - 1..] == vs[k..];
      assert xs[1..][k - 1..] == xs[k..] && ys[1..][k - 1..] == ys[k..];
      OtherKeysStay(owner, xs[1..], ys[1..], k - 1, cs);
    }
  }

  /** x and y are what becomes of a and b: objects that stand at the same place of both trees are sorted, and what is in
      one tree alone is as it was. */
  ghost predicate SharedSorted(a: Json, b: Json, x: Json, y: Json, cs: bool)
    decreases a, 1
  {
    match (a, b)
    case (Array(es), Array(fs)) =>
      x.Array? && y.Array? && |x.elems| == |es| && |y.elems| == |fs|
      && (forall i | 0 <= i < |es| && i < |fs| :: SharedSorted(es[i], fs[i], x.elems[i], y.elems[i], cs))
      && (forall i | |fs| <= i < |es| :: x.elems[i] == es[i]) && forall i | |es| <= i < |fs| :: y.elems[i] == fs[i]
    case (Object(ms, _), Object(ns, _)) =>
      x.Object? && y.Object? && SharedMembers(a, Sort(ms, cs), Sort(ns, cs), x.members, y.members, cs)
    case _ => x == a && y == b
  }

  ghost predicate SharedMembers(owner: Json, fs: seq<Member<Json>>, ts: seq<Member<Json>>, us: seq<Member<Json>>,
                                vs: seq<Member<Json>>, cs: bool)
    decreases owner, 0
  {
    |us| == |fs| && |vs| == |ts| && (forall i | 0 <= i < |fs| :: us[i].key == fs[i].key && fs[i].value < owner)
    && (forall k | 0 <= k < |ts| :: vs[k].key == ts[k].key)
    && (forall i, k | 0 <= i < |fs| && 0 <= k < |ts| && Cmp(fs[i].key, ts[k].key, cs) == 0 ::
          SharedSorted(fs[i].value, ts[k].value, us[i].value, vs[k].value, cs))
    && (forall i | 0 <= i < |fs| && Absent(fs[i].key, ts, cs) :: us[i] == fs[i])
    && forall k | 0 <= k < |ts| && Absent(ts[k].key, fs, cs) :: vs[k] == ts[k]
  }

  predicate Absent(key: Str, ms: seq<Member<Json>>, cs: bool) {
    forall i | 0 <= i < |ms| :: Cmp(key, ms[i].key, cs) != 0
  }

  /** create_patches sorts exactly the objects that it walks. */
  lemma {:induction false} PatchingSortsShared(a: Json, b: Json, cs: bool)
    requires Source(a, cs) && Target(b, cs)
    ensures SharedSorted(a, b, AfterDiff(a, b, cs).0, AfterDiff(a, b, cs).1, cs)
    decreases a, 1
  {
    match (a, b) {
      case (Array(es), Array(fs)) => ElemsSharedSorted(es, fs, 0, cs);
      case (Object(ms, _), Object(ns, _)) =>
        ObjectWalks(a, b, cs);
        WalkSharedSorted(a, Sort(ms, cs), Sort(ns, cs), cs);
      case _ =>
    }
  }

  lemma {:induction false} ElemsSharedSorted(es: seq<Json>, fs: seq<Json>, index: nat, cs: bool)
    requires (forall e | e in es :: Source(e, cs)) && forall e | e in fs :: Target(e, cs)
    requires index + |es| <= Pointers.ULONG_MAX + 1
    ensures var (us, vs) := AfterDiffElems(es, fs, index, cs);
            (forall i | 0 <= i < |es| && i < |fs| :: SharedSorted(es[i], fs[i], us[i], vs[i], cs))
            && (forall i | |fs| <= i < |es| :: us[i] == es[i]) && forall i | |es| <= i < |fs| :: vs[i] == fs[i]
    decreases es
  {
    hide SharedSorted, AfterDiff, Source, Target;
    if es != [] && fs != [] {
      PatchingSortsShared(es[0], fs[0], cs);
      ElemsSharedSorted(es[1..], fs[1..], index + 1, cs);
    }
  }

  lemma {:induction false} WalkSharedSorted(owner: Json, fs: seq<Member<Json>>, ts: seq<Member<Json>>, cs: bool)
    requires (forall m | m in fs :: m.value < owner) && Walkable(fs, ts, cs)
    ensures var (us, vs) := AfterDiffWalk(owner, fs, ts, cs); SharedMembers(owner, fs, ts, us, vs, cs)
    decreases owner, 0, |fs| + |ts|
  {
    hide SharedSorted, SharedMembers, AfterDiff, AfterDiffWalk, Walkable, Cmp, Apart;
    if fs == [] && ts == [] {
      NothingShared(owner, cs);
    } else {
      AfterWalkUnfold(owner, fs, ts, cs);
      WalkableTail(fs, ts, cs);
      WalkHeads(fs, ts, cs);
      var diff := WalkOrder(fs, ts, cs);
      if diff == 0 {
        assert fs[0] in fs;
        var (x, y) := AfterDiff(fs[0].value, ts[0].value, cs);
        var (us, vs) := AfterDiffWalk(owner, fs[1..], ts[1..], cs);
        PatchingSortsShared(fs[0].value, ts[0].value, cs);
        WalkSharedSorted(owner, fs[1..], ts[1..], cs);
        SharedBoth(owner, fs, ts, x, y, us, vs, cs);
      } else if diff < 0 {
        var (us, vs) := AfterDiffWalk(owner, fs[1..], ts, cs);
        WalkSharedSorted(owner, fs[1..], ts, cs);
        SharedFrom(owner, fs, ts, us, vs, cs);
      } else {
        var (us, vs) := AfterDiffWalk(owner, fs, ts[1..], cs);
        WalkSharedSorted(owner, fs, ts[1..], cs);
        SharedTo(owner, fs, ts, us, vs, cs);
      }
    }
  }

  lemma NothingShared(owner: Json, cs: bool)
    ensures AfterDiffWalk(owner, [], [], cs) == ([], []) && SharedMembers(owner, [], [], [], [], cs)
  {
  }

  /** No member has this key, compared either way. */
  predicate Apart(key: Str, ms: seq<Member<Json>>, cs: bool) {
    forall i | 0 <= i < |ms| :: Cmp(key, ms[i].key, cs) != 0 && Cmp(ms[i].key, key, cs) != 0
  }

  /** A key that is not above the first of sorted members with distinct keys is below all others. */
  lemma HeadIsBelow(ms: seq<Member<Json>>, key: Str, cs: bool)
    requires ms != [] && Sorted(ms, cs) && DistinctKeys(ms, cs) && Cmp(key, ms[0].key, cs) <= 0
    ensures Apart(key, ms[1..], cs) && (Cmp(key, ms[0].key, cs) < 0 ==> Apart(key, ms, cs))
  {
    hide Cmp;
    forall i | 1 <= i < |ms| ensures Cmp(key, ms[i].key, cs) != 0 && Cmp(ms[i].key, key, cs) != 0 {
      CmpZero(ms[0].key, ms[i].key, cs);
      CmpTransitive(key, ms[0].key, ms[i].key, cs);
      CmpFlip(key, ms[i].key, cs);
    }
    CmpFlip(key, ms[0].key, cs);
  }

  lemma WalkHeads(fs: seq<Member<Json>>, ts: seq<Member<Json>>, cs: bool)
    requires Walkable(fs, ts, cs) && (fs != [] || ts != [])
    ensures var diff := WalkOrder(fs, ts, cs);
            if diff == 0 then
              Cmp(fs[0].key, ts[0].key, cs) == 0 && Cmp(ts[0].key, fs[0].key, cs) == 0
              && Apart(fs[0].key, ts[1..], cs) && Apart(ts[0].key, fs[1..], cs)
            else if diff < 0 then Apart(fs[0].key, ts, cs)
            else Apart(ts[0].key, fs, cs)
  {
    hide Cmp, Source, Target, Sorted, DistinctKeys;
    if fs != [] && ts != [] {
      CmpFlip(fs[0].key, ts[0].key, cs);
      CmpFlip(ts[0].key, fs[0].key, cs);
      if Cmp(fs[0].key, ts[0].key, cs) <= 0 { HeadIsBelow(ts, fs[0].key, cs); }
      if Cmp(ts[0].key, fs[0].key, cs) <= 0 { HeadIsBelow(fs, ts[0].key, cs); }
    }
  }

  lemma SharedBoth(owner: Json, fs: seq<Member<Json>>, ts: seq<Member<Json>>, x: Json, y: Json, us: seq<Member<Json>>,
                   vs: seq<Member<Json>>, cs: bool)
    requires fs != [] && ts != [] && Cmp(fs[0].key, ts[0].key, cs) == 0 && Cmp(ts[0].key, fs[0].key, cs) == 0
    requires Apart(fs[0].key, ts[1..], cs) && Apart(ts[0].key, fs[1..], cs)
    requires fs[0].value < owner && SharedSorted(fs[0].value, ts[0].value, x, y, cs)
    requires SharedMembers(owner, fs[1..], ts[1..], us, vs, cs)
    ensures SharedMembers(owner, fs, ts, [Member(fs[0].key, x)] + us, [Member(ts[0].key, y)] + vs, cs)
  {
    hide SharedSorted, Cmp, Absent;
    var ps, qs := [Member(fs[0].key, x)] + us, [Member(ts[0].key, y)] + vs;
    SharedPairs(fs, ts, x, y, us, vs, cs);
    AbsentKept(fs, ts, ps[0], us, cs);
    AbsentKept(ts, fs, qs[0], vs, cs);
  }

  lemma SharedPairs(fs: seq<Member<Json>>, ts: seq<Member<Json>>, x: Json, y: Json, us: seq<Member<Json>>,
                    vs: seq<Member<Json>>, cs: bool)
    requires fs != [] && ts != [] && SharedSorted(fs[0].value, ts[0].value, x, y, cs)
    requires Apart(fs[0].key, ts[1..], cs) && Apart(ts[0].key, fs[1..], cs) && |us| == |fs| - 1 && |vs| == |ts| - 1
    requires forall i, k | 0 <= i < |us| && 0 <= k < |vs| && Cmp(fs[1..][i].key, ts[1..][k].key, cs) == 0 ::
               SharedSorted(fs[1..][i].value, ts[1..][k].value, us[i].value, vs[k].value, cs)
    ensures forall i, k | 0 <= i < |fs| && 0 <= k < |ts| && Cmp(fs[i].key, ts[k].key, cs) == 0 ::
              SharedSorted(fs[i].value, ts[k].value, ([Member(fs[0].key, x)] + us)[i].value,
                           ([Member(ts[0].key, y)] + vs)[k].value, cs)
  {
    hide SharedSorted, Cmp;
    forall i, k | 0 <= i < |fs| && 0 <= k < |ts| && Cmp(fs[i].key, ts[k].key, cs) == 0
      ensures SharedSorted(fs[i].value, ts[k].value, ([Member(fs[0].key, x)] + us)[i].value,
                           ([Member(ts[0].key, y)] + vs)[k].value, cs)
    {
      if i > 0 { assert fs[i] == fs[1..][i - 1]; }
      if k > 0 { assert ts[k] == ts[1..][k - 1]; }
    }
  }

  lemma AbsentKept(ms: seq<Member<Json>>, others: seq<Member<Json>>, m: Member<Json>, us: seq<Member<Json>>, cs: bool)
    requires ms != [] && others != [] && Cmp(ms[0].key, others[0].key, cs) == 0 && |us| == |ms| - 1
    requires forall i | 0 <= i < |us| && Absent(ms[1..][i].key, others[1..], cs) :: us[i] == ms[1..][i]
    ensures forall i | 0 <= i < |ms| && Absent(ms[i].key, others, cs) :: ([m] + us)[i] == ms[i]
  {
    hide Cmp;
    forall i | 0 <= i < |ms| && Absent(ms[i].key, others, cs) ensures ([m] + us)[i] == ms[i] {
      if i > 0 { assert ms[i] == ms[1..][i - 1] && Absent(ms[1..][i - 1].key, others[1..], cs); }
    }
  }

  lemma AbsentAlone(ms: seq<Member<Json>>, others: seq<Member<Json>>, us: seq<Member<Json>>, cs: bool)
    requires ms != [] && |us| == |ms| - 1
    requires forall i | 0 <= i < |us| && Absent(ms[1..][i].key, others, cs) :: us[i] == ms[1..][i]
    ensures forall i | 0 <= i < |ms| && Absent(ms[i].key, others, cs) :: ([ms[0]] + us)[i] == ms[i]
  {
    hide Absent;
    forall i | 0 <= i < |ms| && Absent(ms[i].key, others, cs) ensures ([ms[0]] + us)[i] == ms[i] {
      if i > 0 { assert ms[i] == ms[1..][i - 1]; }
    }
  }

  lemma AbsentMore(ms: seq<Member<Json>>, others: seq<Member<Json>>, us: seq<Member<Json>>, cs: bool)
    requires others != [] && |us| == |ms|
    requires forall i | 0 <= i < |ms| && Absent(ms[i].key, others[1..], cs) :: us[i] == ms[i]
    ensures forall i | 0 <= i < |ms| && Absent(ms[i].key, others, cs) :: us[i] == ms[i]
  {
    hide Cmp;
    forall i | 0 <= i < |ms| && Absent(ms[i].key, others, cs) ensures us[i] == ms[i] {
      assert Absent(ms[i].key, others[1..], cs);
    }
  }

  lemma SharedFrom(owner: Json, fs: seq<Member<Json>>, ts: seq<Member<Json>>, us: seq<Member<Json>>,
                   vs: seq<Member<Json>>, cs: bool)
    requires fs != [] && Apart(fs[0].key, ts, cs)
    requires fs[0].value < owner && SharedMembers(owner, fs[1..], ts, us, vs, cs)
    ensures SharedMembers(owner, fs, ts, [fs[0]] + us, vs, cs)
  {
    hide SharedSorted, Cmp, Absent;
    var ps := [fs[0]] + us;
    AbsentAlone(fs, ts, us, cs);
    AbsentMore(ts, fs, vs, cs);
    forall i, k | 0 <= i < |fs| && 0 <= k < |ts| && Cmp(fs[i].key, ts[k].key, cs) == 0
      ensures SharedSorted(fs[i].value, ts[k].value, ps[i].value, vs[k].value, cs)
    {
      if i > 0 { assert fs[i] == fs[1..][i - 1]; }
    }
  }

  lemma SharedTo(owner: Json, fs: seq<Member<Json>>, ts: seq<Member<Json>>, us: seq<Member<Json>>,
                 vs: seq<Member<Json>>, cs: bool)
    requires ts != [] && Apart(ts[0].key, fs, cs)
    requires SharedMembers(owner, fs, ts[1..], us, vs, cs)
    ensures SharedMembers(owner, fs, ts, us, [ts[0]] + vs, cs)
  {
    hide SharedSorted, Cmp, Absent;
    var qs := [ts[0]] + vs;
    AbsentAlone(ts, fs, vs, cs);
    AbsentMore(fs, ts, us, cs);
    forall i, k | 0 <= i < |fs| && 0 <= k < |ts| && Cmp(fs[i].key, ts[k].key, cs) == 0
      ensures SharedSorted(fs[i].value, ts[k].value, us[i].value, qs[k].value, cs)
    {
      if k > 0 { assert ts[k] == ts[1..][k - 1]; }
    }
  }
}
