/** Generating merge patches: when does merging the generated patch into `from` yield `to`? */
module MergeRoundTrip {
  import opened CStrings
  import opened SiblingLinks
  import opened JsonTrees
  import opened Sorting
  import opened Comparing
  import opened Vocabularies
  import opened Reorderings
  import opened MergePatching

  // ---------- generate_merge_patch ----------

  /** The generated patch, or None for the NULL that means no change. The members are sorted under
      the case mode, but walked with strcmp, and nested patches are generated ignoring case. */
  function GenerateMerge(from: Json, to: Json, cs: bool): Option<Json>
    decreases Depth(from), 1
  {
    if !to.Object? || !from.Object? then Some(Relinked(to))
    else
      SortedDepth(from, cs);
      var patch := MergeWalk(Depth(from), Sort(from.members, cs), Sort(to.members, cs), cs);
      if patch == [] then None else Some(Object(patch))
  }

  /** The walk over two sorted objects. A nested patch is generated from what the comparison has left of the
      two values. */
  function MergeWalk(ghost bound: nat, fs: seq<Member<Json>>, ts: seq<Member<Json>>, cs: bool): seq<Member<Json>>
    requires forall m | m in fs :: Depth(m.value) < bound
    decreases bound, 0, |fs| + |ts|
  {
    if fs == [] && ts == [] then []
    else if ts == [] || (fs != [] && Cmp(fs[0].key, ts[0].key, true) < 0) then
      [Member(fs[0].key, Null)] + MergeWalk(bound, fs[1..], ts, cs)
    else if fs == [] || Cmp(fs[0].key, ts[0].key, true) > 0 then
      [Member(ts[0].key, Relinked(ts[0].value))] + MergeWalk(bound, fs, ts[1..], cs)
    else if SameSorted(fs[0].value, ts[0].value, cs) then
      MergeWalk(bound, fs[1..], ts[1..], cs)
    else
      AfterCompareDepth(fs[0].value, ts[0].value, cs);
      var (f, t) := AfterCompare(fs[0].value, ts[0].value, cs);
      var nested := GenerateMerge(f, t, false);
      (if nested.Some? then [Member(ts[0].key, nested.value)] else []) + MergeWalk(bound, fs[1..], ts[1..], cs)
  }

  /** Both trees after generate_merge_patch. */
  function AfterGenerate(from: Json, to: Json, cs: bool): (Json, Json)
    decreases Depth(from), 1
  {
    if !to.Object? || !from.Object? then (from, to)
    else
      SortedDepth(from, cs);
      var f, t := SortedObject(from, cs), SortedObject(to, cs);
      var (fs, ts) := AfterMergeWalk(Depth(from), f.members, t.members, cs);
      (Object(fs, f.link), Object(ts, t.link))
  }

  function AfterMergeWalk(ghost bound: nat, fs: seq<Member<Json>>, ts: seq<Member<Json>>, cs: bool)
    : (r: (seq<Member<Json>>, seq<Member<Json>>))
    requires forall m | m in fs :: Depth(m.value) < bound
    ensures |r.0| == |fs| && |r.1| == |ts|
    decreases bound, 0, |fs| + |ts|
  {
    if fs == [] && ts == [] then ([], [])
    else if ts == [] || (fs != [] && Cmp(fs[0].key, ts[0].key, true) < 0) then
      var (us, vs) := AfterMergeWalk(bound, fs[1..], ts, cs);
      ([fs[0]] + us, vs)
    else if fs == [] || Cmp(fs[0].key, ts[0].key, true) > 0 then
      var (us, vs) := AfterMergeWalk(bound, fs, ts[1..], cs);
      (us, [ts[0]] + vs)
    else
      var (f, t) := AfterPair(fs[0].value, ts[0].value, cs);
      var (us, vs) := AfterMergeWalk(bound, fs[1..], ts[1..], cs);
      ([Member(fs[0].key, f)] + us, [Member(ts[0].key, t)] + vs)
  }

  /** Two values with the same key: compared, and walked again for a nested patch when they differ. */
  function AfterPair(f: Json, t: Json, cs: bool): (Json, Json)
    decreases Depth(f), 2
  {
    AfterCompareDepth(f, t, cs);
    var (f', t') := AfterCompare(f, t, cs);
    if SameSorted(f, t, cs) then (f', t') else AfterGenerate(f', t', false)
  }

  // ---------- the same on meanings ----------

  /** The patch between two different trees, on meanings. */
  function Difference(f: Val, t: Val): Val
    decreases f
  {
    if f.VObject? && t.VObject? then
      var fm, tm := f.fields, t.fields;
      VObject(map k | k in fm.Keys + tm.Keys && !(k in fm && k in tm && fm[k] == tm[k]) ::
                if k !in tm then VNull else if k !in fm then tm[k] else Difference(fm[k], tm[k]))
    else t
  }

  /** The value of a member, VNull when there is none. */
  function Field(v: Val, k: Str): Val {
    if v.VObject? && k in v.fields then v.fields[k] else VNull
  }

  /** A merge patch can lead from `f` to `t`: every null member of `t`, in any object of `t` that is
      reached through objects, is a null member of `f` at the same place. */
  predicate NullsCovered(f: Val, t: Val)
    decreases t
  {
    t.VObject? ==>
      forall k | k in t.fields ::
        (t.fields[k] == VNull ==> f.VObject? && k in f.fields && f.fields[k] == VNull)
        && NullsCovered(Field(f, k), t.fields[k])
  }

  lemma {:induction false} CoveredBySelf(v: Val)
    ensures NullsCovered(v, v)
    decreases v
  {
    if v.VObject? {
      forall k | k in v.fields ensures NullsCovered(Field(v, k), v.fields[k]) {
        CoveredBySelf(v.fields[k]);
      }
    }
  }

  /** Merging into something that is no object builds `t` iff no null is reached. */
  lemma {:induction false} MergeFresh(f: Val, t: Val)
    requires !f.VObject?
    ensures RfcMerge(f, t) == t <==> NullsCovered(f, t)
    decreases t
  {
    if t.VObject? {
      forall k | k in t.fields
        ensures RfcMerge(VNull, t.fields[k]) == t.fields[k] <==> NullsCovered(VNull, t.fields[k])
      {
        MergeFresh(VNull, t.fields[k]);
      }
      var r := RfcMerge(f, t);
      if r == t {
        forall k | k in t.fields
          ensures t.fields[k] != VNull && NullsCovered(Field(f, k), t.fields[k])
        {
          assert k in r.fields;
        }
      }
    }
  }

  /** The exact condition, on meanings. */
  lemma {:induction false} MergeDifference(f: Val, t: Val)
    requires f != t
    ensures RfcMerge(f, Difference(f, t)) == t <==> NullsCovered(f, t)
    decreases f
  {
    if !f.VObject? {
      MergeFresh(f, t);
    } else if t.VObject? {
      var fm, tm, r := f.fields, t.fields, RfcMerge(f, Difference(f, t)).fields;
      forall k | k in tm
        ensures (k in r && r[k] == tm[k])
                <==> (tm[k] == VNull ==> k in fm && fm[k] == VNull) && NullsCovered(Field(f, k), tm[k])
      {
        MergeDifferenceAt(f, t, k);
      }
      forall k | k in r ensures k in tm { }
      assert r == tm <==> forall k | k in tm :: k in r && r[k] == tm[k];
    }
  }

  lemma {:induction false} MergeDifferenceAt(f: Val, t: Val, k: Str)
    requires f.VObject? && t.VObject? && k in t.fields
    ensures var r := RfcMerge(f, Difference(f, t)).fields;
            (k in r && r[k] == t.fields[k])
            <==> (t.fields[k] == VNull ==> k in f.fields && f.fields[k] == VNull)
                 && NullsCovered(Field(f, k), t.fields[k])
    decreases f, 0
  {
    var fm, tm := f.fields, t.fields;
    if k !in fm {
      MergeFresh(VNull, tm[k]);
    } else if fm[k] == tm[k] {
      CoveredBySelf(fm[k]);
    } else {
      MergeDifference(fm[k], tm[k]);
    }
  }

  // ---------- vocabularies on which the case mode does not matter ----------

  /** strcmp and the case-insensitive comparison order these keys the same way; keys without
      upper-case letters are such a vocabulary. */
  ghost predicate Agreeing(keys: iset<Str>) {
    forall a, b | a in keys && b in keys ::
      (Cmp(a, b, false) < 0 <==> Cmp(a, b, true) < 0) && (Norm(a, false) == Norm(b, false) ==> a == b)
  }

  lemma CmpAgrees(a: Str, b: Str, keys: iset<Str>)
    requires Agreeing(keys) && a in keys && b in keys
    ensures Cmp(a, b, false) < 0 <==> Cmp(a, b, true) < 0
    ensures Cmp(a, b, false) == 0 <==> Cmp(a, b, true) == 0
    ensures Cmp(a, b, false) > 0 <==> Cmp(a, b, true) > 0
  {
    CmpZero(a, b, false);
    CmpZero(a, b, true);
  }

  ghost predicate KeysIn<T>(ms: seq<Member<T>>, keys: iset<Str>) {
    forall m | m in ms :: m.key in keys
  }

  lemma {:induction false} MergeListsAgree<T>(a: seq<Member<T>>, b: seq<Member<T>>, keys: iset<Str>)
    requires Agreeing(keys) && KeysIn(a, keys) && KeysIn(b, keys)
    ensures MergeSorted(a, b, false) == MergeSorted(a, b, true)
  {
    if a != [] && b != [] {
      assert a[0] in a && b[0] in b;
      CmpAgrees(a[0].key, b[0].key, keys);
      if Cmp(a[0].key, b[0].key, true) < 0 {
        MergeListsAgree(a[1..], b, keys);
      } else {
        MergeListsAgree(a, b[1..], keys);
      }
    }
  }

  lemma {:induction false} SortAgrees<T>(s: seq<Member<T>>, keys: iset<Str>)
    requires Agreeing(keys) && KeysIn(s, keys)
    ensures Sort(s, false) == Sort(s, true)
    decreases |s|
  {
    hide MergeSorted, Sorted, StrictlyIncreasing, Agreeing;
    IncreasingAgrees(s, keys);
    if |s| >= 2 && !StrictlyIncreasing(s, true) {
      var l, r := s[..(|s| + 1) / 2], s[(|s| + 1) / 2..];
      SortAgrees(l, keys);
      SortAgrees(r, keys);
      SortKeepsKeys(s, l, keys);
      SortKeepsKeys(s, r, keys);
      MergeListsAgree(Sort(l, true), Sort(r, true), keys);
    }
  }

  lemma SortKeepsKeys<T>(s: seq<Member<T>>, part: seq<Member<T>>, keys: iset<Str>)
    requires KeysIn(s, keys) && forall m | m in part :: m in s
    ensures KeysIn(Sort(part, true), keys)
  {
    SortPermutes(part, true);
    forall m | m in Sort(part, true) ensures m.key in keys {
      assert m in multiset(Sort(part, true));
      assert m in multiset(part);
    }
  }

  lemma IncreasingAgrees<T>(s: seq<Member<T>>, keys: iset<Str>)
    requires Agreeing(keys) && KeysIn(s, keys)
    ensures StrictlyIncreasing(s, false) <==> StrictlyIncreasing(s, true)
  {
    forall i | 0 <= i < |s| - 1
      ensures Cmp(s[i].key, s[i + 1].key, false) < 0 <==> Cmp(s[i].key, s[i + 1].key, true) < 0
    {
      assert s[i] in s && s[i + 1] in s;
    }
  }

  /** Sorting an object is the same in both modes. */
  lemma SortAgreesFor(j: Json, keys: iset<Str>)
    requires Agreeing(keys) && j.Object? && Fits(j, keys, true)
    ensures var s := Sort(j.members, true);
            s == Sort(j.members, false) && MembersFit(s, keys) && forall m | m in s :: m.value < j
    ensures SortedObject(j, true) == SortedObject(j, false)
  {
    hide Sort;
    SortAgrees(j.members, keys);
    SortAgrees(Numbered(j.members), keys);
    SortCorrect(j.members, true);
  }

  lemma {:induction false} SameAgrees(a: Json, b: Json, keys: iset<Str>)
    requires Agreeing(keys) && Fits(a, keys, true) && Fits(b, keys, true)
    ensures SameSorted(a, b, false) == SameSorted(a, b, true)
    decreases a
  {
    if SameType(a, b) {
      match a
      case Array(es) => SameElemsAgrees(es, b.elems, keys);
      case Object(ms, _) =>
        hide Fits, Sorted;
        SortAgreesFor(a, keys);
        SortAgreesFor(b, keys);
        SameWalkAgrees(a, Sort(ms, true), Sort(b.members, true), keys);
      case _ =>
    }
  }

  lemma {:induction false} SameElemsAgrees(xs: seq<Json>, ys: seq<Json>, keys: iset<Str>)
    requires Agreeing(keys)
    requires (forall x | x in xs :: Fits(x, keys, true)) && forall y | y in ys :: Fits(y, keys, true)
    ensures SameElems(xs, ys, false) == SameElems(xs, ys, true)
    decreases xs
  {
    if xs != [] && ys != [] {
      SameAgrees(xs[0], ys[0], keys);
      SameElemsAgrees(xs[1..], ys[1..], keys);
    }
  }

  ghost predicate MembersFit(ms: seq<Member<Json>>, keys: iset<Str>) {
    forall m | m in ms :: m.key in keys && Fits(m.value, keys, true)
  }

  lemma {:induction false} SameWalkAgrees(owner: Json, xs: seq<Member<Json>>, ys: seq<Member<Json>>, keys: iset<Str>)
    requires Agreeing(keys) && forall x | x in xs :: x.value < owner
    requires MembersFit(xs, keys) && MembersFit(ys, keys)
    ensures SameWalk(owner, xs, ys, false) == SameWalk(owner, xs, ys, true)
    decreases owner, |xs|
  {
    if xs != [] && ys != [] {
      assert xs[0] in xs && ys[0] in ys;
      CmpAgrees(xs[0].key, ys[0].key, keys);
      SameAgrees(xs[0].value, ys[0].value, keys);
      SameWalkAgrees(owner, xs[1..], ys[1..], keys);
    }
  }

  /** So is what a comparison leaves behind. */
  lemma {:induction false} AfterAgrees(a: Json, b: Json, keys: iset<Str>)
    requires Agreeing(keys) && Fits(a, keys, true) && Fits(b, keys, true)
    ensures AfterCompare(a, b, false) == AfterCompare(a, b, true)
    decreases a
  {
    if SameType(a, b) {
      match a
      case Array(es) => AfterElemsAgrees(es, b.elems, keys);
      case Object(ms, _) =>
        hide Fits, Sort, Order, Sorted;
        SortAgreesFor(a, keys);
        SortAgreesFor(b, keys);
        AfterWalkAgrees(a, Sort(ms, true), Sort(b.members, true), keys);
      case _ =>
    }
  }

  lemma {:induction false} AfterElemsAgrees(xs: seq<Json>, ys: seq<Json>, keys: iset<Str>)
    requires Agreeing(keys)
    requires (forall x | x in xs :: Fits(x, keys, true)) && forall y | y in ys :: Fits(y, keys, true)
    ensures AfterElems(xs, ys, false) == AfterElems(xs, ys, true)
    decreases xs
  {
    if xs != [] && ys != [] {
      hide SameSorted, AfterCompare, Fits;
      assert xs[0] in xs && ys[0] in ys;
      SameAgrees(xs[0], ys[0], keys);
      AfterAgrees(xs[0], ys[0], keys);
      AfterElemsAgrees(xs[1..], ys[1..], keys);
    }
  }

  lemma {:induction false} AfterWalkAgrees(owner: Json, xs: seq<Member<Json>>, ys: seq<Member<Json>>, keys: iset<Str>)
    requires Agreeing(keys) && forall x | x in xs :: x.value < owner
    requires MembersFit(xs, keys) && MembersFit(ys, keys)
    ensures AfterWalk(owner, xs, ys, false) == AfterWalk(owner, xs, ys, true)
    decreases owner, |xs|
  {
    if xs != [] && ys != [] {
      hide SameSorted, AfterCompare, Cmp, Agreeing, Fits;
      assert xs[0] in xs && ys[0] in ys;
      CmpAgrees(xs[0].key, ys[0].key, keys);
      SameAgrees(xs[0].value, ys[0].value, keys);
      AfterAgrees(xs[0].value, ys[0].value, keys);
      AfterWalkAgrees(owner, xs[1..], ys[1..], keys);
    }
  }

  lemma GenerateAgrees(from: Json, to: Json, keys: iset<Str>)
    requires Agreeing(keys) && Fits(from, keys, true) && Fits(to, keys, true)
    ensures GenerateMerge(from, to, false) == GenerateMerge(from, to, true)
  {
    if from.Object? && to.Object? {
      hide Fits, Sorted, MergeWalk, Sort;
      SortAgreesFor(from, keys);
      SortAgreesFor(to, keys);
      SortedDepth(from, true);
      MergeWalkAgrees(Depth(from), Sort(from.members, true), Sort(to.members, true), keys);
    }
  }

  lemma {:induction false} MergeWalkAgrees(bound: nat, fs: seq<Member<Json>>, ts: seq<Member<Json>>, keys: iset<Str>)
    requires Agreeing(keys) && forall f | f in fs :: Depth(f.value) < bound
    requires MembersFit(fs, keys) && MembersFit(ts, keys)
    ensures MergeWalk(bound, fs, ts, false) == MergeWalk(bound, fs, ts, true)
    decreases |fs| + |ts|
  {
    hide SameSorted, Cmp, AfterCompare, GenerateMerge, Relinked;
    if fs != [] && ts != [] {
      assert fs[0] in fs && ts[0] in ts;
      SameAgrees(fs[0].value, ts[0].value, keys);
      AfterAgrees(fs[0].value, ts[0].value, keys);
      MergeWalkAgrees(bound, fs[1..], ts, keys);
      MergeWalkAgrees(bound, fs, ts[1..], keys);
      MergeWalkAgrees(bound, fs[1..], ts[1..], keys);
    } else if fs != [] {
      MergeWalkAgrees(bound, fs[1..], ts, keys);
    } else if ts != [] {
      MergeWalkAgrees(bound, fs, ts[1..], keys);
    }
  }

  // ---------- what is generated ----------

  function DifferenceFields(f: map<Str, Val>, t: map<Str, Val>): map<Str, Val> {
    map k | k in f.Keys + t.Keys && !(k in f && k in t && f[k] == t[k]) ::
      if k !in t then VNull else if k !in f then t[k] else Difference(f[k], t[k])
  }

  /** The generated patch means the difference; there is none exactly when nothing differs. */
  lemma {:induction false} GenerateMeans(from: Json, to: Json, keys: iset<Str>)
    requires Agreeing(keys) && Fits(from, keys, true) && Fits(to, keys, true)
    ensures var g := GenerateMerge(from, to, true);
            (g.Some? ==> Fits(g.value, keys, true) && Abs(g.value, true) == Difference(Abs(from, true), Abs(to, true)))
            && (g.None? ==> Abs(from, true) == Abs(to, true))
            && (from.Object? && to.Object? && Abs(from, true) == Abs(to, true) ==> g.None?)
    decreases Depth(from), 1
  {
    if from.Object? && to.Object? {
      hide MergeWalk, AbsMembers, DifferenceFields, Fits, GenerateMerge, Difference, WalkFits;
      SortedFits(from, keys);
      SortedFits(to, keys);
      WalkStarts(Sort(from.members, true), Sort(to.members, true), keys);
      MergeWalkMeans(Depth(from), Sort(from.members, true), Sort(to.members, true), keys);
      GenerateObjects(from, to, keys);
    } else {
      RelinkedFits(to, keys, true);
    }
  }

  lemma WalkStarts(fs: seq<Member<Json>>, ts: seq<Member<Json>>, keys: iset<Str>)
    requires MembersFit(fs, keys) && MembersFit(ts, keys)
    requires Sorted(fs, true) && Sorted(ts, true) && DistinctKeys(fs, true) && DistinctKeys(ts, true)
    ensures WalkFits(fs, ts, keys)
  {
  }

  lemma SortedFits(j: Json, keys: iset<Str>)
    requires j.Object? && Fits(j, keys, true)
    ensures var s := Sort(j.members, true);
            (forall m | m in s :: Depth(m.value) < Depth(j)) && MembersFit(s, keys)
            && Sorted(s, true) && DistinctKeys(s, true) && AbsMembers(s, true) == AbsMembers(j.members, true)
  {
    hide Sort, AbsMembers, Sorted, DistinctKeys;
    SortKeepsMeaning(j.members, true);
    SortCorrect(j.members, true);
    SortedDepth(j, true);
  }

  lemma GenerateObjects(from: Json, to: Json, keys: iset<Str>)
    requires from.Object? && to.Object? && Fits(from, keys, true) && Fits(to, keys, true)
    requires forall m | m in Sort(from.members, true) :: Depth(m.value) < Depth(from)
    requires var walk := MergeWalk(Depth(from), Sort(from.members, true), Sort(to.members, true), true);
             Fits(Object(walk), keys, true)
             && AbsMembers(walk, true)
                == DifferenceFields(AbsMembers(from.members, true), AbsMembers(to.members, true))
    ensures var g := GenerateMerge(from, to, true);
            (g.Some? ==> Fits(g.value, keys, true) && Abs(g.value, true) == Difference(Abs(from, true), Abs(to, true)))
            && (g.None? <==> Abs(from, true) == Abs(to, true))
  {
    hide MergeWalk, Fits;
    var f, t := AbsMembers(from.members, true), AbsMembers(to.members, true);
    var walk := MergeWalk(Depth(from), Sort(from.members, true), Sort(to.members, true), true);
    assert walk == [] <==> AbsMembers(walk, true) == map[] by {
      if walk != [] { assert Norm(walk[0].key, true) in AbsMembers(walk, true); }
    }
    NoDifference(f, t);
  }

  lemma NoDifference(f: map<Str, Val>, t: map<Str, Val>)
    ensures DifferenceFields(f, t) == map[] <==> f == t
  {
    hide Difference;
    if DifferenceFields(f, t) == map[] {
      forall k ensures k in f <==> k in t {
        assert k !in DifferenceFields(f, t);
      }
      forall k | k in f ensures f[k] == t[k] {
        assert k !in DifferenceFields(f, t);
      }
    }
  }

  ghost predicate WalkFits(fs: seq<Member<Json>>, ts: seq<Member<Json>>, keys: iset<Str>) {
    MembersFit(fs, keys) && MembersFit(ts, keys)
    && Sorted(fs, true) && Sorted(ts, true) && DistinctKeys(fs, true) && DistinctKeys(ts, true)
  }

  lemma WalkFitsTail(fs: seq<Member<Json>>, ts: seq<Member<Json>>, keys: iset<Str>)
    requires WalkFits(fs, ts, keys)
    ensures fs != [] ==> fs[0].key in keys && Fits(fs[0].value, keys, true) && WalkFits(fs[1..], ts, keys)
    ensures ts != [] ==> ts[0].key in keys && Fits(ts[0].value, keys, true) && WalkFits(fs, ts[1..], keys)
    ensures fs != [] && ts != [] ==> WalkFits(fs[1..], ts[1..], keys)
  {
    hide Fits;
  }

  lemma {:induction false} MergeWalkMeans(bound: nat, fs: seq<Member<Json>>, ts: seq<Member<Json>>, keys: iset<Str>)
    requires Agreeing(keys) && (forall f | f in fs :: Depth(f.value) < bound) && WalkFits(fs, ts, keys)
    ensures var walk := MergeWalk(bound, fs, ts, true);
            Fits(Object(walk), keys, true)
            && AbsMembers(walk, true) == DifferenceFields(AbsMembers(fs, true), AbsMembers(ts, true))
    decreases bound, 0, |fs| + |ts|, 1
  {
    if fs == [] && ts == [] {
      assert DifferenceFields(map[], map[]) == map[];
    } else if ts == [] || (fs != [] && Cmp(fs[0].key, ts[0].key, true) < 0) {
      GoneMeans(bound, fs, ts, keys);
    } else if fs == [] || Cmp(fs[0].key, ts[0].key, true) > 0 {
      NewMeans(bound, fs, ts, keys);
    } else {
      BothMeans(bound, fs, ts, keys);
    }
  }

  /** A member with a new key in front of a walk. */
  lemma ConsFits(m: Member<Json>, walk: seq<Member<Json>>, keys: iset<Str>)
    requires m.key in keys && Fits(m.value, keys, true) && Fits(Object(walk), keys, true)
    requires Norm(m.key, true) !in AbsMembers(walk, true)
    ensures Fits(Object([m] + walk), keys, true)
    ensures AbsMembers([m] + walk, true) == AbsMembers(walk, true)[Norm(m.key, true) := Abs(m.value, true)]
  {
    AbsKeys(walk, true);
    assert ([m] + walk)[1..] == walk;
  }

  lemma {:induction false} GoneMeans(bound: nat, fs: seq<Member<Json>>, ts: seq<Member<Json>>, keys: iset<Str>)
    requires Agreeing(keys) && (forall f | f in fs :: Depth(f.value) < bound) && WalkFits(fs, ts, keys)
    requires fs != [] && (ts != [] ==> Cmp(fs[0].key, ts[0].key, true) < 0)
    ensures var walk := MergeWalk(bound, fs, ts, true);
            Fits(Object(walk), keys, true)
            && AbsMembers(walk, true) == DifferenceFields(AbsMembers(fs, true), AbsMembers(ts, true))
    decreases bound, 0, |fs| + |ts|, 0
  {
    hide AbsMembers, Norm, Cmp, Difference, DifferenceFields, SameSorted;
    var rest := MergeWalk(bound, fs[1..], ts, true);
    var k, x := Norm(fs[0].key, true), Abs(fs[0].value, true);
    WalkFitsTail(fs, ts, keys);
    MergeWalkMeans(bound, fs[1..], ts, keys);
    SplitHead(fs, true);
    BelowAll(ts, fs[0].key, true);
    GoneStep(AbsMembers(fs[1..], true), AbsMembers(ts, true), k, x);
    AbsNonNull(Null, true);
    ConsFits(Member(fs[0].key, Null), rest, keys);
  }

  lemma {:induction false} NewMeans(bound: nat, fs: seq<Member<Json>>, ts: seq<Member<Json>>, keys: iset<Str>)
    requires Agreeing(keys) && (forall f | f in fs :: Depth(f.value) < bound) && WalkFits(fs, ts, keys)
    requires ts != [] && (fs != [] ==> Cmp(fs[0].key, ts[0].key, true) > 0)
    ensures var walk := MergeWalk(bound, fs, ts, true);
            Fits(Object(walk), keys, true)
            && AbsMembers(walk, true) == DifferenceFields(AbsMembers(fs, true), AbsMembers(ts, true))
    decreases bound, 0, |fs| + |ts|, 0
  {
    hide AbsMembers, Norm, Cmp, Difference, DifferenceFields, SameSorted;
    var rest := MergeWalk(bound, fs, ts[1..], true);
    WalkFitsTail(fs, ts, keys);
    MergeWalkMeans(bound, fs, ts[1..], keys);
    SplitHead(ts, true);
    if fs != [] { CmpFlip(ts[0].key, fs[0].key, true); }
    BelowAll(fs, ts[0].key, true);
    NewStep(AbsMembers(fs, true), AbsMembers(ts[1..], true), Norm(ts[0].key, true), Abs(ts[0].value, true));
    RelinkedFits(ts[0].value, keys, true);
    ConsFits(Member(ts[0].key, Relinked(ts[0].value)), rest, keys);
  }

  lemma {:induction false} BothMeans(bound: nat, fs: seq<Member<Json>>, ts: seq<Member<Json>>, keys: iset<Str>)
    requires Agreeing(keys) && (forall f | f in fs :: Depth(f.value) < bound) && WalkFits(fs, ts, keys)
    requires fs != [] && ts != [] && Cmp(fs[0].key, ts[0].key, true) == 0
    ensures var walk := MergeWalk(bound, fs, ts, true);
            Fits(Object(walk), keys, true)
            && AbsMembers(walk, true) == DifferenceFields(AbsMembers(fs, true), AbsMembers(ts, true))
    decreases bound, 0, |fs| + |ts|, 0
  {
    hide AbsMembers, Norm, Cmp, Difference, DifferenceFields, SameSorted, Abs, GenerateMerge, AfterCompare, Fits;
    hide WalkFits, MergeWalk, Agreeing;
    var rest := MergeWalk(bound, fs[1..], ts[1..], true);
    var f, t := fs[0].value, ts[0].value;
    var k, x, y := Norm(fs[0].key, true), Abs(f, true), Abs(t, true);
    WalkFitsTail(fs, ts, keys);
    WalkFitsDistinct(fs, ts, keys);
    MergeWalkMeans(bound, fs[1..], ts[1..], keys);
    SplitHead(fs, true);
    SplitHead(ts, true);
    CmpZero(fs[0].key, ts[0].key, true);
    BothStep(AbsMembers(fs[1..], true), AbsMembers(ts[1..], true), k, x, y);
    BothWalk(bound, fs, ts);
    FitsIsStandard(f, keys, true);
    FitsIsStandard(t, keys, true);
    SameSortedMeans(f, t, true);
    if x != y {
      var (f', t') := AfterCompare(f, t, true);
      AfterCompareDepth(f, t, true);
      AfterCompareReorders(f, t, true);
      ReorderedMeans(f, f', keys, true);
      ReorderedMeans(t, t', keys, true);
      GenerateAgrees(f', t', keys);
      GenerateMeans(f', t', keys);
      if GenerateMerge(f', t', false).Some? {
        ConsFits(Member(ts[0].key, GenerateMerge(f', t', false).value), rest, keys);
      }
    }
  }

  lemma WalkFitsDistinct(fs: seq<Member<Json>>, ts: seq<Member<Json>>, keys: iset<Str>)
    requires WalkFits(fs, ts, keys)
    ensures DistinctKeys(fs, true) && DistinctKeys(ts, true)
  {
  }

  lemma BothWalk(bound: nat, fs: seq<Member<Json>>, ts: seq<Member<Json>>)
    requires (forall f | f in fs :: Depth(f.value) < bound) && fs != [] && ts != []
    requires Cmp(fs[0].key, ts[0].key, true) == 0
    ensures var rest := MergeWalk(bound, fs[1..], ts[1..], true);
            var (f, t) := AfterCompare(fs[0].value, ts[0].value, true);
            var nested := GenerateMerge(f, t, false);
            MergeWalk(bound, fs, ts, true)
            == if SameSorted(fs[0].value, ts[0].value, true) then rest
               else (if nested.Some? then [Member(ts[0].key, nested.value)] else []) + rest
  {
    hide Cmp, SameSorted, AfterCompare, GenerateMerge;
  }

  lemma GoneStep(f: map<Str, Val>, t: map<Str, Val>, k: Str, x: Val)
    requires k !in f && k !in t
    ensures DifferenceFields(f[k := x], t) == DifferenceFields(f, t)[k := VNull] && k !in DifferenceFields(f, t)
  {
    hide Difference;
  }

  lemma NewStep(f: map<Str, Val>, t: map<Str, Val>, k: Str, y: Val)
    requires k !in f && k !in t
    ensures DifferenceFields(f, t[k := y]) == DifferenceFields(f, t)[k := y] && k !in DifferenceFields(f, t)
  {
    hide Difference;
  }

  lemma BothStep(f: map<Str, Val>, t: map<Str, Val>, k: Str, x: Val, y: Val)
    requires k !in f && k !in t
    ensures k !in DifferenceFields(f, t)
    ensures DifferenceFields(f[k := x], t[k := y])
            == if x == y then DifferenceFields(f, t) else DifferenceFields(f, t)[k := Difference(x, y)]
  {
    hide Difference;
  }

  // ---------- merging in either mode ----------

  /** Every key in the tree is in the vocabulary. */
  ghost predicate Spelled(j: Json, keys: iset<Str>)
    decreases j
  {
    match j
    case Array(es) => forall e | e in es :: Spelled(e, keys)
    case Object(ms, _) => forall m | m in ms :: m.key in keys && Spelled(m.value, keys)
    case _ => true
  }

  lemma {:induction false} FitsIsSpelled(j: Json, keys: iset<Str>)
    requires Fits(j, keys, true)
    ensures Spelled(j, keys)
    decreases j
  {
    match j
    case Array(es) =>
      forall e | e in es ensures Spelled(e, keys) { FitsIsSpelled(e, keys); }
    case Object(ms, _) =>
      forall m | m in ms ensures Spelled(m.value, keys) { FitsIsSpelled(m.value, keys); }
    case _ =>
  }

  lemma {:induction false} FindKeyAgrees(ms: seq<Member<Json>>, name: Str, keys: iset<Str>)
    requires Agreeing(keys) && name in keys && KeysIn(ms, keys)
    ensures FindKey(ms, name, false) == FindKey(ms, name, true)
  {
    if ms != [] {
      assert ms[0] in ms;
      FindKeyAgrees(ms[1..], name, keys);
    }
  }

  lemma {:induction false} MergeAgrees(target: Option<Json>, patch: Json, keys: iset<Str>)
    requires Agreeing(keys) && Spelled(patch, keys) && (target.Some? ==> Spelled(target.value, keys))
    ensures Merge(target, patch, false) == Merge(target, patch, true)
    ensures Spelled(Merge(target, patch, true), keys)
    ensures Mergeable(target, patch, false) == Mergeable(target, patch, true)
    decreases patch
  {
    match patch
    case Object(ps, _) => MergeIntoAgrees(Base(target), ps, keys);
    case _ => RelinkedSpelled(patch, keys);
  }

  lemma {:induction false} RelinkedSpelled(j: Json, keys: iset<Str>)
    requires Spelled(j, keys)
    ensures Spelled(Relinked(j), keys)
    decreases j
  {
    match j {
      case Array(es) =>
        forall i | 0 <= i < |es| ensures Spelled(Relinked(es[i]), keys) { RelinkedSpelled(es[i], keys); }
      case Object(ms, _) =>
        forall i | 0 <= i < |ms| ensures ms[i].key in keys && Spelled(Relinked(ms[i].value), keys) {
          assert ms[i] in ms;
          RelinkedSpelled(ms[i].value, keys);
        }
      case _ =>
    }
  }

  lemma {:induction false} MergeIntoAgrees(j: Json, ps: seq<Member<Json>>, keys: iset<Str>)
    requires Agreeing(keys) && j.Object? && Spelled(j, keys) && Spelled(Object(ps), keys)
    ensures MergeInto(j, ps, false) == MergeInto(j, ps, true)
    ensures Spelled(MergeInto(j, ps, true), keys)
    ensures MergeableInto(j, ps, false) == MergeableInto(j, ps, true)
    decreases ps
  {
    if ps != [] {
      hide Agreeing, OneMerged, Mergeable, Appendable;
      assert ps[0] in ps;
      OneMergedAgrees(j, ps[0], keys);
      MergeIntoAgrees(OneMerged(j, ps[0], true), ps[1..], keys);
    }
  }

  lemma {:induction false} OneMergedAgrees(j: Json, p: Member<Json>, keys: iset<Str>)
    requires Agreeing(keys) && j.Object? && Spelled(j, keys) && p.key in keys && Spelled(p.value, keys)
    ensures OneMerged(j, p, false) == OneMerged(j, p, true)
    ensures Spelled(OneMerged(j, p, true), keys)
    ensures WithoutMember(j, p.key, false) == WithoutMember(j, p.key, true)
    ensures !p.value.Null? ==> Mergeable(GetMember(j, p.key, false), p.value, false)
                               == Mergeable(GetMember(j, p.key, true), p.value, true)
    decreases p
  {
    hide Agreeing, Merge, Spelled, AddedMember, Mergeable;
    MembersSpelled(j, p.key, keys);
    FindKeyAgrees(j.members, p.key, keys);
    if !p.value.Null? {
      var old' := GetMember(j, p.key, true);
      MergeAgrees(old', p.value, keys);
      AddedSpelled(WithoutMember(j, p.key, true), Member(p.key, Merge(old', p.value, true)), keys);
    }
  }

  lemma MembersSpelled(j: Json, name: Str, keys: iset<Str>)
    requires j.Object? && Spelled(j, keys)
    ensures KeysIn(j.members, keys) && Spelled(WithoutMember(j, name, true), keys)
    ensures GetMember(j, name, true).Some? ==> Spelled(GetMember(j, name, true).value, keys)
  {
    var i := FindKey(j.members, name, true);
    if i < |j.members| { assert j.members[i] in j.members; }
    assert forall m | m in WithoutMember(j, name, true).members :: m in j.members;
  }

  lemma AddedSpelled(j: Json, m: Member<Json>, keys: iset<Str>)
    requires j.Object? && Spelled(j, keys) && m.key in keys && Spelled(m.value, keys)
    ensures Spelled(AddedMember(j, m), keys)
  {
  }

  // ---------- the round trip ----------

  /** In either mode: no patch is generated only if nothing differs, and merging the generated patch into a
      document in order that equals `from` yields `to`, up to member order, exactly when every null member of
      `to` that is reached through objects is already there. */
  lemma MergeReachesTarget(from: Json, to: Json, doc: Json, keys: iset<Str>, cs: bool)
    requires Agreeing(keys) && Fits(from, keys, true) && Fits(to, keys, true)
    requires Fits(doc, keys, true) && WellLinked(doc) && Abs(doc, true) == Abs(from, true)
    ensures GenerateMerge(from, to, cs).None? ==> Abs(from, true) == Abs(to, true)
    ensures var patch := GenerateMerge(from, to, cs);
            patch.Some? ==>
              Mergeable(Some(doc), patch.value, cs)
              && (Abs(Merge(Some(doc), patch.value, cs), true) == Abs(to, true)
                  <==> NullsCovered(Abs(from, true), Abs(to, true)))
  {
    hide GenerateMerge, Merge, RfcMerge, Difference, NullsCovered, WellLinked, Mergeable;
    GenerateAgrees(from, to, keys);
    GenerateMeans(from, to, keys);
    var patch := GenerateMerge(from, to, true);
    if patch.Some? {
      FitsIsSpelled(doc, keys);
      FitsIsSpelled(patch.value, keys);
      MergeAgrees(Some(doc), patch.value, keys);
      FitsIsStandard(doc, keys, true);
      FitsIsStandard(patch.value, keys, true);
      MergeMeans(Some(doc), patch.value, true);
      SameOrDifferent(from, to);
    }
  }

  lemma SameOrDifferent(from: Json, to: Json)
    ensures var f, t := Abs(from, true), Abs(to, true);
            (!(f.VObject? && t.VObject?) || f != t) ==> (RfcMerge(f, Difference(f, t)) == t <==> NullsCovered(f, t))
  {
    var f, t := Abs(from, true), Abs(to, true);
    if f != t {
      MergeDifference(f, t);
    }
  }
}
