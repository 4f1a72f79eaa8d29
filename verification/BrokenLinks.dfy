/** What is lost when something is added to an object that has been sorted in place: the link from its first
    member to its last is then right only if both have kept their places. */
module BrokenLinks {
  import opened CStrings
  import opened SiblingLinks
  import opened JsonTrees
  import opened Sorting
  import opened Comparing
  import opened Pointers
  import opened Edits
  import opened Diffing
  import opened Patching
  import opened PatchRoundTrip
  import opened Reorderings
  import opened Vocabularies

  // ---------- the link after a sort ----------

  /** The first and the last member keep their places when the members are sorted. */
  predicate KeepsEnds(ms: seq<Member<Json>>, cs: bool) {
    ms == [] || (Sort(ms, cs)[0] == ms[0] && Sort(ms, cs)[|ms| - 1] == ms[|ms| - 1])
  }

  predicate RightLink(j: Json)
    requires j.Object?
  {
    Normal(j.link, |j.members|).Right?
  }

  /** The link of a sorted object is right exactly when its ends have kept their places. When only the first one
      has, it leads to where the last one is now. */
  lemma LinkAfterSort(ms: seq<Member<Json>>, cs: bool)
    requires DistinctKeys(ms, cs)
    ensures RightLink(SortedObject(Object(ms), cs)) <==> KeepsEnds(ms, cs)
    ensures ms != [] && Sort(ms, cs)[0] != ms[0] ==> SortedObject(Object(ms), cs).link == Missing
    ensures ms != [] && Sort(ms, cs)[0] == ms[0] && !KeepsEnds(ms, cs) ==>
              var link := SortedObject(Object(ms), cs).link;
              link.To? && link.i + 1 < |ms| && Sort(ms, cs)[link.i] == ms[|ms| - 1]
  {
    hide Sort, Order, LinkInOrder, DistinctKeys, Normal;
    if ms != [] {
      var order, last := Order(ms, cs), |ms| - 1;
      SortFollowsOrder(ms, cs);
      DifferentMembers(ms, order[0], 0, cs);
      DifferentMembers(ms, order[last], last, cs);
      EndsOfOrder(order);
      NormalEnds(LinkInOrder(Right, order), |ms|);
    } else {
      EmptyOrder(ms, cs);
    }
  }

  lemma EmptyOrder(ms: seq<Member<Json>>, cs: bool)
    requires ms == []
    ensures Normal(SortedObject(Object(ms), cs).link, |SortedObject(Object(ms), cs).members|).Right?
  {
  }

  lemma NormalEnds(link: Link, n: nat)
    requires n > 0
    ensures link.Right? || link.Missing? || (link.To? && link.i + 1 < n) ==> Normal(link, n) == link
  {
  }

  lemma DifferentMembers(ms: seq<Member<Json>>, i: nat, k: nat, cs: bool)
    requires DistinctKeys(ms, cs) && i < |ms| && k < |ms|
    ensures ms[i] == ms[k] <==> i == k
  {
  }

  /** Appending a member with a new key changes the meaning as it should exactly when the link is right. */
  lemma AppendKeepsAll(j: Json, m: Member<Json>, cs: bool)
    requires j.Object? && DistinctKeys(j.members, cs) && Norm(m.key, cs) !in Norms(j.members, cs)
    ensures AbsMembers(AddedMember(j, m).members, cs) == AbsMembers(j.members, cs)[Norm(m.key, cs) := Abs(m.value, cs)]
            <==> RightLink(j)
  {
    hide AbsMembers, Norm, Abs;
    var ms, link, k := j.members, Normal(j.link, |j.members|), Norm(m.key, cs);
    AbsKeys(ms, cs);
    if link.Right? {
      AbsAppend(ms, m, cs);
    } else if link.To? {
      var left := ms[..link.i + 1] + [m];
      AbsKeys(left, cs);
      LastIsCut(ms, m, link.i, cs);
      assert Norm(ms[|ms| - 1].key, cs) in AbsMembers(ms, cs)[k := Abs(m.value, cs)];
    } else {
      assert k !in AbsMembers(ms, cs);
    }
  }

  lemma LastIsCut(ms: seq<Member<Json>>, m: Member<Json>, i: nat, cs: bool)
    requires DistinctKeys(ms, cs) && Norm(m.key, cs) !in Norms(ms, cs) && i + 1 < |ms|
    ensures var k := Norm(ms[|ms| - 1].key, cs);
            k in Norms(ms, cs) && k !in Norms(ms[..i + 1] + [m], cs)
  {
    hide Norm;
    assert ms[|ms| - 1] in ms;
  }

  // ---------- a patch that aims at a member of the root ----------

  /** The parent of a member of the root is the root. */
  lemma RootPath(k: Str, cs: bool)
    requires Survives(k)
    ensures var p := PathText([Key(k)]);
            p != "" && p == "/" + Encode(k) && LastSlash(p) == Some(0) && p[..0] == "" && DecodeInPlace(p[1..]) == k
  {
    hide Encode, DecodeInPlace, Survives;
    assert PathText([Key(k)]) == "/" + Encode(k) + PathText([Key(k)][1..]) == "/" + Encode(k) + "" == "/" + Encode(k);
    DecodeUndoesEncode(k);
    assert "" + "/" + Encode(k) == "/" + Encode(k);
    LastSlashSplits("", Encode(k));
  }

  lemma InsertAtRoot(d: Json, k: Str, value: Json, cs: bool)
    requires d.Object? && Survives(k)
    ensures Insert(d, PathText([Key(k)]), value, cs) == InsertChild(d, k, value, cs)
  {
    hide PathText, DecodeInPlace, WithoutMember, AddedMember, Appendable;
    RootPath(k, cs);
    assert Get(d, "", cs) == Some([]);
  }

  lemma DetachAtRoot(d: Json, k: Str, cs: bool)
    requires d.Object? && Survives(k)
    ensures Detach(d, PathText([Key(k)]), cs) == DetachChild(d, k)
  {
    hide PathText, DecodeInPlace, DetachChild;
    RootPath(k, cs);
    assert Get(d, "", cs) == Some([]);
  }

  lemma AddAtRoot(d: Json, k: Str, x: Json, cs: bool)
    requires d.Object? && Survives(k)
    ensures Apply(d, Compose("add", PathText([Key(k)]), Some(x)), cs) == InsertChild(d, k, Relinked(x), cs)
  {
    hide Compose, Apply, PathText, InsertChild, Relinked, Survives;
    RootPath(k, cs);
    AddIsInsert(d, PathText([Key(k)]), x, cs);
    InsertAtRoot(d, k, Relinked(x), cs);
  }

  /** A new key does not take anything out. */
  lemma WithoutNew(d: Json, k: Str, cs: bool)
    requires d.Object? && Norm(k, cs) !in Norms(d.members, cs)
    ensures WithoutMember(d, k, cs) == d
  {
    hide Norm;
    assert forall m | m in d.members :: Norm(m.key, cs) in Norms(d.members, cs);
  }

  // ---------- a test in front of an add ----------

  lemma TestOfRoot(doc: Json, value: Json, cs: bool)
    ensures Apply(doc, Compose("test", "", Some(value)), cs)
            == Outcome(if SameSorted(doc, value, cs) then 0 else 1, AfterCompare(doc, value, cs).0)
  {
    hide Compose, GetMember, SameSorted, AfterCompare;
    ReadPatch("test", "", Some(value), cs);
    assert Get(doc, "", cs) == Some([]);
  }

  /** The comparison of two objects leaves the first one with sorted keys and the link of the sort. */
  lemma AfterCompareObject(a: Json, b: Json, cs: bool)
    requires a.Object? && b.Object? && DistinctKeys(a.members, cs)
    ensures var r := AfterCompare(a, b, cs).0;
            r.Object? && r.link == SortedObject(a, cs).link && |r.members| == |a.members|
            && DistinctKeys(r.members, cs) && Norms(r.members, cs) == Norms(a.members, cs)
  {
    hide Norm, Sort, Order, AfterWalk;
    SortCorrect(a.members, cs);
    var s := SortedObject(a, cs).members;
    var r := AfterWalk(a, s, SortedObject(b, cs).members, cs).0;
    DistinctPermutation(a.members, s, cs);
    forall i, k | 0 <= i < k < |r| ensures Norm(r[i].key, cs) != Norm(r[k].key, cs) {
      assert r[i].key == s[i].key && r[k].key == s[k].key;
    }
    SameNorms(s, r, cs);
    SameNormsPermuted(a.members, s, cs);
  }

  lemma SameNorms(xs: seq<Member<Json>>, ys: seq<Member<Json>>, cs: bool)
    requires |xs| == |ys| && forall i | 0 <= i < |xs| :: ys[i].key == xs[i].key
    ensures Norms(xs, cs) == Norms(ys, cs)
  {
    forall n ensures n in Norms(xs, cs) <==> n in Norms(ys, cs) {
      if m :| m in xs && Norm(m.key, cs) == n {
        var i :| 0 <= i < |xs| && xs[i] == m;
        assert ys[i] in ys;
      }
      if m :| m in ys && Norm(m.key, cs) == n {
        var i :| 0 <= i < |ys| && ys[i] == m;
        assert xs[i] in xs;
      }
    }
  }

  lemma SameNormsPermuted(xs: seq<Member<Json>>, ys: seq<Member<Json>>, cs: bool)
    requires multiset(xs) == multiset(ys)
    ensures Norms(xs, cs) == Norms(ys, cs)
  {
    SameMembers(xs, ys);
  }

  /** When a test of the whole document is followed by the add of a new member, both with status 0, then
      nothing is left out exactly when the first and the last member of the document keep their places in
      sorting. */
  lemma TestThenAdd(ms: seq<Member<Json>>, value: Json, k: Str, x: Json, keys: iset<Str>, cs: bool)
    requires Fits(Object(ms), keys, cs) && Fits(value, keys, cs) && Abs(value, cs) == Abs(Object(ms), cs)
    requires Survives(k) && Norm(k, cs) !in Norms(ms, cs)
    ensures var r := ApplyAll(Object(ms), TestAndAdd(value, k, x), cs);
            r.status == 0
            && (Abs(r.root, cs) == VObject(AbsMembers(ms, cs)[Norm(k, cs) := Abs(x, cs)]) <==> KeepsEnds(ms, cs))
  {
    hide Compose, Apply, PathText, SameSorted, Sort, Order, AbsMembers, Norm, AddedMember, DistinctKeys, Survives;
    hide Relinked, AfterCompare, TestAndAdd, Reordered, WithoutMember;
    var doc, tested := Object(ms), AfterCompare(Object(ms), value, cs).0;
    FitsIsStandard(doc, keys, cs);
    FitsIsStandard(value, keys, cs);
    SameSortedMeans(doc, value, cs);
    AfterCompareReorders(doc, value, cs);
    ReorderedMeans(doc, tested, keys, cs);
    AfterCompareObject(doc, value, cs);
    LinkAfterSort(ms, cs);
    RunTestAndAdd(doc, value, k, x, cs);
    AppendKeepsAll(tested, Member(k, Relinked(x)), cs);
    RelinkedMeans(x, cs);
  }

  function TestAndAdd(value: Json, k: Str, x: Json): seq<Json> {
    [Compose("test", "", Some(value)), Compose("add", PathText([Key(k)]), Some(x))]
  }

  lemma RunTestAndAdd(doc: Json, value: Json, k: Str, x: Json, cs: bool)
    requires doc.Object? && value.Object? && DistinctKeys(doc.members, cs) && SameSorted(doc, value, cs)
    requires Survives(k) && Norm(k, cs) !in Norms(doc.members, cs) && doc.link.Right?
    ensures ApplyAll(doc, TestAndAdd(value, k, x), cs)
            == Outcome(0, AddedMember(AfterCompare(doc, value, cs).0, Member(k, Relinked(x))))
  {
    hide Compose, Apply, PathText, SameSorted, Norm, AddedMember, DistinctKeys, Survives, Relinked, AfterCompare;
    hide WithoutMember, Sort, Order, Norms;
    var tested := AfterCompare(doc, value, cs).0;
    TestOfRoot(doc, value, cs);
    AfterCompareObject(doc, value, cs);
    AddAtRoot(tested, k, x, cs);
    WithoutNew(tested, k, cs);
    assert doc == Object(doc.members);
    LinkAfterSort(doc.members, cs);
    assert Appendable(tested);
    var patches, added := TestAndAdd(value, k, x), AddedMember(tested, Member(k, Relinked(x)));
    assert patches[1..] == [patches[1]] && [patches[1]][1..] == [];
    assert Apply(tested, patches[1], cs) == Outcome(0, added);
    assert ApplyAll(tested, [patches[1]], cs) == ApplyAll(added, [], cs);
  }

  /** Two members in the wrong order: the add behind the test reports success, and its member is nowhere. */
  lemma AddBehindTestIsLost(a: Str, b: Str, k: Str, x: Json, cs: bool)
    requires Cmp(a, b, cs) < 0 && Survives(k) && Norm(k, cs) != Norm(a, cs) && Norm(k, cs) != Norm(b, cs)
    ensures var f, g := Member(a, Null), Member(b, Null);
            ApplyAll(Object([g, f]), TestAndAdd(Object([f, g]), k, x), cs) == Outcome(0, Object([f, g], Missing))
  {
    hide Norm, Survives, Cmp, TestAndAdd, AfterCompare, SameSorted, Sort, Order, ApplyAll;
    var f, g := Member(a, Null), Member(b, Null);
    CmpZero(a, b, cs);
    ComparedInOrder(f, g, cs);
    RunTestAndAdd(Object([g, f]), Object([f, g]), k, x, cs);
  }

  lemma ComparedInOrder(f: Member<Json>, g: Member<Json>, cs: bool)
    requires f.value == Null && g.value == Null && Cmp(f.key, g.key, cs) < 0
    ensures SameSorted(Object([g, f]), Object([f, g]), cs)
    ensures AfterCompare(Object([g, f]), Object([f, g]), cs).0 == Object([f, g], Missing)
  {
    hide Cmp, Norm, Sort, Order, AfterWalk, SameWalk;
    var doc := Object([g, f]);
    CmpFlip(f.key, g.key, cs);
    CmpZero(f.key, g.key, cs);
    SortTwo(f, g, cs);
    SortTwo(g, f, cs);
    SortCorrect(doc.members, cs);
    LinkAfterSort(doc.members, cs);
    WalkOfNulls(doc, f, g, cs);
  }

  lemma WalkOfNulls(owner: Json, f: Member<Json>, g: Member<Json>, cs: bool)
    requires f.value == Null && g.value == Null && f.value < owner && g.value < owner
    ensures AfterWalk(owner, [f, g], [f, g], cs).0 == [f, g] && SameWalk(owner, [f, g], [f, g], cs)
  {
    hide Cmp;
    CmpZero(f.key, f.key, cs);
    CmpZero(g.key, g.key, cs);
    assert [f, g][1..] == [g] && [g][1..] == [];
    assert AfterWalk(owner, [g], [g], cs).0 == [g];
    assert SameWalk(owner, [g], [g], cs);
  }
}
