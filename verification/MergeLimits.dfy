/** On which keys the merge patch round trip holds: plain keys are among them, and no others than those that both
    orders of keys agree on. */
module MergeLimits {
  import opened CStrings
  import opened SiblingLinks
  import opened JsonTrees
  import opened Sorting
  import opened Comparing
  import opened Reorderings
  import opened MergePatching
  import opened MergeRoundTrip
  import opened Vocabularies
  import opened BrokenLinks
  import opened Limits

  /** The trees over a vocabulary for which the round trip is promised: any document in order that equals
      `from` up to member order. */
  ghost predicate MergeDomain(from: Json, to: Json, doc: Json, keys: iset<Str>) {
    Fits(from, keys, true) && Fits(to, keys, true) && Fits(doc, keys, true) && WellLinked(doc)
    && Abs(doc, true) == Abs(from, true)
  }

  /** No patch is generated only if nothing differs, and merging the generated patch into the document yields `to`
      exactly when every null member of `to` reached through objects is already there. */
  ghost predicate MergeTrips(from: Json, to: Json, doc: Json, cs: bool) {
    match GenerateMerge(from, to, cs)
    case None => Abs(from, true) == Abs(to, true)
    case Some(patch) =>
      Abs(Merge(Some(doc), patch, cs), true) == Abs(to, true) <==> NullsCovered(Abs(from, true), Abs(to, true))
  }

  /** The merge patch round trip on plain keys, in either mode, with its exact condition. */
  lemma PlainMergesReachTarget(from: Json, to: Json, doc: Json, cs: bool)
    requires MergeDomain(from, to, doc, PlainKeys())
    ensures MergeTrips(from, to, doc, cs)
  {
    hide MergeTrips, MergeDomain, Agreeing;
    PlainKeysAreSafe(cs);
    DomainTrips(from, to, doc, PlainKeys(), cs);
  }

  // ----- Keys whose two orders differ -----

  /** Where the orders part ways, two different keys can be in one order ignoring case and in the other one
      by strcmp. */
  lemma Disagreement(keys: iset<Str>) returns (p: Str, q: Str)
    requires !Agreeing(keys)
    ensures p in keys && q in keys && p != q && Cmp(p, q, false) <= 0 && Cmp(p, q, true) > 0
  {
    var a, b :| a in keys && b in keys
                && !((Cmp(a, b, false) < 0 <==> Cmp(a, b, true) < 0) && (Norm(a, false) == Norm(b, false) ==> a == b));
    CmpZero(a, b, false);
    CmpZero(a, b, true);
    CmpFlip(a, b, false);
    CmpFlip(b, a, false);
    CmpFlip(a, b, true);
    CmpFlip(b, a, true);
    if Cmp(a, b, true) > 0 && Cmp(a, b, false) <= 0 { return a, b; }
    return b, a;
  }

  function Leaf(k: Str): Member<Json> {
    Member(k, True)
  }

  /** The patch that is generated between {q, p} and {q}: it sets q, and deletes p and q. */
  function LostPatch(p: Str, q: Str): seq<Member<Json>> {
    [Leaf(q), Member(p, Null), Member(q, Null)]
  }

  lemma LostWalk(bound: nat, p: Str, q: Str)
    requires Cmp(p, q, true) > 0 && bound > 0
    ensures MergeWalk(bound, [Leaf(p), Leaf(q)], [Leaf(q)], false) == LostPatch(p, q)
  {
    hide Cmp, SameSorted, GenerateMerge, AfterCompare;
    var f, g := Leaf(p), Leaf(q);
    assert [f, g][1..] == [g] && [g][1..] == [];
    assert MergeWalk(bound, [], [], false) == [];
    assert MergeWalk(bound, [g], [], false) == [Member(q, Null)] + MergeWalk(bound, [], [], false) == [Member(q, Null)];
    assert MergeWalk(bound, [f, g], [], false) == [Member(p, Null)] + MergeWalk(bound, [g], [], false);
    assert MergeWalk(bound, [f, g], [g], false) == [g] + MergeWalk(bound, [f, g], [], false);
  }

  lemma LostGenerated(link: Link, link': Link, p: Str, q: Str)
    requires Cmp(p, q, false) <= 0 && Cmp(p, q, true) > 0
    ensures GenerateMerge(Object([Leaf(q), Leaf(p)], link), Object([Leaf(q)], link'), false)
            == Some(Object(LostPatch(p, q)))
  {
    hide Cmp, Sort, MergeWalk;
    var from := Object([Leaf(q), Leaf(p)], link);
    CmpFlip(q, p, false);
    SortTwo(Leaf(q), Leaf(p), false);
    SortUnfolds([Leaf(q)], false);
    SortedDepth(from, false);
    LostWalk(Depth(from), p, q);
  }

  /** Merged, it leaves nothing. */
  lemma LostMerged(p: Str, q: Str, cs: bool)
    requires p != q
    ensures MergeInto(Object([Leaf(q), Leaf(p)]), LostPatch(p, q), cs) == Object([])
  {
    hide Norm, Merge, OneMerged;
    var patch := LostPatch(p, q);
    var first, second, third := Object([Leaf(q), Leaf(p)]), Object([Leaf(p), Leaf(q)]), Object([Leaf(q)]);
    LostRounds(p, q, cs);
    assert patch[1..] == [patch[1], patch[2]] && patch[1..][1..] == [patch[2]] && [patch[2]][1..] == [];
    assert MergeInto(third, [patch[2]], cs) == MergeInto(Object([]), [], cs);
    assert MergeInto(second, patch[1..], cs) == MergeInto(third, [patch[2]], cs);
  }

  lemma LostRounds(p: Str, q: Str, cs: bool)
    requires p != q
    ensures OneMerged(Object([Leaf(q), Leaf(p)]), Leaf(q), cs) == Object([Leaf(p), Leaf(q)])
    ensures OneMerged(Object([Leaf(p), Leaf(q)]), Member(p, Null), cs) == Object([Leaf(q)])
    ensures OneMerged(Object([Leaf(q)]), Member(q, Null), cs) == Object([])
  {
    hide Norm, Merge;
    var first := Object([Leaf(q), Leaf(p)]);
    LeafMerged(first, q, cs);
    assert WithoutMember(first, q, cs) == Object([Leaf(p)]);
  }

  lemma LeafMerged(j: Json, q: Str, cs: bool)
    ensures Merge(GetMember(j, q, cs), True, cs) == True
  {
  }

  // ----- The two modes -----

  lemma TwoFit(p: Str, q: Str, keys: iset<Str>)
    requires p in keys && q in keys && p != q
    ensures MergeDomain(Object([Leaf(q), Leaf(p)]), Object([Leaf(q)]), Object([Leaf(q), Leaf(p)]), keys)
  {
  }

  lemma TwoCovered(p: Str, q: Str)
    ensures NullsCovered(Abs(Object([Leaf(q), Leaf(p)]), true), Abs(Object([Leaf(q)]), true))
    ensures Abs(Object([]), true) != Abs(Object([Leaf(q)]), true)
    ensures p != q ==> Abs(Object([Leaf(q), Leaf(p)]), true) != Abs(Object([Leaf(q)]), true)
  {
    var t, f := [Leaf(q)], [Leaf(q), Leaf(p)];
    AbsKeys(t, true);
    AbsKeys(f, true);
    assert t[0] in t && f[1] in f;
    assert t[1..] == [];
    assert AbsMembers(t, true) == map[Norm(q, true) := VTrue];
    assert Norm(q, true) in AbsMembers(t, true) && p != q ==> Norm(p, true) !in AbsMembers(t, true);
  }

  /** Ignoring case, the round trip fails on any two such keys. */
  lemma CaselessMergeFails(p: Str, q: Str)
    requires p != q && Cmp(p, q, false) <= 0 && Cmp(p, q, true) > 0
    ensures var from := Object([Leaf(q), Leaf(p)]);
            !MergeTrips(from, Object([Leaf(q)]), from, false)
  {
    hide GenerateMerge, MergeInto, NullsCovered, Cmp, Abs;
    LostGenerated(Right, Right, p, q);
    LostMerged(p, q, false);
    TwoCovered(p, q);
  }

  /** One level down it fails in case-sensitive mode, too, because nested patches are generated ignoring case. */
  lemma NestedMergeFails(p: Str, q: Str)
    requires p != q && Cmp(p, q, false) <= 0 && Cmp(p, q, true) > 0
    ensures var f, t := Object([Leaf(q), Leaf(p)]), Object([Leaf(q)]);
            var from, to := Object([Member(p, f)]), Object([Member(p, t)]);
            !MergeTrips(from, to, from, true)
  {
    hide GenerateMerge, MergeInto, NullsCovered, Cmp, Abs, Merge;
    var f, t := Object([Leaf(q), Leaf(p)]), Object([Leaf(q)]);
    var from, to := Object([Member(p, f)]), Object([Member(p, t)]);
    NestedGenerated(p, q);
    NestedMerged(p, q);
    TwoCovered(p, q);
    NestedCovered(p, f, t);
    OneMember(p, t);
    OneMember(p, Object([]));
    var wanted, left := Abs(t, true), Abs(Object([]), true);
    assert map[p := wanted][p] == wanted && map[p := left][p] == left;
  }

  lemma OneMember(k: Str, x: Json)
    ensures Abs(Object([Member(k, x)]), true) == VObject(map[k := Abs(x, true)])
  {
    hide Abs;
    var ms := [Member(k, x)];
    assert ms[1..] == [] && AbsMembers([], true) == map[];
    assert AbsMembers(ms, true) == map[][k := Abs(x, true)] == map[k := Abs(x, true)];
    ObjectAbs(Object(ms), true);
  }

  lemma NestedCovered(k: Str, f: Json, t: Json)
    requires NullsCovered(Abs(f, true), Abs(t, true)) && t.Object?
    ensures NullsCovered(Abs(Object([Member(k, f)]), true), Abs(Object([Member(k, t)]), true))
  {
    OneMember(k, f);
    OneMember(k, t);
  }

  /** The comparison has sorted {q, p} already, and found it in order. */
  lemma NestedCompared(p: Str, q: Str)
    requires p != q && Cmp(p, q, false) <= 0 && Cmp(p, q, true) > 0
    ensures var f, t := Object([Leaf(q), Leaf(p)]), Object([Leaf(q)]);
            var (f', t') := AfterCompare(f, t, true);
            !SameSorted(f, t, true) && f'.Object? && t'.Object? && f'.members == f.members && t'.members == t.members
  {
    hide Cmp, Sort, Order, AfterWalk, SameWalk, Sorted;
    var f, t := Object([Leaf(q), Leaf(p)]), Object([Leaf(q)]);
    CmpFlip(q, p, true);
    SortTwo(Leaf(q), Leaf(p), true);
    SortUnfolds([Leaf(q)], true);
    SortCorrect(f.members, true);
    LeftInWalk(f, Leaf(q), Leaf(p));
  }

  lemma LeftInWalk(owner: Json, f: Member<Json>, g: Member<Json>)
    requires f.value < owner && g.value < owner && SameSorted(f.value, f.value, true)
    requires AfterCompare(f.value, f.value, true) == (f.value, f.value)
    ensures !SameWalk(owner, [f, g], [f], true) && AfterWalk(owner, [f, g], [f], true) == ([f, g], [f])
  {
    hide Cmp, SameSorted, AfterCompare;
    CmpZero(f.key, f.key, true);
    assert [f, g][1..] == [g] && [f][1..] == [];
    assert AfterWalk(owner, [g], [], true) == ([g], []) && !SameWalk(owner, [g], [], true);
    assert Member(f.key, f.value) == f && [f] + [g] == [f, g] && [f] + [] == [f];
  }

  lemma NestedGenerated(p: Str, q: Str)
    requires p != q && Cmp(p, q, false) <= 0 && Cmp(p, q, true) > 0
    ensures var f, t := Object([Leaf(q), Leaf(p)]), Object([Leaf(q)]);
            GenerateMerge(Object([Member(p, f)]), Object([Member(p, t)]), true)
            == Some(Object([Member(p, Object(LostPatch(p, q)))]))
  {
    hide Cmp, Sort, MergeWalk, AfterCompare, SameSorted;
    var f, t := Object([Leaf(q), Leaf(p)]), Object([Leaf(q)]);
    var from, to := Object([Member(p, f)]), Object([Member(p, t)]);
    SortUnfolds(from.members, true);
    SortUnfolds(to.members, true);
    SortedDepth(from, true);
    NestedCompared(p, q);
    var (f', t') := AfterCompare(f, t, true);
    LostGenerated(f'.link, t'.link, p, q);
    OnePair(Depth(from), p, f, t, Object(LostPatch(p, q)));
  }

  lemma OnePair(bound: nat, k: Str, f: Json, t: Json, nested: Json)
    requires Depth(f) < bound && !SameSorted(f, t, true)
    requires GenerateMerge(AfterCompare(f, t, true).0, AfterCompare(f, t, true).1, false) == Some(nested)
    ensures MergeWalk(bound, [Member(k, f)], [Member(k, t)], true) == [Member(k, nested)]
  {
    hide Cmp, GenerateMerge, AfterCompare, SameSorted;
    CmpZero(k, k, true);
    var fs, ts := [Member(k, f)], [Member(k, t)];
    assert fs[1..] == [] && ts[1..] == [];
    assert MergeWalk(bound, [], [], true) == [];
  }

  lemma NestedMerged(p: Str, q: Str)
    requires p != q
    ensures var from := Object([Member(p, Object([Leaf(q), Leaf(p)]))]);
            Merge(Some(from), Object([Member(p, Object(LostPatch(p, q)))]), true) == Object([Member(p, Object([]))])
  {
    hide MergeInto, Norm;
    var f, patch := Object([Leaf(q), Leaf(p)]), Object(LostPatch(p, q));
    var from, ps := Object([Member(p, f)]), [Member(p, patch)];
    LostMerged(p, q, true);
    assert Merge(Some(f), patch, true) == Object([]);
    assert OneMerged(from, ps[0], true) == Object([Member(p, Object([]))]);
    assert ps[1..] == [];
    MergeOne(from, ps[0]);
  }

  lemma MergeOne(j: Json, p: Member<Json>)
    requires j.Object?
    ensures MergeInto(j, [p], true) == OneMerged(j, p, true)
  {
    hide OneMerged;
    assert [p][1..] == [];
    assert MergeInto(OneMerged(j, p, true), [], true) == OneMerged(j, p, true);
  }

  lemma NestedFit(p: Str, q: Str, keys: iset<Str>)
    requires p in keys && q in keys && p != q
    ensures var f, t := Object([Leaf(q), Leaf(p)]), Object([Leaf(q)]);
            var from, to := Object([Member(p, f)]), Object([Member(p, t)]);
            MergeDomain(from, to, from, keys)
  {
    TwoFit(p, q, keys);
  }

  /** In either mode the merge patch round trip holds for all trees over a vocabulary exactly when strcmp and the
      comparison that ignores case agree on its keys. */
  lemma AgreeingIsExact(keys: iset<Str>, cs: bool)
    ensures Agreeing(keys) <==>
            forall from, to, doc | MergeDomain(from, to, doc, keys) :: MergeTrips(from, to, doc, cs)
  {
    hide MergeTrips, MergeDomain, Cmp;
    if Agreeing(keys) {
      forall from, to, doc | MergeDomain(from, to, doc, keys) ensures MergeTrips(from, to, doc, cs) {
        DomainTrips(from, to, doc, keys, cs);
      }
    } else {
      var p, q := Disagreement(keys);
      if cs {
        NestedMergeFails(p, q);
        NestedFit(p, q, keys);
      } else {
        CaselessMergeFails(p, q);
        TwoFit(p, q, keys);
      }
    }
  }

  lemma DomainTrips(from: Json, to: Json, doc: Json, keys: iset<Str>, cs: bool)
    requires Agreeing(keys) && MergeDomain(from, to, doc, keys)
    ensures MergeTrips(from, to, doc, cs)
  {
    hide GenerateMerge, Merge, NullsCovered, Abs, Fits, WellLinked, Mergeable, Agreeing;
    MergeReachesTarget(from, to, doc, keys, cs);
  }
}
