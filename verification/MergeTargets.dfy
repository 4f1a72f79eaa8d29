/** Merging into a target whose links may be broken, as they are in a document that a patch was generated from:
    exactly when the result still means what section 2 of RFC 7396 says. */
module MergeTargets {
  import opened CStrings
  import opened SiblingLinks
  import opened JsonTrees
  import opened Sorting
  import opened Comparing
  import opened Vocabularies
  import opened Reorderings
  import opened MergePatching
  import opened MergeRoundTrip
  import opened BrokenLinks

  /** Merging gives a member its value also when the old one has been lost: the patch deletes it, or makes the same
      of it as of nothing. */
  ghost predicate Mended(k: Str, lost: Val, p: map<Str, Val>) {
    k in p && (p[k] == VNull || RfcMerge(VNull, p[k]) == RfcMerge(lost, p[k]))
  }

  /** Appending to an object whose link is right loses nothing; a link to an earlier member costs the members
      behind that one, which must then be mended by the rest of the patch; without a link the item is lost. */
  ghost predicate NothingLost(j: Json, rest: map<Str, Val>, cs: bool)
    requires j.Object?
  {
    match Normal(j.link, |j.members|)
    case Right => true
    case To(i) =>
      forall k | i < k < |j.members| :: Mended(Norm(j.members[k].key, cs), Abs(j.members[k].value, cs), rest)
    case _ => false
  }

  /** At every member that is merged, the old value survives the merging, and nothing is lost by appending. */
  ghost predicate MergeKeeps(target: Option<Json>, patch: Json, cs: bool)
    decreases patch
  {
    patch.Object? ==> KeepsInto(Base(target), patch.members, cs)
  }

  ghost predicate KeepsInto(j: Json, ps: seq<Member<Json>>, cs: bool)
    requires j.Object?
    decreases ps
  {
    ps != [] ==>
      (ps[0].value.Null? || (MergeKeeps(GetMember(j, ps[0].key, cs), ps[0].value, cs)
                             && NothingLost(WithoutMember(j, ps[0].key, cs), AbsMembers(ps[1..], cs), cs)))
      && KeepsInto(OneMerged(j, ps[0], cs), ps[1..], cs)
  }

  /** What merging promises. */
  ghost predicate MergesRight(target: Option<Json>, patch: Json, cs: bool) {
    Mergeable(target, patch, cs) && Abs(Merge(target, patch, cs), cs) == RfcMerge(MeaningOf(target, cs), Abs(patch, cs))
  }

  ghost predicate IntoRight(j: Json, ps: seq<Member<Json>>, ideal: map<Str, Val>, cs: bool)
    requires j.Object?
  {
    MergeableInto(j, ps, cs)
    && AbsMembers(MergeInto(j, ps, cs).members, cs) == RfcFields(ideal, AbsMembers(ps, cs))
  }

  // ---------- keys stay distinct ----------

  lemma {:induction false} MergedUnique(target: Option<Json>, patch: Json, cs: bool)
    requires Unique(patch, cs) && (target.Some? ==> Unique(target.value, cs))
    ensures Unique(Merge(target, patch, cs), cs)
    decreases patch
  {
    match patch
    case Object(ps, _) => IntoUnique(Base(target), ps, cs);
    case _ => RelinkedUnique(patch, cs);
  }

  lemma {:induction false} IntoUnique(j: Json, ps: seq<Member<Json>>, cs: bool)
    requires j.Object? && Unique(j, cs) && Unique(Object(ps), cs)
    ensures Unique(MergeInto(j, ps, cs), cs)
    ensures AbsMembers(MergeInto(j, ps, cs).members, cs).Keys
            <= AbsMembers(j.members, cs).Keys + AbsMembers(ps, cs).Keys
    decreases ps
  {
    if ps != [] {
      hide AbsMembers, Norm, Unique, OneMerged, Abs;
      SplitUnique(ps, cs);
      OneUnique(j, ps[0], cs);
      IntoUnique(OneMerged(j, ps[0], cs), ps[1..], cs);
    }
  }

  lemma {:induction false} OneUnique(j: Json, p: Member<Json>, cs: bool)
    requires j.Object? && Unique(j, cs) && Unique(p.value, cs)
    ensures Unique(OneMerged(j, p, cs), cs)
    ensures AbsMembers(OneMerged(j, p, cs).members, cs).Keys <= AbsMembers(j.members, cs).Keys + {Norm(p.key, cs)}
    decreases p
  {
    hide AbsMembers, Norm, Unique, Abs, Merge, WithoutMember, AddedMember, GetMember;
    DetachedUnique(j, p.key, cs);
    if !p.value.Null? {
      var was := GetMember(j, p.key, cs);
      MergedUnique(was, p.value, cs);
      AddedUnique(WithoutMember(j, p.key, cs), Member(p.key, Merge(was, p.value, cs)), cs);
    }
  }

  /** Detaching a member, whatever the links. */
  lemma DetachedUnique(j: Json, name: Str, cs: bool)
    requires j.Object? && Unique(j, cs)
    ensures var w, m, k := WithoutMember(j, name, cs), AbsMembers(j.members, cs), Norm(name, cs);
            Unique(w, cs) && AbsMembers(w.members, cs) == m - {k} && k !in Norms(w.members, cs)
    ensures var r, m, k := GetMember(j, name, cs), AbsMembers(j.members, cs), Norm(name, cs);
            (r.Some? <==> k in m) && (r.Some? ==> Unique(r.value, cs) && Abs(r.value, cs) == m[k])
  {
    hide AbsMembers, Norm, Abs;
    AbsLookup(j.members, name, cs);
    WithoutMeans(j.members, name, cs);
    WithoutPart(j.members, name, cs);
    var i := FindKey(j.members, name, cs);
    if i < |j.members| { assert j.members[i] in j.members; }
  }

  /** The members that appending leaves in front of the new one. */
  function Front(j: Json): (ms: seq<Member<Json>>)
    requires j.Object?
  {
    match Normal(j.link, |j.members|)
    case To(i) => j.members[..i + 1]
    case _ => j.members
  }

  predicate HasLink(j: Json)
    requires j.Object?
  {
    var link := Normal(j.link, |j.members|);
    link.Right? || link.To?
  }

  lemma AddedUnique(j: Json, m: Member<Json>, cs: bool)
    requires j.Object? && Unique(j, cs) && Unique(m.value, cs) && Norm(m.key, cs) !in Norms(j.members, cs)
    ensures Unique(AddedMember(j, m), cs)
    ensures AbsMembers(AddedMember(j, m).members, cs).Keys <= AbsMembers(j.members, cs).Keys + {Norm(m.key, cs)}
    ensures !HasLink(j) ==> AddedMember(j, m).members == j.members
    ensures HasLink(j) ==>
              AddedMember(j, m).link == Right
              && AbsMembers(AddedMember(j, m).members, cs)
                 == AbsMembers(Front(j), cs)[Norm(m.key, cs) := Abs(m.value, cs)]
  {
    hide AbsMembers, Norm, Abs;
    if HasLink(j) {
      FrontMeans(j, cs);
      FrontDistinct(j, cs);
      AbsAppend(Front(j), m, cs);
    }
  }

  lemma FrontDistinct(j: Json, cs: bool)
    requires j.Object? && Unique(j, cs)
    ensures DistinctKeys(Front(j), cs) && forall m | m in Front(j) :: m in j.members
  {
    hide Norm;
  }

  /** What is left in front means what it did. */
  lemma FrontMeans(j: Json, cs: bool)
    requires j.Object? && Unique(j, cs)
    ensures var f, m := AbsMembers(Front(j), cs), AbsMembers(j.members, cs);
            f.Keys <= m.Keys && (forall k | k in f :: f[k] == m[k])
    ensures Normal(j.link, |j.members|).Right? ==> AbsMembers(Front(j), cs) == AbsMembers(j.members, cs)
  {
    hide AbsMembers, Norm, Abs;
    var fs := Front(j);
    FrontDistinct(j, cs);
    AbsKeys(fs, cs);
    AbsKeys(j.members, cs);
    forall k | k in AbsMembers(fs, cs)
      ensures k in AbsMembers(j.members, cs) && AbsMembers(fs, cs)[k] == AbsMembers(j.members, cs)[k]
    {
      var m :| m in fs && Norm(m.key, cs) == k;
      AbsOf(fs, m, cs);
      AbsOf(j.members, m, cs);
    }
  }

  // ---------- the exact condition ----------

  /** One member of the map of RfcMerge. */
  lemma FieldsStep(t: map<Str, Val>, p: map<Str, Val>, k: Str, x: Val)
    requires k !in p
    ensures x == VNull ==> RfcFields(t, p[k := x]) == RfcFields(t - {k}, p)
    ensures x != VNull ==> RfcFields(t, p[k := x]) == RfcFields(t[k := RfcMerge(ValueAt(t, k), x)], p)
  {
    hide RfcMerge;
    MergeStep(t, p, k, x);
  }

  function ValueAt(t: map<Str, Val>, k: Str): Val {
    if k in t then t[k] else VNull
  }

  /** The ideal object and the real one may differ, but not where both have a member that is still to be merged. */
  ghost predicate Compatible(real': map<Str, Val>, ideal: map<Str, Val>, p: map<Str, Val>) {
    forall k | k in p && k in real' :: k in ideal && ideal[k] == real'[k]
  }

  /** Two maps get equal by merging only if they agree on what is not merged. */
  lemma NotMerged(a: map<Str, Val>, b: map<Str, Val>, p: map<Str, Val>, k: Str)
    requires RfcFields(a, p) == RfcFields(b, p) && k !in p && k in a && k in b
    ensures a[k] == b[k]
  {
    hide RfcMerge;
    assert k in RfcFields(a, p) && k in RfcFields(b, p);
  }

  /** Merging into an object with its link: it does what it should to the ideal object exactly when it does so to
      the real one at every member, and the two become the same. */
  lemma {:induction false} RightExact(j: Json, ps: seq<Member<Json>>, ideal: map<Str, Val>, cs: bool)
    requires j.Object? && j.link.Right? && Unique(j, cs) && Unique(Object(ps), cs)
    requires Compatible(AbsMembers(j.members, cs), ideal, AbsMembers(ps, cs))
    ensures IntoRight(j, ps, ideal, cs)
            <==> KeepsInto(j, ps, cs)
                 && RfcFields(AbsMembers(j.members, cs), AbsMembers(ps, cs)) == RfcFields(ideal, AbsMembers(ps, cs))
    decreases ps
  {
    if ps == [] {
      NothingMerged(AbsMembers(j.members, cs));
      NothingMerged(ideal);
    } else if ps[0].value.Null? {
      RightNull(j, ps, ideal, cs);
    } else {
      RightMember(j, ps, ideal, cs);
    }
  }

  lemma NothingMerged(t: map<Str, Val>)
    ensures RfcFields(t, map[]) == t
  {
  }

  lemma {:induction false} RightNull(j: Json, ps: seq<Member<Json>>, ideal: map<Str, Val>, cs: bool)
    requires ps != [] && ps[0].value.Null?
    requires j.Object? && j.link.Right? && Unique(j, cs) && Unique(Object(ps), cs)
    requires Compatible(AbsMembers(j.members, cs), ideal, AbsMembers(ps, cs))
    ensures IntoRight(j, ps, ideal, cs)
            <==> KeepsInto(j, ps, cs)
                 && RfcFields(AbsMembers(j.members, cs), AbsMembers(ps, cs)) == RfcFields(ideal, AbsMembers(ps, cs))
    decreases ps, 0
  {
    hide AbsMembers, Norm, Unique, Abs, OneMerged, RfcFields, RfcMerge, MergeKeeps, Mergeable, WithoutMember;
    hide GetMember, Appendable;
    var k, x, rest := Norm(ps[0].key, cs), Abs(ps[0].value, cs), AbsMembers(ps[1..], cs);
    SplitUnique(ps, cs);
    AbsNonNull(ps[0].value, cs);
    FieldsStep(AbsMembers(j.members, cs), rest, k, x);
    FieldsStep(ideal, rest, k, x);
    RightDeleted(j, ps[0], cs);
    RightExact(OneMerged(j, ps[0], cs), ps[1..], ideal - {k}, cs);
  }

  lemma RightDeleted(j: Json, p: Member<Json>, cs: bool)
    requires j.Object? && j.link.Right? && Unique(j, cs) && p.value.Null?
    ensures var r := OneMerged(j, p, cs);
            r.link.Right? && Unique(r, cs)
            && AbsMembers(r.members, cs) == AbsMembers(j.members, cs) - {Norm(p.key, cs)}
  {
    hide AbsMembers, Norm, Unique, Abs;
    DetachedUnique(j, p.key, cs);
  }

  /** A member that is not null, merged into an object with its link. */
  lemma RightMerged(j: Json, p: Member<Json>, cs: bool)
    requires j.Object? && j.link.Right? && Unique(j, cs) && Unique(p.value, cs) && !p.value.Null?
    ensures var r, k := OneMerged(j, p, cs), Norm(p.key, cs);
            r.link.Right? && Unique(r, cs) && Appendable(WithoutMember(j, p.key, cs))
            && Normal(WithoutMember(j, p.key, cs).link, |WithoutMember(j, p.key, cs).members|).Right?
            && AbsMembers(r.members, cs)
               == AbsMembers(j.members, cs)[k := Abs(Merge(GetMember(j, p.key, cs), p.value, cs), cs)]
  {
    hide AbsMembers, Norm, Unique, Abs, Merge, AddedMember;
    var was, w := GetMember(j, p.key, cs), WithoutMember(j, p.key, cs);
    DetachedUnique(j, p.key, cs);
    MergedUnique(was, p.value, cs);
    AddedUnique(w, Member(p.key, Merge(was, p.value, cs)), cs);
    FrontMeans(w, cs);
  }

  lemma {:induction false} RightMember(j: Json, ps: seq<Member<Json>>, ideal: map<Str, Val>, cs: bool)
    requires ps != [] && !ps[0].value.Null?
    requires j.Object? && j.link.Right? && Unique(j, cs) && Unique(Object(ps), cs)
    requires Compatible(AbsMembers(j.members, cs), ideal, AbsMembers(ps, cs))
    ensures IntoRight(j, ps, ideal, cs)
            <==> KeepsInto(j, ps, cs)
                 && RfcFields(AbsMembers(j.members, cs), AbsMembers(ps, cs)) == RfcFields(ideal, AbsMembers(ps, cs))
    decreases ps, 0
  {
    hide AbsMembers, Norm, Unique, Abs, OneMerged, RfcFields, RfcMerge, MergeKeeps, Mergeable, WithoutMember;
    hide Merge, GetMember, Appendable;
    var k, x, rest := Norm(ps[0].key, cs), Abs(ps[0].value, cs), AbsMembers(ps[1..], cs);
    var m, was, next := AbsMembers(j.members, cs), GetMember(j, ps[0].key, cs), OneMerged(j, ps[0], cs);
    var y, z := Abs(Merge(was, ps[0].value, cs), cs), RfcMerge(ValueAt(ideal, k), x);
    SplitUnique(ps, cs);
    AbsNonNull(ps[0].value, cs);
    FieldsStep(m, rest, k, x);
    FieldsStep(ideal, rest, k, x);
    RightMerged(j, ps[0], cs);
    RightExact(next, ps[1..], ideal[k := z], cs);
    ValueExact(j, ps[0], cs);
    if RfcFields(m[k := y], rest) == RfcFields(ideal[k := z], rest) {
      NotMerged(m[k := y], ideal[k := z], rest, k);
    }
  }

  /** The value of one member: nothing can go wrong where there was none. */
  lemma {:induction false} ValueExact(j: Json, p: Member<Json>, cs: bool)
    requires j.Object? && Unique(j, cs) && Unique(p.value, cs)
    ensures var was, m, k := GetMember(j, p.key, cs), AbsMembers(j.members, cs), Norm(p.key, cs);
            MeaningOf(was, cs) == ValueAt(m, k)
            && (MergesRight(was, p.value, cs) <==> MergeKeeps(was, p.value, cs))
            && (k !in m ==> MergesRight(was, p.value, cs))
    decreases p
  {
    hide AbsMembers, Norm, Unique, Abs, Merge, Mergeable, MergeKeeps, GetMember;
    DetachedUnique(j, p.key, cs);
    var was := GetMember(j, p.key, cs);
    MergeExact(was, p.value, cs);
    if was.None? { MergeMeans(was, p.value, cs); }
  }

  /** Merging does what section 2 of RFC 7396 says exactly when it keeps everything. */
  lemma {:induction false} MergeExact(target: Option<Json>, patch: Json, cs: bool)
    requires Unique(patch, cs) && (target.Some? ==> Unique(target.value, cs))
    ensures Mergeable(target, patch, cs) && Abs(Merge(target, patch, cs), cs)
                                            == RfcMerge(MeaningOf(target, cs), Abs(patch, cs))
            <==> MergeKeeps(target, patch, cs)
    decreases patch
  {
    hide RfcMerge, RfcFields, KeepsInto, MergeInto, MergeableInto;
    match patch
    case Object(ps, _) =>
      IntoExact(Base(target), ps, cs);
      RfcObject(MeaningOf(target, cs), AbsMembers(ps, cs));
    case _ =>
      RfcOther(MeaningOf(target, cs), Abs(patch, cs));
      RelinkedMeans(patch, cs);
  }

  lemma {:induction false} IntoExact(j: Json, ps: seq<Member<Json>>, cs: bool)
    requires j.Object? && Unique(j, cs) && Unique(Object(ps), cs)
    ensures IntoRight(j, ps, AbsMembers(j.members, cs), cs) <==> KeepsInto(j, ps, cs)
    decreases ps
  {
    if ps == [] {
      NothingMerged(AbsMembers(j.members, cs));
    } else if ps[0].value.Null? {
      IntoNull(j, ps, cs);
    } else if HasLink(WithoutMember(j, ps[0].key, cs)) {
      IntoLinked(j, ps, cs);
    } else {
      IntoBroken(j, ps, cs);
    }
  }

  lemma {:induction false} IntoNull(j: Json, ps: seq<Member<Json>>, cs: bool)
    requires ps != [] && ps[0].value.Null?
    requires j.Object? && Unique(j, cs) && Unique(Object(ps), cs)
    ensures IntoRight(j, ps, AbsMembers(j.members, cs), cs) <==> KeepsInto(j, ps, cs)
    decreases ps, 0
  {
    hide AbsMembers, Norm, Unique, Abs, RfcFields, RfcMerge, MergeKeeps, Mergeable, WithoutMember;
    hide GetMember, Appendable;
    var k, x, rest := Norm(ps[0].key, cs), Abs(ps[0].value, cs), AbsMembers(ps[1..], cs);
    SplitUnique(ps, cs);
    AbsNonNull(ps[0].value, cs);
    FieldsStep(AbsMembers(j.members, cs), rest, k, x);
    DetachedUnique(j, ps[0].key, cs);
    IntoExact(OneMerged(j, ps[0], cs), ps[1..], cs);
  }

  /** Without the link the appended member is lost, and no later one brings it back. */
  lemma IntoBroken(j: Json, ps: seq<Member<Json>>, cs: bool)
    requires ps != [] && !ps[0].value.Null?
    requires j.Object? && Unique(j, cs) && Unique(Object(ps), cs)
    requires !HasLink(WithoutMember(j, ps[0].key, cs))
    ensures !IntoRight(j, ps, AbsMembers(j.members, cs), cs) && !KeepsInto(j, ps, cs)
  {
    hide AbsMembers, Norm, Unique, Abs, RfcFields, RfcMerge, MergeKeeps, Mergeable, WithoutMember, Merge, GetMember;
    var w, k := WithoutMember(j, ps[0].key, cs), Norm(ps[0].key, cs);
    SplitUnique(ps, cs);
    AbsNonNull(ps[0].value, cs);
    DetachedUnique(j, ps[0].key, cs);
    OneUnique(j, ps[0], cs);
    var next := OneMerged(j, ps[0], cs);
    assert next.members == w.members;
    IntoUnique(next, ps[1..], cs);
    KeptKey(AbsMembers(j.members, cs), AbsMembers(ps, cs), k);
  }

  lemma KeptKey(t: map<Str, Val>, p: map<Str, Val>, k: Str)
    requires k in p && p[k] != VNull
    ensures k in RfcFields(t, p)
  {
    hide RfcMerge;
  }

  lemma {:induction false} IntoLinked(j: Json, ps: seq<Member<Json>>, cs: bool)
    requires ps != [] && !ps[0].value.Null?
    requires j.Object? && Unique(j, cs) && Unique(Object(ps), cs)
    requires HasLink(WithoutMember(j, ps[0].key, cs))
    ensures IntoRight(j, ps, AbsMembers(j.members, cs), cs) <==> KeepsInto(j, ps, cs)
    decreases ps, 0
  {
    hide AbsMembers, Norm, Unique, Abs, RfcFields, RfcMerge, MergeKeeps, Mergeable, WithoutMember, Merge, GetMember;
    hide Front, NothingLost, AddedMember;
    var was, w := GetMember(j, ps[0].key, cs), WithoutMember(j, ps[0].key, cs);
    var k, x, rest := Norm(ps[0].key, cs), Abs(ps[0].value, cs), AbsMembers(ps[1..], cs);
    var m, f := AbsMembers(j.members, cs), AbsMembers(Front(w), cs);
    var y, z := Abs(Merge(was, ps[0].value, cs), cs), RfcMerge(ValueAt(m, k), x);
    SplitUnique(ps, cs);
    AbsNonNull(ps[0].value, cs);
    FieldsStep(m, rest, k, x);
    DetachedUnique(j, ps[0].key, cs);
    MergedUnique(was, ps[0].value, cs);
    AddedUnique(w, Member(ps[0].key, Merge(was, ps[0].value, cs)), cs);
    FrontMeans(w, cs);
    RightExact(OneMerged(j, ps[0], cs), ps[1..], m[k := z], cs);
    ValueExact(j, ps[0], cs);
    LossExact(w, rest, cs);
    AtOnly(f, m - {k}, rest, k, y, z);
    assert (m - {k})[k := z] == m[k := z];
  }

  /** Two maps with a member each that is not merged any more. */
  lemma AtOnly(f: map<Str, Val>, m: map<Str, Val>, p: map<Str, Val>, k: Str, y: Val, z: Val)
    requires k !in p && k !in f && k !in m
    ensures RfcFields(f[k := y], p) == RfcFields(m[k := z], p) <==> y == z && RfcFields(f, p) == RfcFields(m, p)
  {
    hide RfcFields;
    AtOne(f, p, k, y);
    AtOne(m, p, k, z);
  }

  lemma AtOne(f: map<Str, Val>, p: map<Str, Val>, k: Str, y: Val)
    requires k !in p && k !in f
    ensures var a := RfcFields(f[k := y], p);
            a == RfcFields(f, p)[k := y] && RfcFields(f, p) == a - {k} && k in a && a[k] == y
  {
    hide RfcMerge;
  }

  /** What is lost by appending is mended exactly when the rest of the patch makes no difference. */
  lemma LossExact(w: Json, rest: map<Str, Val>, cs: bool)
    requires w.Object? && Unique(w, cs) && HasLink(w)
    ensures NothingLost(w, rest, cs)
            <==> RfcFields(AbsMembers(Front(w), cs), rest) == RfcFields(AbsMembers(w.members, cs), rest)
  {
    hide RfcFields, RfcMerge, Mended, Abs, AbsMembers, Norm;
    var f, m := AbsMembers(Front(w), cs), AbsMembers(w.members, cs);
    var link := Normal(w.link, |w.members|);
    FrontMeans(w, cs);
    if link.To? {
      forall n | link.i < n < |w.members|
        ensures var l := Norm(w.members[n].key, cs);
                l !in f && l in m && m[l] == Abs(w.members[n].value, cs)
                && (Agree(f, m, rest, l) <==> Mended(l, m[l], rest))
      {
        var l := Norm(w.members[n].key, cs);
        AbsAt(w.members, n, cs);
        BehindFront(w, n, cs);
        LossAt(f, m, rest, l);
      }
      forall l | l in m && l !in f
        ensures exists n :: link.i < n < |w.members| && Norm(w.members[n].key, cs) == l
      {
        LostMember(w, l, cs);
      }
      AgreeEverywhere(f, m, rest);
    }
  }

  /** Merging makes the same of both maps at one key. */
  ghost predicate Agree(f: map<Str, Val>, m: map<Str, Val>, p: map<Str, Val>, l: Str) {
    (l in RfcFields(f, p) <==> l in RfcFields(m, p)) && ValueAt(RfcFields(f, p), l) == ValueAt(RfcFields(m, p), l)
  }

  lemma LossAt(f: map<Str, Val>, m: map<Str, Val>, p: map<Str, Val>, l: Str)
    requires l !in f && l in m
    ensures Agree(f, m, p, l) <==> Mended(l, m[l], p)
  {
    hide RfcMerge;
  }

  lemma AgreeEverywhere(f: map<Str, Val>, m: map<Str, Val>, p: map<Str, Val>)
    requires f.Keys <= m.Keys && forall k | k in f :: f[k] == m[k]
    ensures RfcFields(f, p) == RfcFields(m, p) <==> forall l | l in m && l !in f :: Agree(f, m, p, l)
  {
    hide RfcMerge;
    var a, b := RfcFields(f, p), RfcFields(m, p);
    if forall l | l in m && l !in f :: Agree(f, m, p, l) {
      forall l ensures l in a <==> l in b { assert l in m && l !in f ==> Agree(f, m, p, l); }
      forall l | l in a ensures a[l] == b[l] { assert l in m && l !in f ==> Agree(f, m, p, l); }
    }
  }

  lemma BehindFront(w: Json, n: nat, cs: bool)
    requires w.Object? && DistinctKeys(w.members, cs)
    requires Normal(w.link, |w.members|).To? && Normal(w.link, |w.members|).i < n < |w.members|
    ensures Norm(w.members[n].key, cs) !in AbsMembers(Front(w), cs)
  {
    hide Norm, AbsMembers;
    AbsKeys(Front(w), cs);
  }

  lemma LostMember(w: Json, l: Str, cs: bool)
    requires w.Object? && DistinctKeys(w.members, cs) && Normal(w.link, |w.members|).To?
    requires l in AbsMembers(w.members, cs) && l !in AbsMembers(Front(w), cs)
    ensures exists n :: Normal(w.link, |w.members|).i < n < |w.members| && Norm(w.members[n].key, cs) == l
  {
    hide Norm, AbsMembers;
    assert forall x | 0 <= x <= Normal(w.link, |w.members|).i :: Front(w)[x] == w.members[x];
    AbsKeys(w.members, cs);
    AbsKeys(Front(w), cs);
    var m :| m in w.members && Norm(m.key, cs) == l;
    var n :| 0 <= n < |w.members| && w.members[n] == m;
  }

  // ---------- merging into the tree a patch was generated from ----------

  ghost predicate SameMeaning(a: Json, b: Json, keys: iset<Str>, m: bool) {
    Fits(b, keys, m) && Abs(b, m) == Abs(a, m)
  }

  ghost predicate SameList(xs: seq<Member<Json>>, us: seq<Member<Json>>, keys: iset<Str>, m: bool) {
    |xs| == |us| && forall i | 0 <= i < |xs| :: us[i].key == xs[i].key && SameMeaning(xs[i].value, us[i].value, keys, m)
  }

  ghost predicate ListFits(xs: seq<Member<Json>>, keys: iset<Str>, m: bool) {
    forall x | x in xs :: x.key in keys && Fits(x.value, keys, m)
  }

  /** Generating a merge patch only reorders its two arguments. */
  lemma {:induction false} GenerateKeepsMeaning(from: Json, to: Json, keys: iset<Str>, m: bool, cs: bool)
    requires Fits(from, keys, m) && Fits(to, keys, m)
    ensures SameMeaning(from, AfterGenerate(from, to, cs).0, keys, m)
    ensures SameMeaning(to, AfterGenerate(from, to, cs).1, keys, m)
    decreases Depth(from), 1
  {
    if to.Object? && from.Object? {
      hide SameMeaning, SameList, ListFits, AfterMergeWalk, Fits, Sort, Order;
      var f, t := SortedObject(from, cs), SortedObject(to, cs);
      SortedDepth(from, cs);
      SortedSame(from, keys, m, cs);
      SortedSame(to, keys, m, cs);
      WalkKeepsMeaning(Depth(from), f.members, t.members, keys, m, cs);
      var (fs, ts) := AfterMergeWalk(Depth(from), f.members, t.members, cs);
      ListMeans(from, f.members, Object(fs, f.link), keys, m);
      ListMeans(to, t.members, Object(ts, t.link), keys, m);
    }
  }

  lemma SortedSame(j: Json, keys: iset<Str>, m: bool, cs: bool)
    requires j.Object? && Fits(j, keys, m)
    ensures var s := Sort(j.members, cs);
            ListFits(s, keys, m) && DistinctKeys(s, m) && AbsMembers(s, m) == AbsMembers(j.members, m)
  {
    hide Sort, AbsMembers, Norm;
    SortCorrect(j.members, cs);
    AbsPermutation(j.members, Sort(j.members, cs), m);
  }

  lemma ListMeans(j: Json, xs: seq<Member<Json>>, r: Json, keys: iset<Str>, m: bool)
    requires j.Object? && r.Object? && ListFits(xs, keys, m) && DistinctKeys(xs, m)
    requires AbsMembers(xs, m) == AbsMembers(j.members, m) && SameList(xs, r.members, keys, m)
    ensures SameMeaning(j, r, keys, m)
  {
    hide AbsMembers;
    SameValues(xs, r.members, m);
    ObjectAbs(j, m);
    ObjectAbs(r, m);
    forall x | x in r.members ensures x.key in keys && Fits(x.value, keys, m) {
      var i :| 0 <= i < |xs| && r.members[i] == x;
      assert xs[i] in xs;
    }
  }

  lemma SameCons(x: Member<Json>, u: Json, xs: seq<Member<Json>>, us: seq<Member<Json>>, keys: iset<Str>, m: bool)
    requires SameMeaning(x.value, u, keys, m) && SameList(xs, us, keys, m)
    ensures SameList([x] + xs, [Member(x.key, u)] + us, keys, m)
  {
    hide SameMeaning;
  }

  lemma HeadFits(xs: seq<Member<Json>>, keys: iset<Str>, m: bool)
    requires xs != [] && ListFits(xs, keys, m)
    ensures ListFits(xs[1..], keys, m) && Fits(xs[0].value, keys, m) && SameMeaning(xs[0].value, xs[0].value, keys, m)
    ensures xs == [xs[0]] + xs[1..] && Member(xs[0].key, xs[0].value) == xs[0]
  {
    hide Fits, Abs;
    assert xs[0] in xs;
  }

  lemma {:induction false} WalkKeepsMeaning(bound: nat, fs: seq<Member<Json>>, ts: seq<Member<Json>>, keys: iset<Str>,
                                            m: bool, cs: bool)
    requires (forall f | f in fs :: Depth(f.value) < bound) && ListFits(fs, keys, m) && ListFits(ts, keys, m)
    ensures var (us, vs) := AfterMergeWalk(bound, fs, ts, cs); SameList(fs, us, keys, m) && SameList(ts, vs, keys, m)
    decreases bound, 0, |fs| + |ts|
  {
    hide SameMeaning, SameList, ListFits, Cmp, AfterPair, Fits;
    if fs != [] { HeadFits(fs, keys, m); }
    if ts != [] { HeadFits(ts, keys, m); }
    if fs == [] && ts == [] {
      assert SameList(fs, [], keys, m) && SameList(ts, [], keys, m) by { NothingSame(keys, m); }
    } else if ts == [] || (fs != [] && Cmp(fs[0].key, ts[0].key, true) < 0) {
      WalkKeepsMeaning(bound, fs[1..], ts, keys, m, cs);
      var (us, vs) := AfterMergeWalk(bound, fs[1..], ts, cs);
      SameCons(fs[0], fs[0].value, fs[1..], us, keys, m);
    } else if fs == [] || Cmp(fs[0].key, ts[0].key, true) > 0 {
      WalkKeepsMeaning(bound, fs, ts[1..], keys, m, cs);
      var (us, vs) := AfterMergeWalk(bound, fs, ts[1..], cs);
      SameCons(ts[0], ts[0].value, ts[1..], vs, keys, m);
    } else {
      var (f, t) := AfterPair(fs[0].value, ts[0].value, cs);
      PairKeepsMeaning(fs[0].value, ts[0].value, keys, m, cs);
      WalkKeepsMeaning(bound, fs[1..], ts[1..], keys, m, cs);
      var (us, vs) := AfterMergeWalk(bound, fs[1..], ts[1..], cs);
      SameCons(fs[0], f, fs[1..], us, keys, m);
      SameCons(ts[0], t, ts[1..], vs, keys, m);
    }
  }

  lemma NothingSame(keys: iset<Str>, m: bool)
    ensures SameList([], [], keys, m)
  {
  }

  lemma {:induction false} PairKeepsMeaning(f: Json, t: Json, keys: iset<Str>, m: bool, cs: bool)
    requires Fits(f, keys, m) && Fits(t, keys, m)
    ensures SameMeaning(f, AfterPair(f, t, cs).0, keys, m) && SameMeaning(t, AfterPair(f, t, cs).1, keys, m)
    decreases Depth(f), 2
  {
    hide Fits, Abs, SameSorted, AfterCompare, AfterGenerate;
    AfterCompareDepth(f, t, cs);
    AfterCompareReorders(f, t, cs);
    var (f', t') := AfterCompare(f, t, cs);
    ReorderedMeans(f, f', keys, m);
    ReorderedMeans(t, t', keys, m);
    if !SameSorted(f, t, cs) { GenerateKeepsMeaning(f', t', keys, m, false); }
  }

  /** Merging a generated patch into the very tree it was generated from, as generating has left it: where a merge
      patch can lead to the target at all, it does so exactly when merging keeps everything. */
  lemma SourceMergesIntoTarget(from: Json, to: Json, keys: iset<Str>, cs: bool)
    requires Agreeing(keys) && Fits(from, keys, true) && Fits(to, keys, true)
    requires GenerateMerge(from, to, cs).Some? && NullsCovered(Abs(from, true), Abs(to, true))
    ensures var source, patch := Some(AfterGenerate(from, to, cs).0), GenerateMerge(from, to, cs).value;
            Mergeable(source, patch, cs) && Abs(Merge(source, patch, cs), true) == Abs(to, true)
            <==> MergeKeeps(source, patch, true)
  {
    hide GenerateMerge, Merge, RfcMerge, Difference, NullsCovered, Mergeable, AfterGenerate, MergeKeeps, Abs;
    var source, patch := AfterGenerate(from, to, cs).0, GenerateMerge(from, to, cs).value;
    GenerateKeepsMeaning(from, to, keys, true, cs);
    GenerateAgrees(from, to, keys);
    GenerateMeans(from, to, keys);
    FitsIsSpelled(source, keys);
    FitsIsSpelled(patch, keys);
    MergeAgrees(Some(source), patch, keys);
    FitsIsStandard(source, keys, true);
    FitsIsStandard(patch, keys, true);
    MergeExact(Some(source), patch, true);
    SameOrDifferent(from, to);
    ObjectMeaning(from, true);
    ObjectMeaning(to, true);
  }

  lemma ObjectMeaning(j: Json, cs: bool)
    ensures Abs(j, cs).VObject? <==> j.Object?
  {
  }

  /** Two members in the wrong order and one to add behind them: the patch has the new member, and merging it into
      the tree it was generated from leaves it out. */
  lemma MergedMemberIsLost(a: Str, b: Str, c: Str)
    requires Cmp(a, b, true) < 0 && Cmp(b, c, true) < 0
    ensures var f, g, h := Member(a, True), Member(b, True), Member(c, True);
            var from, to, left := Object([g, f]), Object([g, f, h]), Object([f, g], Missing);
            GenerateMerge(from, to, true) == Some(Object([h])) && AfterGenerate(from, to, true).0 == left
            && Merge(Some(left), Object([h]), true) == left
  {
    hide Cmp, Norm, Sort, Order, MergeWalk, AfterMergeWalk, Merge, Depth;
    var f, g, h := Member(a, True), Member(b, True), Member(c, True);
    var from, to, left := Object([g, f]), Object([g, f, h]), Object([f, g], Missing);
    CmpFlip(a, b, true);
    CmpZero(a, b, true);
    CmpTransitive(a, b, c, true);
    CmpZero(a, c, true);
    CmpZero(b, c, true);
    SortTwo(g, f, true);
    SortSwapped(f, g, h, true);
    LinkAfterSort(from.members, true);
    SortedDepth(from, true);
    assert f in Sort(from.members, true) && g in Sort(from.members, true);
    WalkOfTwo(Depth(from), f, g, h);
    LostInMerge(f, g, h);
  }

  lemma WalkOfTwo(bound: nat, f: Member<Json>, g: Member<Json>, h: Member<Json>)
    requires f.value == True && g.value == True && h.value == True && Depth(True) < bound
    ensures MergeWalk(bound, [f, g], [f, g, h], true) == [h]
    ensures AfterMergeWalk(bound, [f, g], [f, g, h], true).0 == [f, g]
  {
    hide Cmp;
    CmpZero(f.key, f.key, true);
    CmpZero(g.key, g.key, true);
    assert [f, g][1..] == [g] && [g][1..] == [] && [f, g, h][1..] == [g, h] && [g, h][1..] == [h] && [h][1..] == [];
    assert MergeWalk(bound, [], [h], true) == [h] + MergeWalk(bound, [], [], true) == [h];
    assert MergeWalk(bound, [g], [g, h], true) == [h];
    assert AfterMergeWalk(bound, [], [h], true).0 == [];
    assert AfterMergeWalk(bound, [g], [g, h], true).0 == [g] + [];
  }

  lemma LostInMerge(f: Member<Json>, g: Member<Json>, h: Member<Json>)
    requires f.value == True && g.value == True && h.value == True
    requires Norm(h.key, true) != Norm(f.key, true) && Norm(h.key, true) != Norm(g.key, true)
    ensures var left := Object([f, g], Missing); Merge(Some(left), Object([h]), true) == left
  {
    hide Norm;
    var left := Object([f, g], Missing);
    assert FindKey([f, g], h.key, true) == 2;
    assert OneMerged(left, h, true) == left;
    assert MergeInto(left, [h], true) == MergeInto(left, [h][1..], true);
  }
}
