/** JSON Merge Patch: merge_patch against the MergePatch function of section 2 of RFC 7396. */
module MergePatching {
  import opened CStrings
  import opened SiblingLinks
  import opened JsonTrees
  import opened Comparing

  /** Section 2 of RFC 7396, on trees whose objects are maps. A missing target is VNull: neither
      it nor null is an object. */
  function RfcMerge(target: Val, patch: Val): Val
    decreases patch
  {
    match patch
    case VObject(p) =>
      var t := if target.VObject? then target.fields else map[];
      VObject(map k | k in t.Keys + p.Keys && !(k in p && p[k] == VNull) ::
                if k in p then RfcMerge(if k in t then t[k] else VNull, p[k]) else t[k])
    case _ => patch
  }

  /** What merge_patch starts from: the target, or a new object when it is none. */
  function Base(target: Option<Json>): (j: Json)
    ensures j.Object?
  {
    if target.Some? && target.value.Object? then target.value else Object([])
  }

  /** What merge_patch returns; the target may be missing. */
  function Merge(target: Option<Json>, patch: Json, cs: bool): Json
    decreases patch
  {
    match patch
    case Object(ps, _) => MergeInto(Base(target), ps, cs)
    case _ => Relinked(patch)
  }

  /** The loop over the patch members. */
  function MergeInto(j: Json, ps: seq<Member<Json>>, cs: bool): (r: Json)
    requires j.Object?
    ensures r.Object?
    decreases ps
  {
    if ps == [] then j else MergeInto(OneMerged(j, ps[0], cs), ps[1..], cs)
  }

  /** One round: null deletes; anything else is detached, merged and appended. */
  function OneMerged(j: Json, p: Member<Json>, cs: bool): (r: Json)
    requires j.Object?
    ensures r.Object?
    decreases p
  {
    var kept := WithoutMember(j, p.key, cs);
    if p.value.Null? then kept
    else AddedMember(kept, Member(p.key, Merge(GetMember(j, p.key, cs), p.value, cs)))
  }

  /** No member is appended behind one that has already left its object. */
  predicate Mergeable(target: Option<Json>, patch: Json, cs: bool)
    decreases patch
  {
    patch.Object? ==> MergeableInto(Base(target), patch.members, cs)
  }

  predicate MergeableInto(j: Json, ps: seq<Member<Json>>, cs: bool)
    requires j.Object?
    decreases ps
  {
    ps != [] ==>
      (ps[0].value.Null? || (Mergeable(GetMember(j, ps[0].key, cs), ps[0].value, cs)
                             && Appendable(WithoutMember(j, ps[0].key, cs))))
      && MergeableInto(OneMerged(j, ps[0], cs), ps[1..], cs)
  }

  /** The map of RfcMerge. */
  function RfcFields(t: map<Str, Val>, p: map<Str, Val>): map<Str, Val> {
    map k | k in t.Keys + p.Keys && !(k in p && p[k] == VNull) ::
      if k in p then RfcMerge(if k in t then t[k] else VNull, p[k]) else t[k]
  }

  /** A tree in order: distinct keys, and all its links. */
  ghost predicate InOrder(j: Json, cs: bool) {
    Unique(j, cs) && WellLinked(j)
  }

  ghost function MeaningOf(target: Option<Json>, cs: bool): Val {
    if target.Some? then Abs(target.value, cs) else VNull
  }

  /** merge_patch means the MergePatch function, for every target in order and every patch with distinct keys. */
  lemma {:induction false} MergeMeans(target: Option<Json>, patch: Json, cs: bool)
    requires Unique(patch, cs) && (target.Some? ==> InOrder(target.value, cs))
    ensures Mergeable(target, patch, cs) && InOrder(Merge(target, patch, cs), cs)
    ensures Abs(Merge(target, patch, cs), cs) == RfcMerge(MeaningOf(target, cs), Abs(patch, cs))
    decreases patch
  {
    hide RfcMerge, RfcFields, MergeInto, MergeableInto, AbsMembers, Relinked;
    match patch
    case Object(ps, _) =>
      BaseMeans(target, cs);
      MergeIntoMeans(Base(target), ps, cs);
      RfcObject(MeaningOf(target, cs), AbsMembers(ps, cs));
    case _ =>
      RfcOther(MeaningOf(target, cs), Abs(patch, cs));
      RelinkedMeans(patch, cs);
      RelinkedIsWellLinked(patch);
      RelinkedUnique(patch, cs);
  }

  lemma BaseMeans(target: Option<Json>, cs: bool)
    requires target.Some? ==> InOrder(target.value, cs)
    ensures InOrder(Base(target), cs)
    ensures var t := MeaningOf(target, cs);
            AbsMembers(Base(target).members, cs) == if t.VObject? then t.fields else map[]
  {
  }

  lemma {:induction false} RelinkedUnique(j: Json, cs: bool)
    requires Unique(j, cs)
    ensures Unique(Relinked(j), cs)
    decreases j
  {
    match j {
      case Array(es) =>
        forall i | 0 <= i < |es| ensures Unique(Relinked(es[i]), cs) { RelinkedUnique(es[i], cs); }
      case Object(ms, _) =>
        forall i | 0 <= i < |ms| ensures Unique(Relinked(ms[i].value), cs) {
          assert ms[i] in ms;
          RelinkedUnique(ms[i].value, cs);
        }
      case _ =>
    }
  }

  lemma RfcOther(target: Val, patch: Val)
    requires !patch.VObject?
    ensures RfcMerge(target, patch) == patch
  {
  }

  lemma RfcObject(target: Val, p: map<Str, Val>)
    ensures RfcMerge(target, VObject(p)) == VObject(RfcFields(if target.VObject? then target.fields else map[], p))
  {
  }

  lemma {:induction false} MergeIntoMeans(j: Json, ps: seq<Member<Json>>, cs: bool)
    requires j.Object? && InOrder(j, cs) && Unique(Object(ps), cs)
    ensures MergeableInto(j, ps, cs) && InOrder(MergeInto(j, ps, cs), cs)
    ensures AbsMembers(MergeInto(j, ps, cs).members, cs) == RfcFields(AbsMembers(j.members, cs), AbsMembers(ps, cs))
    decreases ps
  {
    if ps == [] {
      assert RfcFields(AbsMembers(j.members, cs), map[]) == AbsMembers(j.members, cs);
    } else {
      hide AbsMembers, Norm, RfcFields, Unique, InOrder, OneMerged, Mergeable, Abs, Appendable;
      SplitUnique(ps, cs);
      OneMergedMeans(j, ps[0], cs);
      MergeIntoMeans(OneMerged(j, ps[0], cs), ps[1..], cs);
      var k, x := Norm(ps[0].key, cs), Abs(ps[0].value, cs);
      MergeStep(AbsMembers(j.members, cs), AbsMembers(ps[1..], cs), k, x);
    }
  }

  /** What one round means. */
  ghost function Stepped(t: map<Str, Val>, k: Str, x: Val): map<Str, Val> {
    if x == VNull then t - {k} else t[k := RfcMerge(if k in t then t[k] else VNull, x)]
  }

  lemma {:induction false} OneMergedMeans(j: Json, p: Member<Json>, cs: bool)
    requires j.Object? && InOrder(j, cs) && Unique(p.value, cs)
    ensures InOrder(OneMerged(j, p, cs), cs)
    ensures AbsMembers(OneMerged(j, p, cs).members, cs)
            == Stepped(AbsMembers(j.members, cs), Norm(p.key, cs), Abs(p.value, cs))
    ensures !p.value.Null? ==>
              Mergeable(GetMember(j, p.key, cs), p.value, cs) && Appendable(WithoutMember(j, p.key, cs))
    decreases p
  {
    hide AbsMembers, Norm, Merge, RfcMerge, Abs, Without, WithoutMember, AddedMember, Appendable, GetMember, InOrder;
    hide Unique;
    var x := Null;
    AbsNonNull(p.value, cs);
    if !p.value.Null? {
      var old' := GetMember(j, p.key, cs);
      LookupInOrder(j, p.key, cs);
      MergeMeans(old', p.value, cs);
      x := Merge(old', p.value, cs);
    } else {
      NullInOrder(cs);
    }
    SetInOrder(j, p.key, x, cs);
  }

  lemma NullInOrder(cs: bool)
    ensures InOrder(Null, cs)
  {
  }

  lemma MergeStep(t: map<Str, Val>, p: map<Str, Val>, k: Str, x: Val)
    requires k !in p
    ensures RfcFields(Stepped(t, k, x), p) == RfcFields(t, p[k := x])
  {
    hide RfcMerge;
  }

  lemma AbsNonNull(x: Json, cs: bool)
    ensures Abs(x, cs) == VNull <==> x.Null?
  {
  }

  lemma SplitUnique(ps: seq<Member<Json>>, cs: bool)
    requires ps != [] && Unique(Object(ps), cs)
    ensures Unique(Object(ps[1..]), cs) && Unique(ps[0].value, cs)
    ensures var k := Norm(ps[0].key, cs);
            k !in AbsMembers(ps[1..], cs)
            && AbsMembers(ps, cs) == AbsMembers(ps[1..], cs)[k := Abs(ps[0].value, cs)]
  {
    SplitHead(ps, cs);
  }

  /** Deleting a member, and setting it the way the library does, keep an object in order. */
  lemma SetInOrder(j: Json, name: Str, x: Json, cs: bool)
    requires j.Object? && InOrder(j, cs) && InOrder(x, cs)
    ensures var kept := WithoutMember(j, name, cs);
            InOrder(kept, cs) && Appendable(kept)
            && AbsMembers(kept.members, cs) == AbsMembers(j.members, cs) - {Norm(name, cs)}
    ensures var set' := AddedMember(WithoutMember(j, name, cs), Member(name, x));
            InOrder(set', cs) && AbsMembers(set'.members, cs) == AbsMembers(j.members, cs)[Norm(name, cs) := Abs(x, cs)]
  {
    hide AbsMembers, Norm, WithoutMember, AddedMember, Appendable, Abs, Without;
    var ms := j.members;
    assert j == Object(ms);
    RightObjects(ms, name, x, cs);
    WithoutMeans(ms, name, cs);
    AbsSet(ms, name, x, cs);
    WithoutPart(ms, name, cs);
  }

  lemma WithoutPart(ms: seq<Member<Json>>, name: Str, cs: bool)
    ensures forall m | m in Without(ms, name, cs) :: m in ms
  {
    hide FindKey;
  }

  lemma LookupInOrder(j: Json, name: Str, cs: bool)
    requires j.Object? && InOrder(j, cs)
    ensures var r, m, k := GetMember(j, name, cs), AbsMembers(j.members, cs), Norm(name, cs);
            (r.Some? <==> k in m) && (r.Some? ==> InOrder(r.value, cs) && Abs(r.value, cs) == m[k])
  {
    AbsLookup(j.members, name, cs);
    var i := FindKey(j.members, name, cs);
    if i < |j.members| { assert j.members[i] in j.members; }
  }
}
