/** What a merge leaves alone, and that a generated merge patch holds nothing that it could do without. */
module MergeOrders {
  import opened CStrings
  import opened SiblingLinks
  import opened JsonTrees
  import opened Comparing
  import opened Vocabularies
  import opened MergePatching
  import opened MergeRoundTrip

  // ---------- the order of the members after a merge ----------

  predicate Mentioned(key: Str, ps: seq<Member<Json>>, cs: bool) {
    exists i | 0 <= i < |ps| :: Norm(ps[i].key, cs) == Norm(key, cs)
  }

  /** The members that a patch does not mention, as they are. */
  function Unmentioned(ms: seq<Member<Json>>, ps: seq<Member<Json>>, cs: bool): seq<Member<Json>> {
    if ms == [] then []
    else (if Mentioned(ms[0].key, ps, cs) then [] else [ms[0]]) + Unmentioned(ms[1..], ps, cs)
  }

  /** The names that a patch does not delete. */
  function NamesSet(ps: seq<Member<Json>>): seq<Str> {
    if ps == [] then [] else (if ps[0].value.Null? then [] else [ps[0].key]) + NamesSet(ps[1..])
  }

  function NamesOf(ms: seq<Member<Json>>): (names: seq<Str>)
    ensures |names| == |ms| && forall i | 0 <= i < |ms| :: names[i] == ms[i].key
  {
    seq(|ms|, i requires 0 <= i < |ms| => ms[i].key)
  }

  lemma {:induction false} UnmentionedParts(a: seq<Member<Json>>, b: seq<Member<Json>>, ps: seq<Member<Json>>, cs: bool)
    ensures Unmentioned(a + b, ps, cs) == Unmentioned(a, ps, cs) + Unmentioned(b, ps, cs)
    decreases |a|
  {
    hide Mentioned;
    if a == [] {
      assert a + b == b;
    } else {
      DropHead(a, b);
      UnmentionedParts(a[1..], b, ps, cs);
    }
  }

  /** One patch member more takes its name away, too. */
  lemma {:induction false} OneMentionedMore(ms: seq<Member<Json>>, p: Member<Json>, ps: seq<Member<Json>>, cs: bool)
    requires DistinctKeys(ms, cs)
    ensures Unmentioned(Without(ms, p.key, cs), ps, cs) == Unmentioned(ms, [p] + ps, cs)
    decreases |ms|
  {
    if ms != [] {
      hide Norm, FindKey;
      MentionedMore(ms[0].key, p, ps, cs);
      var i := FindKey(ms, p.key, cs);
      if Norm(ms[0].key, cs) == Norm(p.key, cs) {
        assert i == 0;
        assert Without(ms, p.key, cs) == ms[1..];
        NotMentioned(ms[1..], p, ps, cs);
      } else {
        assert ms[1..] == ms[1..];
        WithoutRest(ms, p.key, cs);
        OneMentionedMore(ms[1..], p, ps, cs);
      }
    }
  }

  lemma MentionedMore(key: Str, p: Member<Json>, ps: seq<Member<Json>>, cs: bool)
    ensures Mentioned(key, [p] + ps, cs) <==> Norm(p.key, cs) == Norm(key, cs) || Mentioned(key, ps, cs)
  {
    hide Norm;
    var all := [p] + ps;
    assert all[0] == p;
    if Mentioned(key, ps, cs) {
      var i :| 0 <= i < |ps| && Norm(ps[i].key, cs) == Norm(key, cs);
      assert all[i + 1] == ps[i];
    }
    if Mentioned(key, all, cs) && Norm(p.key, cs) != Norm(key, cs) {
      var i :| 0 <= i < |all| && Norm(all[i].key, cs) == Norm(key, cs);
      assert ps[i - 1] == all[i];
    }
  }

  lemma WithoutRest(ms: seq<Member<Json>>, name: Str, cs: bool)
    requires ms != [] && Norm(ms[0].key, cs) != Norm(name, cs)
    ensures Without(ms, name, cs) == [ms[0]] + Without(ms[1..], name, cs)
  {
    hide Norm;
    var i := FindKey(ms[1..], name, cs);
    assert FindKey(ms, name, cs) == 1 + i;
  }

  lemma {:induction false} NotMentioned(ms: seq<Member<Json>>, p: Member<Json>, ps: seq<Member<Json>>, cs: bool)
    requires forall i | 0 <= i < |ms| :: Norm(ms[i].key, cs) != Norm(p.key, cs)
    ensures Unmentioned(ms, [p] + ps, cs) == Unmentioned(ms, ps, cs)
    decreases |ms|
  {
    if ms != [] {
      hide Norm, Mentioned;
      MentionedMore(ms[0].key, p, ps, cs);
      NotMentioned(ms[1..], p, ps, cs);
    }
  }

  /** Behind a merge the members that the patch does not mention come first, unchanged and in their order, and behind
      them those that it sets, in the order of the patch. */
  lemma {:induction false} MergeKeepsOrder(j: Json, ps: seq<Member<Json>>, cs: bool)
    requires j.Object? && InOrder(j, cs) && Unique(Object(ps), cs)
    ensures var kept, r := Unmentioned(j.members, ps, cs), MergeInto(j, ps, cs).members;
            kept <= r && NamesOf(r[|kept|..]) == NamesSet(ps)
    decreases ps
  {
    if ps == [] {
      AllUnmentioned(j.members, cs);
    } else {
      hide Unique, InOrder, OneMerged, Unmentioned, MergeInto;
      var j' := OneMerged(j, ps[0], cs);
      SplitUnique(ps, cs);
      OneMergedMeans(j, ps[0], cs);
      MergeKeepsOrder(j', ps[1..], cs);
      FirstMerged(j, ps, cs);
      MergeIntoStep(j, ps, cs);
      if !ps[0].value.Null? {
        OneNameMore(Unmentioned(j.members, ps, cs), Unmentioned(j'.members, ps[1..], cs),
                    MergeInto(j, ps, cs).members, ps[0].key);
      }
    }
  }

  lemma OneNameMore(kept: seq<Member<Json>>, kept': seq<Member<Json>>, r: seq<Member<Json>>, key: Str)
    requires kept <= kept' <= r && |kept'| == |kept| + 1 && kept'[|kept|].key == key
    ensures kept <= r && NamesOf(r[|kept|..]) == [key] + NamesOf(r[|kept'|..])
  {
    assert r[|kept|..] == [r[|kept|]] + r[|kept'|..];
  }

  lemma MergeIntoStep(j: Json, ps: seq<Member<Json>>, cs: bool)
    requires j.Object? && ps != []
    ensures MergeInto(j, ps, cs) == MergeInto(OneMerged(j, ps[0], cs), ps[1..], cs)
  {
  }

  lemma {:induction false} AllUnmentioned(ms: seq<Member<Json>>, cs: bool)
    ensures Unmentioned(ms, [], cs) == ms
    decreases |ms|
  {
    if ms != [] { AllUnmentioned(ms[1..], cs); }
  }

  lemma FirstMerged(j: Json, ps: seq<Member<Json>>, cs: bool)
    requires ps != [] && j.Object? && InOrder(j, cs) && Unique(Object(ps), cs)
    ensures var kept, kept' := Unmentioned(j.members, ps, cs),
            Unmentioned(OneMerged(j, ps[0], cs).members, ps[1..], cs);
            if ps[0].value.Null? then kept' == kept
            else kept <= kept' && |kept'| == |kept| + 1 && kept'[|kept|].key == ps[0].key
  {
    hide Norm, Unmentioned, Merge, Without, WithoutMember, AddedMember;
    var p, rest := ps[0], ps[1..];
    assert ps == [p] + rest && j == Object(j.members);
    var x := if p.value.Null? then Null else Merge(GetMember(j, p.key, cs), p.value, cs);
    RightObjects(j.members, p.key, x, cs);
    OneMentionedMore(j.members, p, rest, cs);
    UnmentionedParts(Without(j.members, p.key, cs), [Member(p.key, x)], rest, cs);
    PatchKeysApart(ps, cs);
    OneUnmentioned(Member(p.key, x), rest, cs);
  }

  lemma PatchKeysApart(ps: seq<Member<Json>>, cs: bool)
    requires ps != [] && DistinctKeys(ps, cs)
    ensures !Mentioned(ps[0].key, ps[1..], cs)
  {
    hide Norm;
  }

  lemma OneUnmentioned(m: Member<Json>, ps: seq<Member<Json>>, cs: bool)
    requires !Mentioned(m.key, ps, cs)
    ensures Unmentioned([m], ps, cs) == [m]
  {
    hide Mentioned;
    assert [m][1..] == [];
  }

  // ---------- generated patches are least ----------

  /** A patch does at least what another does: it has every member of it, with at least its value. */
  predicate Covers(q: Val, d: Val)
    decreases d
  {
    if d.VObject? then q.VObject? && forall k | k in d.fields :: k in q.fields && Covers(q.fields[k], d.fields[k])
    else q == d
  }

  /** Every patch that leads from one value to another covers the generated one. */
  lemma {:induction false} DifferenceIsLeast(f: Val, t: Val, q: Val)
    requires RfcMerge(f, q) == t && f != t
    ensures Covers(q, Difference(f, t))
    decreases q
  {
    if q.VObject? {
      var fm := if f.VObject? then f.fields else map[];
      var d := Difference(f, t).fields;
      forall k | k in d ensures k in q.fields && Covers(q.fields[k], d[k]) {
        LeastMember(f, q.fields, k);
      }
    }
  }

  lemma {:induction false} LeastMember(f: Val, q: map<Str, Val>, k: Str)
    requires var t := RfcMerge(f, VObject(q)); f != t && t.VObject? && k in Difference(f, t).fields
    ensures k in q && Covers(q[k], Difference(f, RfcMerge(f, VObject(q))).fields[k])
    decreases VObject(q), 0
  {
    var t := RfcMerge(f, VObject(q)).fields;
    var old' := if f.VObject? && k in f.fields then f.fields[k] else VNull;
    if k in t {
      assert k in q;
      assert t[k] == RfcMerge(old', q[k]);
      NotNull(old', q[k]);
      DifferenceIsLeast(old', t[k], q[k]);
    }
  }

  lemma NotNull(f: Val, q: Val)
    requires q != VNull
    ensures RfcMerge(f, q) != VNull
  {
  }
}
