/** The loops of JSON Merge Patch: a target that a patch changes in place, and the walk over two sorted
    objects that generates a patch. */
module MergeDocuments {
  import opened CStrings
  import opened SiblingLinks
  import opened JsonTrees
  import opened Sorting
  import opened Comparing
  import opened ComparingLoops
  import opened Reorderings
  import opened MergePatching
  import opened MergeRoundTrip

  class MergeTarget {
    /** The target; there may be none. */
    var item: Option<Json>

    constructor (item: Option<Json>)
      ensures this.item == item
    {
      this.item := item;
    }

    /** Take the first member with a name out of the target. */
    method DetachMember(name: Str, caseSensitive: bool) returns (detached: Option<Json>)
      requires item.Some? && item.value.Object?
      modifies this
      ensures detached == GetMember(old(item).value, name, caseSensitive)
      ensures item == Some(WithoutMember(old(item).value, name, caseSensitive))
    {
      var members := item.value.members;
      var index := GetObjectItem(members, name, caseSensitive);
      if index == |members| { return None; }
      detached := Some(members[index].value);
      var rest := Detached(Chain(members, item.value.link), index);
      item := Some(Object(rest.items, rest.link));
    }

    /** merge_patch: null members delete; other members are detached, merged and appended again. */
    method MergePatch(patch: Json, caseSensitive: bool)
      requires Mergeable(item, patch, caseSensitive)
      modifies this
      ensures item == Some(Merge(old(item), patch, caseSensitive))
      decreases patch
    {
      hide OneMerged;
      if !patch.Object? {
        item := Some(Relinked(patch));
        return;
      }
      if item.None? || !item.value.Object? { item := Some(Object([])); }
      var children := patch.members;
      ghost var merged := MergeInto(item.value, children, caseSensitive);
      assert children[0..] == children;
      var i := 0;
      while i < |children|
        invariant i <= |children| && item.Some? && item.value.Object?
        invariant MergeInto(item.value, children[i..], caseSensitive) == merged
        invariant MergeableInto(item.value, children[i..], caseSensitive)
      {
        assert children[i..][1..] == children[i + 1..] && children[i] in children;
        MergeMember(children[i], caseSensitive);
        i := i + 1;
      }
    }

    /** One round of the loop. */
    method MergeMember(child: Member<Json>, caseSensitive: bool)
      requires item.Some? && item.value.Object?
      requires !child.value.Null? ==>
                 Mergeable(GetMember(item.value, child.key, caseSensitive), child.value, caseSensitive)
                 && Appendable(WithoutMember(item.value, child.key, caseSensitive))
      modifies this
      ensures item == Some(OneMerged(old(item).value, child, caseSensitive))
      decreases child
    {
      hide Merge, Mergeable, WithoutMember, Appendable;
      var replaceMe := DetachMember(child.key, caseSensitive);
      if !child.value.Null? {
        var replacement := new MergeTarget(replaceMe);
        replacement.MergePatch(child.value, caseSensitive);
        item := Some(AddedMember(item.value, Member(child.key, replacement.item.value)));
      }
    }
  }

  /** generate_merge_patch; None is the NULL that means no change. Both trees are given back as the sorting and
      comparing leave them. */
  method GenerateMergePatch(from: Json, to: Json, caseSensitive: bool)
    returns (patch: Option<Json>, from': Json, to': Json)
    ensures patch == GenerateMerge(from, to, caseSensitive)
    ensures (from', to') == AfterGenerate(from, to, caseSensitive)
    decreases Depth(from), 2
  {
    if !to.Object? || !from.Object? { return Some(Relinked(to)), from, to; }
    SortedDepth(from, caseSensitive);
    var f, t := SortedObject(from, caseSensitive), SortedObject(to, caseSensitive);
    var children, fs, ts := WalkMembers(Depth(from), f.members, t.members, caseSensitive);
    patch := if children == [] then None else Some(Object(children));
    from', to' := Object(fs, f.link), Object(ts, t.link);
  }

  /** The walk over both sorted objects. */
  method WalkMembers(ghost bound: nat, fs: seq<Member<Json>>, ts: seq<Member<Json>>, caseSensitive: bool)
    returns (patch: seq<Member<Json>>, fs': seq<Member<Json>>, ts': seq<Member<Json>>)
    requires forall m | m in fs :: Depth(m.value) < bound
    ensures patch == MergeWalk(bound, fs, ts, caseSensitive)
    ensures (fs', ts') == AfterMergeWalk(bound, fs, ts, caseSensitive)
    decreases bound, 1
  {
    hide SameSorted, MergeWalk, AfterMergeWalk, Cmp, Relinked, Both, AfterPair;
    patch, fs', ts' := [], [], [];
    var i, j := 0, 0;
    assert fs[0..] == fs && ts[0..] == ts;
    while i < |fs| || j < |ts|
      invariant i <= |fs| && j <= |ts|
      invariant patch + MergeWalk(bound, fs[i..], ts[j..], caseSensitive) == MergeWalk(bound, fs, ts, caseSensitive)
      invariant fs' + AfterMergeWalk(bound, fs[i..], ts[j..], caseSensitive).0
                == AfterMergeWalk(bound, fs, ts, caseSensitive).0
      invariant ts' + AfterMergeWalk(bound, fs[i..], ts[j..], caseSensitive).1
                == AfterMergeWalk(bound, fs, ts, caseSensitive).1
      decreases |fs| + |ts| - i - j
    {
      WalkStep(bound, fs, ts, i, j, caseSensitive);
      var added, f, t: seq<Member<Json>> := [], [], [];
      var diff := 0;
      if i < |fs| && j < |ts| {
        diff := CompareStrings(fs[i].key, ts[j].key, true);
      } else {
        diff := if i < |fs| then -1 else 1;
      }
      if diff < 0 {
        added, f := [Member(fs[i].key, Null)], [fs[i]];
        i := i + 1;
      } else if diff > 0 {
        added, t := [Member(ts[j].key, Relinked(ts[j].value))], [ts[j]];
        j := j + 1;
      } else {
        added, f, t := BothMembers(bound, fs[i], ts[j], caseSensitive);
        i, j := i + 1, j + 1;
      }
      Assoc(patch, added, MergeWalk(bound, fs[i..], ts[j..], caseSensitive));
      Assoc(fs', f, AfterMergeWalk(bound, fs[i..], ts[j..], caseSensitive).0);
      Assoc(ts', t, AfterMergeWalk(bound, fs[i..], ts[j..], caseSensitive).1);
      patch, fs', ts' := patch + added, fs' + f, ts' + t;
    }
    WalkEnds(bound, fs[i..], ts[j..], caseSensitive);
    assert patch + [] == patch && fs' + [] == fs' && ts' + [] == ts';
  }

  /** What a key in both objects adds to the patch. */
  function Both(f: Member<Json>, t: Member<Json>, cs: bool): seq<Member<Json>> {
    if SameSorted(f.value, t.value, cs) then []
    else
      var (f', t') := AfterCompare(f.value, t.value, cs);
      var nested := GenerateMerge(f', t', false);
      if nested.Some? then [Member(t.key, nested.value)] else []
  }

  /** A key in both objects: a nested patch, generated ignoring case, unless the values are the same. */
  method BothMembers(ghost bound: nat, f: Member<Json>, t: Member<Json>, caseSensitive: bool)
    returns (added: seq<Member<Json>>, fs: seq<Member<Json>>, ts: seq<Member<Json>>)
    requires Depth(f.value) < bound
    ensures added == Both(f, t, caseSensitive)
    ensures fs == [Member(f.key, AfterPair(f.value, t.value, caseSensitive).0)]
    ensures ts == [Member(t.key, AfterPair(f.value, t.value, caseSensitive).1)]
    decreases bound, 0
  {
    hide SameSorted, GenerateMerge, AfterCompare, AfterGenerate;
    added := [];
    var identical, f', t' := CompareJson(f.value, t.value, caseSensitive);
    AfterCompareDepth(f.value, t.value, caseSensitive);
    if !identical {
      var nested;
      nested, f', t' := GenerateMergePatch(f', t', false);
      if nested.Some? { added := [Member(t.key, nested.value)]; }
    }
    fs, ts := [Member(f.key, f')], [Member(t.key, t')];
  }

  lemma WalkStep(bound: nat, fs: seq<Member<Json>>, ts: seq<Member<Json>>, i: nat, j: nat, cs: bool)
    requires forall m | m in fs :: Depth(m.value) < bound
    requires i <= |fs| && j <= |ts| && (i < |fs| || j < |ts|)
    ensures i < |fs| ==> Depth(fs[i].value) < bound
    ensures var walk, after := MergeWalk(bound, fs[i..], ts[j..], cs), AfterMergeWalk(bound, fs[i..], ts[j..], cs);
            if i < |fs| && (j == |ts| || Cmp(fs[i].key, ts[j].key, true) < 0) then
              walk == [Member(fs[i].key, Null)] + MergeWalk(bound, fs[i + 1..], ts[j..], cs)
              && after.0 == [fs[i]] + AfterMergeWalk(bound, fs[i + 1..], ts[j..], cs).0
              && after.1 == [] + AfterMergeWalk(bound, fs[i + 1..], ts[j..], cs).1
            else if i == |fs| || Cmp(fs[i].key, ts[j].key, true) > 0 then
              walk == [Member(ts[j].key, Relinked(ts[j].value))] + MergeWalk(bound, fs[i..], ts[j + 1..], cs)
              && after.0 == [] + AfterMergeWalk(bound, fs[i..], ts[j + 1..], cs).0
              && after.1 == [ts[j]] + AfterMergeWalk(bound, fs[i..], ts[j + 1..], cs).1
            else
              var pair := AfterPair(fs[i].value, ts[j].value, cs);
              walk == Both(fs[i], ts[j], cs) + MergeWalk(bound, fs[i + 1..], ts[j + 1..], cs)
              && after.0 == [Member(fs[i].key, pair.0)] + AfterMergeWalk(bound, fs[i + 1..], ts[j + 1..], cs).0
              && after.1 == [Member(ts[j].key, pair.1)] + AfterMergeWalk(bound, fs[i + 1..], ts[j + 1..], cs).1
  {
    hide SameSorted, GenerateMerge, AfterCompare, AfterPair, Cmp, Relinked, MergeWalk, AfterMergeWalk;
    if i < |fs| {
      assert fs[i] in fs;
      assert fs[i..][1..] == fs[i + 1..];
    }
    if j < |ts| { assert ts[j..][1..] == ts[j + 1..]; }
    WalkUnfold(bound, fs[i..], ts[j..], cs);
    if i < |fs| && j < |ts| {
      var rest := MergeWalk(bound, fs[i + 1..], ts[j + 1..], cs);
      assert [] + rest == rest;
    }
    if i < |fs| {
      var rest := AfterMergeWalk(bound, fs[i + 1..], ts[j..], cs).1;
      assert [] + rest == rest;
    }
    if j < |ts| {
      var rest := AfterMergeWalk(bound, fs[i..], ts[j + 1..], cs).0;
      assert [] + rest == rest;
    }
  }

  lemma WalkUnfold(bound: nat, fs: seq<Member<Json>>, ts: seq<Member<Json>>, cs: bool)
    requires (forall m | m in fs :: Depth(m.value) < bound) && (fs != [] || ts != [])
    ensures var walk, after := MergeWalk(bound, fs, ts, cs), AfterMergeWalk(bound, fs, ts, cs);
            if fs != [] && (ts == [] || Cmp(fs[0].key, ts[0].key, true) < 0) then
              walk == [Member(fs[0].key, Null)] + MergeWalk(bound, fs[1..], ts, cs)
              && after.0 == [fs[0]] + AfterMergeWalk(bound, fs[1..], ts, cs).0
              && after.1 == AfterMergeWalk(bound, fs[1..], ts, cs).1
            else if fs == [] || Cmp(fs[0].key, ts[0].key, true) > 0 then
              walk == [Member(ts[0].key, Relinked(ts[0].value))] + MergeWalk(bound, fs, ts[1..], cs)
              && after.0 == AfterMergeWalk(bound, fs, ts[1..], cs).0
              && after.1 == [ts[0]] + AfterMergeWalk(bound, fs, ts[1..], cs).1
            else
              var pair := AfterPair(fs[0].value, ts[0].value, cs);
              walk == (if SameSorted(fs[0].value, ts[0].value, cs) then MergeWalk(bound, fs[1..], ts[1..], cs)
                       else Both(fs[0], ts[0], cs) + MergeWalk(bound, fs[1..], ts[1..], cs))
              && after.0 == [Member(fs[0].key, pair.0)] + AfterMergeWalk(bound, fs[1..], ts[1..], cs).0
              && after.1 == [Member(ts[0].key, pair.1)] + AfterMergeWalk(bound, fs[1..], ts[1..], cs).1
  {
    hide SameSorted, GenerateMerge, AfterCompare, AfterPair, Cmp, Relinked;
  }

  lemma WalkEnds(bound: nat, fs: seq<Member<Json>>, ts: seq<Member<Json>>, cs: bool)
    requires fs == [] && ts == []
    ensures MergeWalk(bound, fs, ts, cs) == [] && AfterMergeWalk(bound, fs, ts, cs) == ([], [])
  {
  }
}
