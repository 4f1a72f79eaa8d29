/** Running the patches of one object, round by round, on an object whose link may be broken: what each round does, and
    what the rest of the run leaves alone. */
module WalkRuns {
  import opened CStrings
  import opened SiblingLinks
  import opened JsonTrees
  import opened Sorting
  import opened Comparing
  import opened Pointers
  import opened Edits
  import opened Diffing
  import opened Patching
  import opened PatchRoundTrip
  import opened PatchesBelow
  import opened BrokenLinks
  import opened Reorderings
  import opened Vocabularies

  // ---------- objects whose link may be broken ----------

  ghost predicate Open(d: Json, keys: iset<Str>, cs: bool) {
    d.Object? && DistinctKeys(d.members, cs) && forall m | m in d.members :: m.key in keys
  }

  lemma FoundAt(ms: seq<Member<Json>>, i: nat, name: Str, cs: bool)
    requires DistinctKeys(ms, cs) && i < |ms| && Norm(ms[i].key, cs) == Norm(name, cs)
    ensures FindKey(ms, name, cs) == i
  {
    hide Norm;
  }

  lemma KnownKey(d: Json, k: Str, cs: bool)
    requires d.Object?
    ensures Norm(k, cs) in Norms(d.members, cs) <==> FindKey(d.members, k, cs) < |d.members|
    ensures Norm(k, cs) in AbsMembers(d.members, cs) <==> FindKey(d.members, k, cs) < |d.members|
  {
    hide Norm;
    AbsKeys(d.members, cs);
    AbsLookup(d.members, k, cs);
  }

  /** Taking a member out. */
  lemma WithoutOpen(d: Json, k: Str, keys: iset<Str>, cs: bool)
    requires Open(d, keys, cs)
    ensures var w := WithoutMember(d, k, cs);
            Open(w, keys, cs) && Norm(k, cs) !in Norms(w.members, cs)
            && AbsMembers(w.members, cs) == AbsMembers(d.members, cs) - {Norm(k, cs)}
  {
    hide AbsMembers, Norm, DistinctKeys;
    WithoutMeans(d.members, k, cs);
    WithoutInside(d.members, k, cs);
  }

  lemma WithoutLookup(d: Json, k: Str, name: Str, keys: iset<Str>, cs: bool)
    requires Open(d, keys, cs) && Norm(name, cs) != Norm(k, cs)
    ensures GetMember(WithoutMember(d, k, cs), name, cs) == GetMember(d, name, cs)
  {
    hide Norm, DistinctKeys;
    var ms, i, at := d.members, FindKey(d.members, k, cs), FindKey(d.members, name, cs);
    if i < |ms| {
      DistinctRemove(ms, i, cs);
      hide RemoveAt;
      RemovedShift(ms, i, at);
      var rs := RemoveAt(ms, i);
      if at < |ms| {
        FoundAt(rs, if at < i then at else at - 1, name, cs);
      } else {
        assert forall m | m in rs :: Norm(m.key, cs) != Norm(name, cs);
      }
    }
  }

  lemma RemovedShift(ms: seq<Member<Json>>, i: nat, at: nat)
    requires i < |ms|
    ensures var rs := RemoveAt(ms, i);
            |rs| == |ms| - 1 && (forall m | m in rs :: m in ms)
            && (at < |ms| && at != i ==> rs[if at < i then at else at - 1] == ms[at])
  {
  }

  /** What the link is when a member has been taken out: only taking out the last one repairs it. */
  lemma LinkRepaired(link: Link, n: nat, i: nat)
    requires i < n
    ensures Normal(LinkWithout(link, n, i), n - 1).Right? <==> Normal(link, n).Right? || i == n - 1
  {
  }

  lemma WithoutLink(d: Json, k: Str, cs: bool)
    requires d.Object? && FindKey(d.members, k, cs) < |d.members|
    ensures RightLink(WithoutMember(d, k, cs)) <==> RightLink(d) || FindKey(d.members, k, cs) == |d.members| - 1
  {
    LinkRepaired(d.link, |d.members|, FindKey(d.members, k, cs));
  }

  /** Appending: what is there afterwards, at most. */
  lemma AddedOpen(d: Json, m: Member<Json>, keys: iset<Str>, cs: bool)
    requires Open(d, keys, cs) && m.key in keys && Norm(m.key, cs) !in Norms(d.members, cs)
    ensures var a := AddedMember(d, m);
            Open(a, keys, cs)
            && forall n | n != Norm(m.key, cs) :: Carried(n, AbsMembers(d.members, cs), AbsMembers(a.members, cs))
  {
    hide AbsMembers, Norm, Abs;
    var ms, link := d.members, Normal(d.link, |d.members|);
    if link.Right? {
      AbsAppend(ms, m, cs);
    } else if link.To? {
      var front := ms[..link.i + 1];
      PrefixCarried(ms, link.i + 1, cs);
      AbsAppend(front, m, cs);
      forall n | n != Norm(m.key, cs) ensures Carried(n, AbsMembers(ms, cs), AbsMembers(front + [m], cs)) {
        assert Carried(n, AbsMembers(ms, cs), AbsMembers(front, cs));
      }
    }
  }

  /** A meaning under a key that was there before. */
  ghost predicate Carried(n: Str, before: map<Str, Val>, after: map<Str, Val>) {
    n in after ==> n in before && after[n] == before[n]
  }

  lemma PrefixCarried(ms: seq<Member<Json>>, i: nat, cs: bool)
    requires DistinctKeys(ms, cs) && i <= |ms|
    ensures DistinctKeys(ms[..i], cs) && Norms(ms[..i], cs) <= Norms(ms, cs)
    ensures forall n :: Carried(n, AbsMembers(ms, cs), AbsMembers(ms[..i], cs))
  {
    hide AbsMembers, Norm, Abs;
    AbsKeys(ms[..i], cs);
    AbsKeys(ms, cs);
    forall n ensures Carried(n, AbsMembers(ms, cs), AbsMembers(ms[..i], cs)) {
      if n in AbsMembers(ms[..i], cs) {
        var m :| m in ms[..i] && Norm(m.key, cs) == n;
        AbsOf(ms[..i], m, cs);
        AbsOf(ms, m, cs);
      }
    }
  }

  /** With the right link the new member is behind the others. */
  lemma AddedRight(d: Json, m: Member<Json>, keys: iset<Str>, cs: bool)
    requires Open(d, keys, cs) && m.key in keys && Norm(m.key, cs) !in Norms(d.members, cs) && RightLink(d)
    ensures var a := AddedMember(d, m);
            a == Object(d.members + [m]) && Open(a, keys, cs) && RightLink(a)
            && AbsMembers(a.members, cs) == AbsMembers(d.members, cs)[Norm(m.key, cs) := Abs(m.value, cs)]
    ensures forall name: Str | Norm(name, cs) != Norm(m.key, cs) ::
              GetMember(AddedMember(d, m), name, cs) == GetMember(d, name, cs)
  {
    hide AbsMembers, Norm, Abs;
    var ms := d.members;
    AbsAppend(ms, m, cs);
    forall name: Str | Norm(name, cs) != Norm(m.key, cs)
      ensures GetMember(AddedMember(d, m), name, cs) == GetMember(d, name, cs)
    {
      var at := FindKey(ms, name, cs);
      if at < |ms| { FoundAt(ms + [m], at, name, cs); }
    }
  }

  /** With a broken link something is lost: the new member, or the one that was last. */
  lemma AddedBroken(d: Json, m: Member<Json>, keys: iset<Str>, cs: bool) returns (lost: Str)
    requires Open(d, keys, cs) && Norm(m.key, cs) !in Norms(d.members, cs) && !RightLink(d)
    ensures d.members != [] && lost !in Norms(AddedMember(d, m).members, cs)
    ensures lost == Norm(m.key, cs) || lost == Norm(d.members[|d.members| - 1].key, cs)
  {
    hide Norm;
    var link := Normal(d.link, |d.members|);
    if link.To? {
      LastIsCut(d.members, m, link.i, cs);
      return Norm(d.members[|d.members| - 1].key, cs);
    }
    return Norm(m.key, cs);
  }

  /** Changing the value of a member. */
  lemma KidChanged(d: Json, i: nat, x: Json, keys: iset<Str>, cs: bool)
    requires Open(d, keys, cs) && i < |d.members|
    ensures var w, n := WithKid(d, i, x), Norm(d.members[i].key, cs);
            Open(w, keys, cs) && w.link == d.link && |w.members| == |d.members|
            && (forall p | 0 <= p < |d.members| :: w.members[p].key == d.members[p].key)
            && AbsMembers(w.members, cs) == AbsMembers(d.members, cs)[n := Abs(x, cs)]
            && forall name: Str | Norm(name, cs) != n :: GetMember(w, name, cs) == GetMember(d, name, cs)
  {
    hide AbsMembers, Norm, Abs;
    var ms, ns := d.members, d.members[i := Member(d.members[i].key, x)];
    AbsUpdate(ms, i, x, cs);
    forall p | 0 <= p < |ns| ensures ns[p].key in keys { assert ms[p] in ms; }
    forall name: Str | Norm(name, cs) != Norm(ms[i].key, cs)
      ensures GetMember(WithKid(d, i, x), name, cs) == GetMember(d, name, cs)
    {
      SameFindKey(ms, ns, name, cs);
    }
  }

  // ---------- what the patches of one round do ----------

  lemma RemoveStep(d: Json, k: Str, keys: iset<Str>, cs: bool)
    requires Vocabulary(keys, cs) && Open(d, keys, cs) && k in keys
    ensures Apply(d, ToPatch(Edit(Remove, [Key(k)], None)), cs)
            == if Norm(k, cs) in Norms(d.members, cs) then Outcome(0, WithoutMember(d, k, cs)) else Outcome(13, d)
  {
    hide Compose, Apply, PathText, Norm, WithoutMember, Norms;
    RootPath(k, cs);
    RemoveIsDetach(d, PathText([Key(k)]), cs);
    DetachAtRoot(d, k, cs);
    DetachKnown(d, k, keys, cs);
  }

  lemma DetachKnown(d: Json, k: Str, keys: iset<Str>, cs: bool)
    requires Vocabulary(keys, cs) && Open(d, keys, cs) && k in keys
    ensures var r := DetachChild(d, k);
            if Norm(k, cs) in Norms(d.members, cs) then r.Some? && r.value.0 == WithoutMember(d, k, cs) else r.None?
  {
    hide Norm, Norms;
    KnownKey(d, k, cs);
    FindKeyAnyCase(d.members, k, keys, cs);
  }

  /** The member that an add puts behind the others. */
  function NewMember(k: Str, x: Json): Member<Json> {
    Member(k, Relinked(x))
  }

  /** Appending, as far as something is promised. */
  ghost function Adding(d: Json, m: Member<Json>): Outcome
    requires d.Object?
  {
    if Appendable(d) then Outcome(0, AddedMember(d, m)) else Outcome(UNDEFINED, d)
  }

  lemma AddStep(d: Json, k: Str, x: Json, keys: iset<Str>, cs: bool)
    requires Vocabulary(keys, cs) && Open(d, keys, cs) && k in keys
    ensures var r := Apply(d, ToPatch(Edit(Add, [Key(k)], Some(x))), cs);
            r.status == Adding(WithoutMember(d, k, cs), NewMember(k, x)).status
            && (r.status == 0 ==> r.root == AddedMember(WithoutMember(d, k, cs), NewMember(k, x)))
  {
    hide Compose, Apply, PathText, Norm, WithoutMember, Norms, AddedMember, Appendable, Relinked;
    AddAtRoot(d, k, Relinked(x), cs);
    RelinkedTwice(x);
  }

  lemma RelinkedTwice(x: Json)
    ensures Relinked(Relinked(x)) == Relinked(x)
  {
    RelinkedIsWellLinked(x);
    RelinkedIsWellLinked(Relinked(x));
  }

  lemma ReplaceStep(d: Json, k: Str, x: Json, keys: iset<Str>, cs: bool)
    requires Vocabulary(keys, cs) && Open(d, keys, cs) && k in keys
    ensures Apply(d, ToPatch(Edit(Replace, [Key(k)], Some(x))), cs)
            == if Norm(k, cs) in Norms(d.members, cs) then Adding(WithoutMember(d, k, cs), NewMember(k, x))
               else Outcome(13, d)
  {
    hide Compose, Apply, PathText, Norm, WithoutMember, Norms, AddedMember, Appendable, Relinked, InsertChild;
    hide DetachChild;
    var p, w := PathText([Key(k)]), WithoutMember(d, k, cs);
    RootPath(k, cs);
    ReplaceIsBoth(d, p, Relinked(x), cs);
    DetachAtRoot(d, k, cs);
    DetachKnown(d, k, keys, cs);
    RelinkedTwice(x);
    if Norm(k, cs) in Norms(d.members, cs) {
      InsertAtRoot(w, k, Relinked(x), cs);
      WithoutOpen(d, k, keys, cs);
      InsertNew(w, k, Relinked(x), cs);
    }
  }

  lemma InsertNew(d: Json, k: Str, x: Json, cs: bool)
    requires d.Object? && Norm(k, cs) !in Norms(d.members, cs)
    ensures InsertChild(d, k, x, cs) == Adding(d, Member(k, x))
  {
    hide Norm, WithoutMember, Norms, AddedMember, Appendable;
    WithoutNew(d, k, cs);
  }

  /** The edits of a member, seen from the object. */
  lemma MemberEdits(name: Str, f: Json, t: Json, cs: bool)
    ensures Diff([Key(name)], f, t, cs) == AllBelow(Key(name), Diff([], f, t, cs))
    ensures Replaced(f, t) ==> Diff([Key(name)], f, t, cs) == [Edit(Replace, [Key(name)], Some(t))]
    ensures !Replaced(f, t) ==> Deep(Diff([], f, t, cs))
  {
    hide Diff, Deep, Replaced;
    assert [Key(name)] + [] == [Key(name)];
    DiffBelow(Key(name), [], f, t, cs);
    DiffAtRoot(f, t, cs);
    BelowOne(Key(name), Edit(Replace, [], Some(t)));
  }

  lemma KidOfKey(d: Json, name: Str, cs: bool)
    requires d.Object?
    ensures Suits(Key(name), d)
    ensures var i := FindKey(d.members, name, cs);
            KidOf(d, Key(name), cs) == (if i < |d.members| then Some(i) else None)
            && (i < |d.members| ==> Kids(d)[i] == d.members[i].value)
  {
  }

  /** The edits that make `t` of the member `f`. */
  lemma NestedStep(d: Json, f: Member<Json>, t: Json, keys: iset<Str>, cs: bool)
    requires d.Object? && !Replaced(f.value, t)
    ensures var r, i := ApplyAll(d, ToPatches(Diff([Key(f.key)], f.value, t, cs)), cs), FindKey(d.members, f.key, cs);
            if i < |d.members| then
              var below := ApplyAll(d.members[i].value, Generate(f.value, t, cs), cs);
              r == Outcome(below.status, WithKid(d, i, below.root))
            else r.status != 0 || r == Outcome(0, d)
  {
    hide ApplyAll, Diff, FindKey, WithKid, AllBelow, ToPatches, Deep, KidOf, Kids, Suits, Replaced;
    var edits, k := Diff([], f.value, t, cs), Key(f.key);
    MemberEdits(f.key, f.value, t, cs);
    KidOfKey(d, f.key, cs);
    var i := FindKey(d.members, f.key, cs);
    if i < |d.members| {
      ApplyAllBelow(d, k, i, edits, cs);
    } else if edits != [] {
      NoneBelow(d, k, edits, cs);
    } else {
      NoRun(d, k, cs);
    }
  }

  lemma NoRun(d: Json, t: Token, cs: bool)
    ensures ApplyAll(d, ToPatches(AllBelow(t, [])), cs) == Outcome(0, d)
  {
  }

  lemma ReplacedStep(d: Json, f: Member<Json>, t: Json, keys: iset<Str>, cs: bool)
    requires Replaced(f.value, t)
    ensures ApplyAll(d, ToPatches(Diff([Key(f.key)], f.value, t, cs)), cs)
            == Apply(d, ToPatch(Edit(Replace, [Key(f.key)], Some(t))), cs)
  {
    hide Apply, Diff, ToPatch, Replaced;
    MemberEdits(f.key, f.value, t, cs);
    OneRun(d, Edit(Replace, [Key(f.key)], Some(t)), cs);
  }

  lemma OneRun(d: Json, e: Edit, cs: bool)
    ensures ApplyAll(d, ToPatches([e]), cs) == Apply(d, ToPatch(e), cs)
  {
    hide Apply, ToPatch;
    assert [e][1..] == [];
    var r := Apply(d, ToPatch(e), cs);
    assert ToPatches([e]) == [ToPatch(e)] && [ToPatch(e)][1..] == [];
    if r.status == 0 { assert ApplyAll(r.root, [], cs) == r; }
  }

  // ---------- the walk ----------

  ghost function WalkRun(owner: Json, d: Json, fs: seq<Member<Json>>, ts: seq<Member<Json>>, cs: bool): Outcome
    requires forall m | m in fs :: m.value < owner
  {
    ApplyAll(d, ToPatches(DiffWalk(owner, [], fs, ts, cs)), cs)
  }

  /** The run of the rest behind what a first part has made. */
  ghost function RestBehind(r: Outcome, owner: Json, fs: seq<Member<Json>>, ts: seq<Member<Json>>, cs: bool): Outcome
    requires forall m | m in fs :: m.value < owner
  {
    if r.status != 0 then r else WalkRun(owner, r.root, fs, ts, cs)
  }

  lemma WalkUnfolds(owner: Json, fs: seq<Member<Json>>, ts: seq<Member<Json>>, cs: bool)
    requires (forall m | m in fs :: m.value < owner) && (fs != [] || ts != [])
    ensures var diff, walk := WalkOrder(fs, ts, cs), DiffWalk(owner, [], fs, ts, cs);
            if diff == 0 then
              walk == Diff([Key(fs[0].key)], fs[0].value, ts[0].value, cs) + DiffWalk(owner, [], fs[1..], ts[1..], cs)
            else if diff < 0 then
              walk == [Edit(Remove, [Key(fs[0].key)], None)] + DiffWalk(owner, [], fs[1..], ts, cs)
            else
              walk == [Edit(Add, [Key(ts[0].key)], Some(ts[0].value))] + DiffWalk(owner, [], fs, ts[1..], cs)
  {
    hide Diff, Cmp;
    if fs != [] { assert [] + [Key(fs[0].key)] == [Key(fs[0].key)]; }
    if ts != [] { assert [] + [Key(ts[0].key)] == [Key(ts[0].key)]; }
  }

  lemma WalkRunUnfolds(owner: Json, d: Json, fs: seq<Member<Json>>, ts: seq<Member<Json>>, cs: bool)
    requires (forall m | m in fs :: m.value < owner) && (fs != [] || ts != [])
    ensures var diff, run := WalkOrder(fs, ts, cs), WalkRun(owner, d, fs, ts, cs);
            if diff == 0 then
              run == RestBehind(ApplyAll(d, ToPatches(Diff([Key(fs[0].key)], fs[0].value, ts[0].value, cs)), cs),
                                owner, fs[1..], ts[1..], cs)
            else if diff < 0 then
              run == RestBehind(Apply(d, ToPatch(Edit(Remove, [Key(fs[0].key)], None)), cs), owner, fs[1..], ts, cs)
            else
              run == RestBehind(Apply(d, ToPatch(Edit(Add, [Key(ts[0].key)], Some(ts[0].value))), cs),
                                owner, fs, ts[1..], cs)
  {
    hide Apply, ApplyAll, ToPatch, ToPatches, Diff, DiffWalk, Cmp, WalkRun, RestBehind;
    WalkUnfolds(owner, fs, ts, cs);
    var diff := WalkOrder(fs, ts, cs);
    if diff == 0 {
      RunBehind(owner, d, Diff([Key(fs[0].key)], fs[0].value, ts[0].value, cs), fs, ts, fs[1..], ts[1..], cs);
    } else if diff < 0 {
      var e := Edit(Remove, [Key(fs[0].key)], None);
      RunBehind(owner, d, [e], fs, ts, fs[1..], ts, cs);
      OneRun(d, e, cs);
    } else {
      var e := Edit(Add, [Key(ts[0].key)], Some(ts[0].value));
      RunBehind(owner, d, [e], fs, ts, fs, ts[1..], cs);
      OneRun(d, e, cs);
    }
  }

  lemma RunBehind(owner: Json, d: Json, first: seq<Edit>, fs: seq<Member<Json>>, ts: seq<Member<Json>>,
                  fs': seq<Member<Json>>, ts': seq<Member<Json>>, cs: bool)
    requires (forall m | m in fs :: m.value < owner) && forall m | m in fs' :: m.value < owner
    requires DiffWalk(owner, [], fs, ts, cs) == first + DiffWalk(owner, [], fs', ts', cs)
    ensures WalkRun(owner, d, fs, ts, cs) == RestBehind(ApplyAll(d, ToPatches(first), cs), owner, fs', ts', cs)
  {
    hide ApplyAll, ToPatches, DiffWalk;
    RunInParts(d, first, DiffWalk(owner, [], fs', ts', cs), cs);
  }

  // ---------- what is gone stays gone ----------

  ghost predicate Lists(owner: Json, fs: seq<Member<Json>>, ts: seq<Member<Json>>, keys: iset<Str>, cs: bool) {
    (forall f | f in fs :: f.value < owner && f.key in keys) && (forall t | t in ts :: t.key in keys)
    && Sorted(fs, cs) && DistinctKeys(fs, cs) && Sorted(ts, cs) && DistinctKeys(ts, cs)
  }

  lemma ListsTail(owner: Json, fs: seq<Member<Json>>, ts: seq<Member<Json>>, keys: iset<Str>, cs: bool)
    requires Lists(owner, fs, ts, keys, cs)
    ensures fs != [] ==> fs[0].key in keys && fs[0].value < owner && Lists(owner, fs[1..], ts, keys, cs)
    ensures ts != [] ==> ts[0].key in keys && Lists(owner, fs, ts[1..], keys, cs)
    ensures fs != [] && ts != [] ==> Lists(owner, fs[1..], ts[1..], keys, cs)
  {
    hide Sorted, DistinctKeys;
    if fs != [] { SortedTail(fs, cs); }
    if ts != [] { SortedTail(ts, cs); }
  }

  lemma SortedTail(ms: seq<Member<Json>>, cs: bool)
    requires ms != [] && Sorted(ms, cs) && DistinctKeys(ms, cs)
    ensures Sorted(ms[1..], cs) && DistinctKeys(ms[1..], cs)
  {
    hide Cmp, Norm;
  }

  /** The norms of a list with distinct keys, by its head. */
  lemma NormsTail(ms: seq<Member<Json>>, cs: bool)
    requires ms != [] && DistinctKeys(ms, cs)
    ensures Norms(ms, cs) == {Norm(ms[0].key, cs)} + Norms(ms[1..], cs)
    ensures Norm(ms[0].key, cs) !in Norms(ms[1..], cs)
  {
    hide Norm;
    forall m | m in ms[1..] ensures Norm(m.key, cs) != Norm(ms[0].key, cs) {
      var i :| 0 <= i < |ms[1..]| && ms[1..][i] == m;
      assert ms[i + 1] == m;
    }
    assert ms == [ms[0]] + ms[1..];
  }

  /** Keys that come later differ from the key of a round. */
  lemma LaterKeys(fs: seq<Member<Json>>, ts: seq<Member<Json>>, cs: bool)
    requires Sorted(fs, cs) && DistinctKeys(fs, cs) && Sorted(ts, cs) && DistinctKeys(ts, cs) && (fs != [] || ts != [])
    ensures WalkOrder(fs, ts, cs) == 0 ==> Norm(fs[0].key, cs) == Norm(ts[0].key, cs)
    ensures WalkOrder(fs, ts, cs) < 0 ==> Norm(fs[0].key, cs) !in Norms(ts, cs)
    ensures WalkOrder(fs, ts, cs) > 0 ==> Norm(ts[0].key, cs) !in Norms(fs, cs)
  {
    hide Norm, Cmp;
    AbsKeys(fs, cs);
    AbsKeys(ts, cs);
    if fs != [] && ts != [] {
      CmpZero(fs[0].key, ts[0].key, cs);
      CmpFlip(ts[0].key, fs[0].key, cs);
    }
    if WalkOrder(fs, ts, cs) < 0 {
      BelowAll(ts, fs[0].key, cs);
    } else if WalkOrder(fs, ts, cs) > 0 {
      BelowAll(fs, ts[0].key, cs);
    }
  }

  /** A round that succeeds changes nothing under other keys, except that it may lose it. */
  ghost predicate OnlyAt(k: Str, before: Json, after: Json, keys: iset<Str>, cs: bool)
    requires before.Object?
  {
    Open(after, keys, cs)
    && forall n | n != Norm(k, cs) :: Carried(n, AbsMembers(before.members, cs), AbsMembers(after.members, cs))
  }

  lemma OnlyAtAdded(d: Json, m: Member<Json>, keys: iset<Str>, cs: bool)
    requires Open(d, keys, cs) && m.key in keys
    ensures OnlyAt(m.key, d, AddedMember(WithoutMember(d, m.key, cs), m), keys, cs)
  {
    hide AbsMembers, Norm, Norms, WithoutMember, AddedMember;
    var w := WithoutMember(d, m.key, cs);
    WithoutOpen(d, m.key, keys, cs);
    AddedOpen(w, m, keys, cs);
    var before, mid, after := AbsMembers(d.members, cs), AbsMembers(w.members, cs),
        AbsMembers(AddedMember(w, m).members, cs);
    forall n | n != Norm(m.key, cs) ensures Carried(n, before, after) {
      assert Carried(n, mid, after);
    }
  }

  lemma GoneRound(d: Json, k: Str, keys: iset<Str>, cs: bool)
    requires Vocabulary(keys, cs) && Open(d, keys, cs) && k in keys
    ensures var r := Apply(d, ToPatch(Edit(Remove, [Key(k)], None)), cs);
            r.status == 0 ==> OnlyAt(k, d, r.root, keys, cs) && Norm(k, cs) in Norms(d.members, cs)
  {
    hide AbsMembers, Norm, Norms, WithoutMember, Apply, ToPatch;
    RemoveStep(d, k, keys, cs);
    WithoutOpen(d, k, keys, cs);
  }

  lemma NewRound(d: Json, k: Str, x: Json, keys: iset<Str>, cs: bool)
    requires Vocabulary(keys, cs) && Open(d, keys, cs) && k in keys
    ensures var r := Apply(d, ToPatch(Edit(Add, [Key(k)], Some(x))), cs);
            r.status == 0 ==> OnlyAt(k, d, r.root, keys, cs)
  {
    hide AbsMembers, Norm, Norms, WithoutMember, Apply, ToPatch, AddedMember, OnlyAt;
    AddStep(d, k, x, keys, cs);
    OnlyAtAdded(d, NewMember(k, x), keys, cs);
  }

  lemma BothRound(d: Json, f: Member<Json>, t: Json, keys: iset<Str>, cs: bool)
    requires Vocabulary(keys, cs) && Open(d, keys, cs) && f.key in keys
    ensures var r := ApplyAll(d, ToPatches(Diff([Key(f.key)], f.value, t, cs)), cs);
            r.status == 0 ==> OnlyAt(f.key, d, r.root, keys, cs)
                              && (Norm(f.key, cs) !in Norms(d.members, cs) ==> r.root == d)
  {
    hide AbsMembers, Norm, Norms, WithoutMember, Apply, ApplyAll, ToPatch, ToPatches, AddedMember, Diff, Replaced;
    hide WithKid, Carried;
    var i := FindKey(d.members, f.key, cs);
    KnownKey(d, f.key, cs);
    if Replaced(f.value, t) {
      ReplacedStep(d, f, t, keys, cs);
      ReplaceStep(d, f.key, t, keys, cs);
      OnlyAtAdded(d, NewMember(f.key, t), keys, cs);
    } else {
      NestedStep(d, f, t, keys, cs);
      if i < |d.members| {
        var x := ApplyAll(d.members[i].value, Generate(f.value, t, cs), cs).root;
        KidChanged(d, i, x, keys, cs);
        OtherKeys(AbsMembers(d.members, cs), Norm(f.key, cs), Abs(x, cs), AbsMembers(WithKid(d, i, x).members, cs));
      } else {
        NoChange(f.key, d, keys, cs);
      }
    }
  }

  lemma OtherKeys(m: map<Str, Val>, k: Str, x: Val, after: map<Str, Val>)
    requires after == m[k := x]
    ensures forall n | n != k :: Carried(n, m, after)
  {
  }

  lemma NoChange(k: Str, d: Json, keys: iset<Str>, cs: bool)
    requires Open(d, keys, cs)
    ensures OnlyAt(k, d, d, keys, cs)
  {
  }

  /** After a walk that succeeds: what neither list mentions has not come back, and a member of `from` that was
      missing is a member of `to` and still missing. */
  ghost predicate Framed(n: Str, fn: set<Str>, tn: set<Str>, d: Json, r: Outcome, cs: bool)
    requires d.Object?
  {
    r.status == 0 ==>
      r.root.Object?
      && (n !in fn && n !in tn ==> Carried(n, AbsMembers(d.members, cs), AbsMembers(r.root.members, cs)))
      && (n in fn && n !in Norms(d.members, cs) ==> n in tn && n !in AbsMembers(r.root.members, cs))
  }

  lemma {:induction false} Frame(owner: Json, d: Json, fs: seq<Member<Json>>, ts: seq<Member<Json>>, n: Str,
                                 keys: iset<Str>, cs: bool)
    requires Vocabulary(keys, cs) && Open(d, keys, cs) && Lists(owner, fs, ts, keys, cs)
    ensures Framed(n, Norms(fs, cs), Norms(ts, cs), d, WalkRun(owner, d, fs, ts, cs), cs)
    decreases |fs| + |ts|
  {
    if fs == [] && ts == [] {
      EmptyWalk(owner, d, cs);
    } else {
      hide Open, Lists, Norm, Norms, AbsMembers, WalkRun, Vocabulary, Framed, OnlyAt, WalkOrder;
      var k, r, fs', ts' := FrameRound(owner, d, fs, ts, keys, cs);
      var run := WalkRun(owner, d, fs, ts, cs);
      if r.status == 0 {
        OpenAfter(k, d, r.root, keys, cs);
        Frame(owner, r.root, fs', ts', n, keys, cs);
        FrameStep(k, n, Norms(fs, cs), Norms(ts, cs), Norms(fs', cs), Norms(ts', cs), d, r.root, run, keys, cs);
      } else {
        Unframed(n, Norms(fs, cs), Norms(ts, cs), d, run, cs);
      }
    }
  }

  /** One round: its key, what it makes of the document, and what is left to walk over. */
  lemma FrameRound(owner: Json, d: Json, fs: seq<Member<Json>>, ts: seq<Member<Json>>, keys: iset<Str>, cs: bool)
    returns (k: Str, r: Outcome, fs': seq<Member<Json>>, ts': seq<Member<Json>>)
    requires Vocabulary(keys, cs) && Open(d, keys, cs) && Lists(owner, fs, ts, keys, cs) && (fs != [] || ts != [])
    ensures |fs'| + |ts'| < |fs| + |ts| && Lists(owner, fs', ts', keys, cs)
    ensures WalkRun(owner, d, fs, ts, cs) == RestBehind(r, owner, fs', ts', cs)
    ensures r.status == 0 ==>
              d.Object? && OnlyAt(k, d, r.root, keys, cs)
              && (Norm(k, cs) in Norms(fs, cs) && Norm(k, cs) !in Norms(d.members, cs) ==>
                    r.root == d && Norm(k, cs) in Norms(ts, cs))
    ensures Norms(fs, cs) == Norms(fs', cs) || Norms(fs, cs) == {Norm(k, cs)} + Norms(fs', cs)
    ensures Norms(ts, cs) == Norms(ts', cs) || Norms(ts, cs) == {Norm(k, cs)} + Norms(ts', cs)
    ensures Norm(k, cs) !in Norms(fs', cs) && Norm(k, cs) !in Norms(ts', cs)
    ensures Norm(k, cs) in Norms(fs, cs) || Norm(k, cs) in Norms(ts, cs)
  {
    hide Norm, Norms, AbsMembers, Apply, ApplyAll, ToPatch, ToPatches, Diff, WalkRun, Cmp, Vocabulary, OnlyAt;
    hide RestBehind;
    hide Sorted, DistinctKeys;
    WalkRunUnfolds(owner, d, fs, ts, cs);
    ListsTail(owner, fs, ts, keys, cs);
    ListsApart(owner, fs, ts, keys, cs);
    var diff := WalkOrder(fs, ts, cs);
    k := if diff <= 0 then fs[0].key else ts[0].key;
    fs', ts' := if diff <= 0 then fs[1..] else fs, if diff >= 0 then ts[1..] else ts;
    if diff == 0 {
      BothRound(d, fs[0], ts[0].value, keys, cs);
      r := ApplyAll(d, ToPatches(Diff([Key(fs[0].key)], fs[0].value, ts[0].value, cs)), cs);
    } else if diff < 0 {
      GoneRound(d, fs[0].key, keys, cs);
      r := Apply(d, ToPatch(Edit(Remove, [Key(fs[0].key)], None)), cs);
    } else {
      NewRound(d, ts[0].key, ts[0].value, keys, cs);
      r := Apply(d, ToPatch(Edit(Add, [Key(ts[0].key)], Some(ts[0].value))), cs);
    }
  }

  lemma OpenAfter(k: Str, d: Json, after: Json, keys: iset<Str>, cs: bool)
    requires d.Object? && OnlyAt(k, d, after, keys, cs)
    ensures Open(after, keys, cs) && after.Object?
  {
  }

  lemma Unframed(n: Str, fn: set<Str>, tn: set<Str>, d: Json, r: Outcome, cs: bool)
    requires d.Object? && r.status != 0
    ensures Framed(n, fn, tn, d, r, cs)
  {
  }

  lemma FrameStep(k: Str, n: Str, fn: set<Str>, tn: set<Str>, fn': set<Str>, tn': set<Str>,
                  d: Json, mid: Json, r: Outcome, keys: iset<Str>, cs: bool)
    requires d.Object? && mid.Object? && OnlyAt(k, d, mid, keys, cs) && Framed(n, fn', tn', mid, r, cs)
    requires fn == fn' || fn == {Norm(k, cs)} + fn'
    requires tn == tn' || tn == {Norm(k, cs)} + tn'
    requires Norm(k, cs) !in fn' && Norm(k, cs) !in tn' && (Norm(k, cs) in fn || Norm(k, cs) in tn)
    requires Norm(k, cs) in fn && Norm(k, cs) !in Norms(d.members, cs) ==> mid == d && Norm(k, cs) in tn
    ensures Framed(n, fn, tn, d, r, cs)
  {
    hide Norm, Norms, AbsMembers, Open;
    StillMissing(k, d, mid, n, keys, cs);
  }

  lemma EmptyWalk(owner: Json, d: Json, cs: bool)
    ensures WalkRun(owner, d, [], [], cs) == Outcome(0, d)
  {
  }

  lemma ListsApart(owner: Json, fs: seq<Member<Json>>, ts: seq<Member<Json>>, keys: iset<Str>, cs: bool)
    requires Lists(owner, fs, ts, keys, cs) && (fs != [] || ts != [])
    ensures WalkOrder(fs, ts, cs) == 0 ==> Norm(fs[0].key, cs) == Norm(ts[0].key, cs)
    ensures WalkOrder(fs, ts, cs) < 0 ==> Norm(fs[0].key, cs) !in Norms(ts, cs)
    ensures WalkOrder(fs, ts, cs) > 0 ==> Norm(ts[0].key, cs) !in Norms(fs, cs)
    ensures fs != [] ==>
              Norms(fs, cs) == {Norm(fs[0].key, cs)} + Norms(fs[1..], cs)
              && Norm(fs[0].key, cs) !in Norms(fs[1..], cs)
    ensures ts != [] ==>
              Norms(ts, cs) == {Norm(ts[0].key, cs)} + Norms(ts[1..], cs)
              && Norm(ts[0].key, cs) !in Norms(ts[1..], cs)
  {
    hide Norm, Cmp;
    LaterKeys(fs, ts, cs);
    if fs != [] { NormsTail(fs, cs); }
    if ts != [] { NormsTail(ts, cs); }
  }

  lemma StillMissing(k: Str, before: Json, after: Json, n: Str, keys: iset<Str>, cs: bool)
    requires before.Object? && OnlyAt(k, before, after, keys, cs)
    ensures n != Norm(k, cs) ==> Carried(n, AbsMembers(before.members, cs), AbsMembers(after.members, cs))
                                 && (n !in Norms(before.members, cs) ==> n !in Norms(after.members, cs))
    ensures n in Norms(before.members, cs) <==> n in AbsMembers(before.members, cs)
  {
    AbsKeys(before.members, cs);
    AbsKeys(after.members, cs);
  }
}
