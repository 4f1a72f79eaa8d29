/** Generating patches: create_patches appends to a patch array as it walks two trees. The array
    it leaves is the one that the edit list of Diffing spells. */
module PatchGenerator {
  import opened CStrings
  import opened SiblingLinks
  import opened JsonTrees
  import opened Sorting
  import opened Comparing
  import opened Pointers
  import opened Edits
  import opened Diffing
  import opened PatchRoundTrip

  lemma ToPatchesOne(e: Edit, rest: seq<Edit>)
    ensures ToPatches([e] + rest) == [ToPatch(e)] + ToPatches(rest)
  {
    assert ([e] + rest)[1..] == rest;
  }

  /** The path of a child: its parent's path, a slash, and the escaped suffix, in a buffer of
      exactly strlen(path) + pointer_encoded_length(suffix) + 2 bytes. */
  method FullPath(path: Str, suffix: Str) returns (full: Str)
    ensures full == path + "/" + Encode(suffix)
  {
    var suffixLength := PointerEncodedLength(suffix);
    var buffer := new char[|path| + suffixLength + 2];
    forall i | 0 <= i < |path| { buffer[i] := path[i]; }
    buffer[|path|] := '/';
    EncodeStringAsPointer(buffer, |path| + 1, suffix);
    full := buffer[..|path| + 1 + suffixLength];
  }

  /** The array of patches under construction. */
  class PatchArray {
    var items: seq<Json>

    constructor ()
      ensures items == []
    {
      items := [];
    }

    /** compose_patch: without a suffix the path is taken as it stands, and the value is duplicated. */
    method ComposePatch(operation: Str, path: Str, suffix: Option<Str>, value: Option<Json>)
      modifies this
      ensures items == old(items)
                       + [Compose(operation,
                                  match suffix { case None => path case Some(s) => path + "/" + Encode(s) },
                                  if value.Some? then Some(Relinked(value.value)) else None)]
    {
      var full := path;
      if suffix.Some? {
        full := FullPath(path, suffix.value);
      }
      var patch := [Member("op", String(operation)), Member("path", String(full))];
      if value.Some? {
        patch := patch + [Member("value", Relinked(value.value))];
      }
      assert Object(patch) == Compose(operation, full, if value.Some? then Some(Relinked(value.value)) else None);
      items := items + [Object(patch)];
    }

    /** create_patches; `tokens` is the path that the text spells. Both trees are given back as the sorting
        leaves them. */
    method CreatePatches(path: Str, ghost tokens: seq<Token>, from: Json, to: Json, caseSensitive: bool)
      returns (from': Json, to': Json)
      requires path == PathText(tokens)
      modifies this
      ensures items == old(items) + ToPatches(Diff(tokens, from, to, caseSensitive))
      ensures (from', to') == AfterDiff(from, to, caseSensitive)
      decreases from, 1
    {
      hide PathText, Encode, Relinked, Sort, Sorted, DiffElems, DiffWalk, AfterDiffElems, AfterDiffWalk;
      from', to' := from, to;
      if !SameType(from, to) {
        ToPatchesOne(Edit(Replace, tokens, Some(to)), []);
        ComposePatch("replace", path, None, Some(to));
        return;
      }
      match from {
        case Number(d) =>
          if d != to.num {
            ToPatchesOne(Edit(Replace, tokens, Some(to)), []);
            ComposePatch("replace", path, None, Some(to));
          }
        case String(s) =>
          if s != to.text {
            ToPatchesOne(Edit(Replace, tokens, Some(to)), []);
            ComposePatch("replace", path, None, Some(to));
          }
        case Array(es) =>
          var fs, ts := CreateElementPatches(path, tokens, es, to.elems, caseSensitive);
          from', to' := Array(fs), Array(ts);
        case Object(ms, _) =>
          SortCorrect(ms, caseSensitive);
          var f, t := SortedObject(from, caseSensitive), SortedObject(to, caseSensitive);
          var fs, ts := CreateMemberPatches(path, tokens, from, f.members, t.members, caseSensitive);
          from', to' := Object(fs, f.link), Object(ts, t.link);
        case _ =>
      }
    }

    /** The array case: three loops over the children of both arrays. */
    method CreateElementPatches(path: Str, ghost tokens: seq<Token>, fs: seq<Json>, ts: seq<Json>, caseSensitive: bool)
      returns (fs': seq<Json>, ts': seq<Json>)
      requires path == PathText(tokens)
      modifies this
      ensures items == old(items) + ToPatches(DiffElems(tokens, fs, ts, 0, caseSensitive))
      ensures (fs', ts') == AfterDiffElems(fs, ts, 0, caseSensitive)
      decreases fs, 0
    {
      hide PathText, Diff, DiffElems, AfterDiff, AfterDiffElems, ToPatches, Dec, Encode;
      ghost var all := old(items) + ToPatches(DiffElems(tokens, fs, ts, 0, caseSensitive));
      var index := 0;
      fs', ts' := [], [];
      assert fs[0..] == fs && ts[0..] == ts;
      while index < |fs| && index < |ts|
        invariant index <= |fs| && index <= |ts|
        invariant items + ToPatches(DiffElems(tokens, fs[index..], ts[index..], index, caseSensitive)) == all
        invariant fs' + AfterDiffElems(fs[index..], ts[index..], index, caseSensitive).0
                  == AfterDiffElems(fs, ts, 0, caseSensitive).0
        invariant ts' + AfterDiffElems(fs[index..], ts[index..], index, caseSensitive).1
                  == AfterDiffElems(fs, ts, 0, caseSensitive).1
      {
        BothElems(tokens, fs, ts, index, caseSensitive);
        AfterElemsStep(fs, ts, index, caseSensitive);
        if index > ULONG_MAX { return fs' + fs[index..], ts' + ts[index..]; }
        IndexPath(tokens, index);
        var f, t :=
          CreatePatches(path + "/" + Dec(index), tokens + [Index(index)], fs[index], ts[index], caseSensitive);
        index := index + 1;
        Assoc(fs', [f], AfterDiffElems(fs[index..], ts[index..], index, caseSensitive).0);
        Assoc(ts', [t], AfterDiffElems(fs[index..], ts[index..], index, caseSensitive).1);
        fs', ts' := fs' + [f], ts' + [t];
      }
      AfterElemsStep(fs, ts, index, caseSensitive);
      fs', ts' := fs' + fs[index..], ts' + ts[index..];
      if index < |fs| {
        RemoveElements(path, tokens, fs[index..], index, caseSensitive);
        assert ts[index..] == [];
      } else {
        AddElements(path, tokens, ts[index..], index, caseSensitive);
        assert fs[index..] == [];
      }
    }

    /** Elements of `from` beyond the end of `to`: always removed at the same index. */
    method RemoveElements(path: Str, ghost tokens: seq<Token>, fs: seq<Json>, index: nat, caseSensitive: bool)
      requires path == PathText(tokens)
      modifies this
      ensures items == old(items) + ToPatches(DiffElems(tokens, fs, [], index, caseSensitive))
    {
      hide PathText, DiffElems, ToPatches, Dec, Encode;
      ghost var all := old(items) + ToPatches(DiffElems(tokens, fs, [], index, caseSensitive));
      var next := 0;
      assert fs[0..] == fs;
      while next < |fs|
        invariant next <= |fs|
        invariant items + ToPatches(DiffElems(tokens, fs[next..], [], index, caseSensitive)) == all
      {
        LeftElem(tokens, fs, next, index, caseSensitive);
        if index > ULONG_MAX { return; }
        PathTextEnd(tokens, Index(index));
        ComposePatch("remove", path, Some(Dec(index)), None);
        next := next + 1;
      }
      NoElems(tokens, fs[next..], [], index, caseSensitive);
    }

    /** Elements of `to` beyond the end of `from`: appended. */
    method AddElements(path: Str, ghost tokens: seq<Token>, ts: seq<Json>, index: nat, caseSensitive: bool)
      requires path == PathText(tokens)
      modifies this
      ensures items == old(items) + ToPatches(DiffElems(tokens, [], ts, index, caseSensitive))
    {
      hide PathText, DiffElems, ToPatches, Dec, Encode;
      ghost var all := old(items) + ToPatches(DiffElems(tokens, [], ts, index, caseSensitive));
      var next := 0;
      assert ts[0..] == ts;
      while next < |ts|
        invariant next <= |ts|
        invariant items + ToPatches(DiffElems(tokens, [], ts[next..], index + next, caseSensitive)) == all
      {
        NewElem(tokens, ts, next, index + next, caseSensitive);
        PathTextEnd(tokens, End);
        ComposePatch("add", path, Some("-"), Some(ts[next]));
        next := next + 1;
      }
      NoElems(tokens, [], ts[next..], index + next, caseSensitive);
    }

    /** The object case: the walk over both sorted member lists. */
    method CreateMemberPatches(path: Str, ghost tokens: seq<Token>, ghost owner: Json,
                               fs: seq<Member<Json>>, ts: seq<Member<Json>>, caseSensitive: bool)
      returns (fs': seq<Member<Json>>, ts': seq<Member<Json>>)
      requires path == PathText(tokens) && forall m | m in fs :: m.value < owner
      modifies this
      ensures items == old(items) + ToPatches(DiffWalk(owner, tokens, fs, ts, caseSensitive))
      ensures (fs', ts') == AfterDiffWalk(owner, fs, ts, caseSensitive)
      decreases owner, 0
    {
      hide PathText, Diff, AfterDiff, ToPatches, Encode, Cmp, Compose, ToPatch, Relinked, Generated, WalkOrder;
      hide DiffWalk, AfterDiffWalk;
      ghost var was := items;
      var i, j := 0, 0;
      fs', ts' := [], [];
      WalkBegins(was, owner, tokens, fs, ts, caseSensitive);
      while i < |fs| || j < |ts|
        invariant i <= |fs| && j <= |ts| && Generated(was, items, owner, tokens, fs, ts, i, j, fs', ts', caseSensitive)
        decreases |fs| - i + |ts| - j
      {
        WalkStep(was, items, owner, tokens, fs, ts, i, j, fs', ts', caseSensitive);
        var diff := NextDifference(fs, ts, i, j, caseSensitive);
        if diff == 0 {
          assert fs[i] in fs;
          var x, y := PatchBoth(path, tokens, fs[i], ts[j], caseSensitive);
          fs', ts' := fs' + [Member(fs[i].key, x)], ts' + [Member(ts[j].key, y)];
          i, j := i + 1, j + 1;
        } else if diff < 0 {
          PatchGone(path, tokens, fs[i].key);
          fs' := fs' + [fs[i]];
          i := i + 1;
        } else {
          PatchNew(path, tokens, ts[j]);
          ts' := ts' + [ts[j]];
          j := j + 1;
        }
      }
      WalkEnd(was, items, owner, tokens, fs, ts, fs', ts', caseSensitive);
    }

    /** A key in both objects. */
    method PatchBoth(path: Str, ghost tokens: seq<Token>, f: Member<Json>, t: Member<Json>, caseSensitive: bool)
      returns (x: Json, y: Json)
      requires path == PathText(tokens)
      modifies this
      ensures items == old(items) + ToPatches(Diff(tokens + [Key(f.key)], f.value, t.value, caseSensitive))
      ensures (x, y) == AfterDiff(f.value, t.value, caseSensitive)
      decreases f.value, 2
    {
      hide PathText, Diff, AfterDiff, ToPatches, Encode;
      PathTextEnd(tokens, Key(f.key));
      var newPath := FullPath(path, f.key);
      x, y := CreatePatches(newPath, tokens + [Key(f.key)], f.value, t.value, caseSensitive);
    }

    /** A key that `to` does not have. */
    method PatchGone(path: Str, ghost tokens: seq<Token>, key: Str)
      requires path == PathText(tokens)
      modifies this
      ensures items == old(items) + [ToPatch(Edit(Remove, tokens + [Key(key)], None))]
    {
      hide PathText, Encode;
      PathTextEnd(tokens, Key(key));
      ComposePatch("remove", path, Some(key), None);
    }

    /** A key that `from` does not have. */
    method PatchNew(path: Str, ghost tokens: seq<Token>, t: Member<Json>)
      requires path == PathText(tokens)
      modifies this
      ensures items == old(items) + [ToPatch(Edit(Add, tokens + [Key(t.key)], Some(t.value)))]
    {
      hide PathText, Encode;
      PathTextEnd(tokens, Key(t.key));
      ComposePatch("add", path, Some(t.key), Some(t.value));
    }
  }

  /** Which of the two lists the walk takes from. */
  method NextDifference(fs: seq<Member<Json>>, ts: seq<Member<Json>>, i: nat, j: nat, caseSensitive: bool)
    returns (diff: int)
    requires i <= |fs| && j <= |ts| && (i < |fs| || j < |ts|)
    ensures diff == WalkOrder(fs[i..], ts[j..], caseSensitive)
  {
    if i == |fs| {
      diff := 1;
    } else if j == |ts| {
      diff := -1;
    } else {
      diff := CompareStrings(fs[i].key, ts[j].key, caseSensitive);
    }
  }

  // ---------- one round of each loop ----------

  lemma IndexPath(tokens: seq<Token>, index: nat)
    ensures PathText(tokens + [Index(index)]) == PathText(tokens) + "/" + Dec(index)
  {
    PathTextEnd(tokens, Index(index));
    EncodePlain(Dec(index));
  }

  lemma BothElems(tokens: seq<Token>, fs: seq<Json>, ts: seq<Json>, i: nat, cs: bool)
    requires i < |fs| && i < |ts|
    ensures ToPatches(DiffElems(tokens, fs[i..], ts[i..], i, cs)) ==
            if i > ULONG_MAX then []
            else ToPatches(Diff(tokens + [Index(i)], fs[i], ts[i], cs))
                 + ToPatches(DiffElems(tokens, fs[i + 1..], ts[i + 1..], i + 1, cs))
  {
    hide Diff;
    assert fs[i..][1..] == fs[i + 1..] && ts[i..][1..] == ts[i + 1..];
    ToPatchesParts(Diff(tokens + [Index(i)], fs[i], ts[i], cs),
                   DiffElems(tokens, fs[i + 1..], ts[i + 1..], i + 1, cs));
  }

  lemma AfterElemsStep(fs: seq<Json>, ts: seq<Json>, i: nat, cs: bool)
    requires i <= |fs| && i <= |ts|
    ensures AfterDiffElems(fs[i..], ts[i..], i, cs) ==
            if i == |fs| || i == |ts| || i > ULONG_MAX then (fs[i..], ts[i..])
            else
              var (f, t) := AfterDiff(fs[i], ts[i], cs);
              ([f] + AfterDiffElems(fs[i + 1..], ts[i + 1..], i + 1, cs).0,
               [t] + AfterDiffElems(fs[i + 1..], ts[i + 1..], i + 1, cs).1)
  {
    hide AfterDiff;
    if i < |fs| && i < |ts| { assert fs[i..][1..] == fs[i + 1..] && ts[i..][1..] == ts[i + 1..]; }
  }

  lemma AfterWalkStep(owner: Json, fs: seq<Member<Json>>, ts: seq<Member<Json>>, i: nat, j: nat, cs: bool)
    requires i <= |fs| && j <= |ts| && (i < |fs| || j < |ts|) && forall m | m in fs :: m.value < owner
    ensures i < |fs| ==> fs[i].value < owner
    ensures var diff, after := WalkOrder(fs[i..], ts[j..], cs), AfterDiffWalk(owner, fs[i..], ts[j..], cs);
            if diff == 0 then
              var (x, y) := AfterDiff(fs[i].value, ts[j].value, cs);
              after.0 == [Member(fs[i].key, x)] + AfterDiffWalk(owner, fs[i + 1..], ts[j + 1..], cs).0
              && after.1 == [Member(ts[j].key, y)] + AfterDiffWalk(owner, fs[i + 1..], ts[j + 1..], cs).1
            else if diff < 0 then
              after.0 == [fs[i]] + AfterDiffWalk(owner, fs[i + 1..], ts[j..], cs).0
              && after.1 == AfterDiffWalk(owner, fs[i + 1..], ts[j..], cs).1
            else
              after.0 == AfterDiffWalk(owner, fs[i..], ts[j + 1..], cs).0
              && after.1 == [ts[j]] + AfterDiffWalk(owner, fs[i..], ts[j + 1..], cs).1
  {
    hide AfterDiff, AfterDiffWalk, Cmp;
    AfterWalkUnfold(owner, fs[i..], ts[j..], cs);
    if i < |fs| { assert fs[i] in fs && fs[i..][1..] == fs[i + 1..]; }
    if j < |ts| { assert ts[j..][1..] == ts[j + 1..]; }
  }

  lemma LeftElem(tokens: seq<Token>, fs: seq<Json>, i: nat, index: nat, cs: bool)
    requires i < |fs|
    ensures ToPatches(DiffElems(tokens, fs[i..], [], index, cs)) ==
            if index > ULONG_MAX then []
            else [ToPatch(Edit(Remove, tokens + [Index(index)], None))]
                 + ToPatches(DiffElems(tokens, fs[i + 1..], [], index, cs))
  {
    assert fs[i..][1..] == fs[i + 1..];
    ToPatchesOne(Edit(Remove, tokens + [Index(index)], None), DiffElems(tokens, fs[i + 1..], [], index, cs));
  }

  lemma NewElem(tokens: seq<Token>, ts: seq<Json>, i: nat, index: nat, cs: bool)
    requires i < |ts|
    ensures ToPatches(DiffElems(tokens, [], ts[i..], index, cs)) ==
            [ToPatch(Edit(Add, tokens + [End], Some(ts[i])))]
            + ToPatches(DiffElems(tokens, [], ts[i + 1..], index + 1, cs))
  {
    assert ts[i..][1..] == ts[i + 1..];
    ToPatchesOne(Edit(Add, tokens + [End], Some(ts[i])), DiffElems(tokens, [], ts[i + 1..], index + 1, cs));
  }

  lemma NoElems(tokens: seq<Token>, fs: seq<Json>, ts: seq<Json>, index: nat, cs: bool)
    requires fs == [] && ts == []
    ensures ToPatches(DiffElems(tokens, fs, ts, index, cs)) == []
  {
  }

  /** What is left to walk over from positions i and j decides, behind the patches and members that are done. */
  ghost predicate Generated(was: seq<Json>, made: seq<Json>, owner: Json, tokens: seq<Token>, fs: seq<Member<Json>>,
                         ts: seq<Member<Json>>, i: nat, j: nat, us: seq<Member<Json>>, vs: seq<Member<Json>>, cs: bool)
    requires i <= |fs| && j <= |ts| && forall m | m in fs :: m.value < owner
  {
    made + ToPatches(DiffWalk(owner, tokens, fs[i..], ts[j..], cs))
    == was + ToPatches(DiffWalk(owner, tokens, fs, ts, cs))
    && AfterDiffWalk(owner, fs, ts, cs)
       == (us + AfterDiffWalk(owner, fs[i..], ts[j..], cs).0, vs + AfterDiffWalk(owner, fs[i..], ts[j..], cs).1)
  }

  lemma WalkBegins(was: seq<Json>, owner: Json, tokens: seq<Token>, fs: seq<Member<Json>>, ts: seq<Member<Json>>,
                   cs: bool)
    requires forall m | m in fs :: m.value < owner
    ensures Generated(was, was, owner, tokens, fs, ts, 0, 0, [], [], cs)
  {
    hide DiffWalk, AfterDiffWalk, ToPatches;
    var after := AfterDiffWalk(owner, fs, ts, cs);
    assert fs[0..] == fs && ts[0..] == ts && [] + after.0 == after.0 && [] + after.1 == after.1;
  }

  lemma WalkStep(was: seq<Json>, made: seq<Json>, owner: Json, tokens: seq<Token>, fs: seq<Member<Json>>,
                 ts: seq<Member<Json>>, i: nat, j: nat, us: seq<Member<Json>>, vs: seq<Member<Json>>, cs: bool)
    requires i <= |fs| && j <= |ts| && (i < |fs| || j < |ts|) && forall m | m in fs :: m.value < owner
    requires Generated(was, made, owner, tokens, fs, ts, i, j, us, vs, cs)
    ensures var diff := WalkOrder(fs[i..], ts[j..], cs);
            if diff == 0 then
              i < |fs| && j < |ts| &&
              var (x, y) := AfterDiff(fs[i].value, ts[j].value, cs);
              Generated(was, made + ToPatches(Diff(tokens + [Key(fs[i].key)], fs[i].value, ts[j].value, cs)),
                     owner, tokens, fs, ts, i + 1, j + 1, us + [Member(fs[i].key, x)], vs + [Member(ts[j].key, y)], cs)
            else if diff < 0 then
              i < |fs| && Generated(was, made + [ToPatch(Edit(Remove, tokens + [Key(fs[i].key)], None))],
                                 owner, tokens, fs, ts, i + 1, j, us + [fs[i]], vs, cs)
            else
              j < |ts| && Generated(was, made + [ToPatch(Edit(Add, tokens + [Key(ts[j].key)], Some(ts[j].value)))],
                                 owner, tokens, fs, ts, i, j + 1, us, vs + [ts[j]], cs)
  {
    hide Diff, DiffWalk, AfterDiff, AfterDiffWalk, ToPatches, ToPatch, Cmp;
    var diff := WalkOrder(fs[i..], ts[j..], cs);
    PatchesStep(owner, tokens, fs, ts, i, j, cs);
    AfterWalkStep(owner, fs, ts, i, j, cs);
    if diff == 0 {
      var (x, y) := AfterDiff(fs[i].value, ts[j].value, cs);
      var after := AfterDiffWalk(owner, fs[i + 1..], ts[j + 1..], cs);
      Assoc(made, ToPatches(Diff(tokens + [Key(fs[i].key)], fs[i].value, ts[j].value, cs)),
            ToPatches(DiffWalk(owner, tokens, fs[i + 1..], ts[j + 1..], cs)));
      Assoc(us, [Member(fs[i].key, x)], after.0);
      Assoc(vs, [Member(ts[j].key, y)], after.1);
    } else if diff < 0 {
      Assoc(made, [ToPatch(Edit(Remove, tokens + [Key(fs[i].key)], None))],
            ToPatches(DiffWalk(owner, tokens, fs[i + 1..], ts[j..], cs)));
      Assoc(us, [fs[i]], AfterDiffWalk(owner, fs[i + 1..], ts[j..], cs).0);
    } else {
      Assoc(made, [ToPatch(Edit(Add, tokens + [Key(ts[j].key)], Some(ts[j].value)))],
            ToPatches(DiffWalk(owner, tokens, fs[i..], ts[j + 1..], cs)));
      Assoc(vs, [ts[j]], AfterDiffWalk(owner, fs[i..], ts[j + 1..], cs).1);
    }
  }

  lemma WalkEnd(was: seq<Json>, made: seq<Json>, owner: Json, tokens: seq<Token>, fs: seq<Member<Json>>,
                ts: seq<Member<Json>>, us: seq<Member<Json>>, vs: seq<Member<Json>>, cs: bool)
    requires forall m | m in fs :: m.value < owner
    requires Generated(was, made, owner, tokens, fs, ts, |fs|, |ts|, us, vs, cs)
    ensures made == was + ToPatches(DiffWalk(owner, tokens, fs, ts, cs)) && (us, vs) == AfterDiffWalk(owner, fs, ts, cs)
  {
    assert DiffWalk(owner, tokens, [], [], cs) == [] && AfterDiffWalk(owner, [], [], cs) == ([], []);
    assert made + [] == made && us + [] == us && vs + [] == vs;
  }

  lemma PatchesStep(owner: Json, tokens: seq<Token>, fs: seq<Member<Json>>, ts: seq<Member<Json>>, i: nat, j: nat,
                    cs: bool)
    requires i <= |fs| && j <= |ts| && (i < |fs| || j < |ts|) && forall m | m in fs :: m.value < owner
    ensures var diff := if i == |fs| then 1 else if j == |ts| then -1 else Cmp(fs[i].key, ts[j].key, cs);
            ToPatches(DiffWalk(owner, tokens, fs[i..], ts[j..], cs)) ==
            if diff == 0 then
              ToPatches(Diff(tokens + [Key(fs[i].key)], fs[i].value, ts[j].value, cs))
              + ToPatches(DiffWalk(owner, tokens, fs[i + 1..], ts[j + 1..], cs))
            else if diff < 0 then
              [ToPatch(Edit(Remove, tokens + [Key(fs[i].key)], None))]
              + ToPatches(DiffWalk(owner, tokens, fs[i + 1..], ts[j..], cs))
            else
              [ToPatch(Edit(Add, tokens + [Key(ts[j].key)], Some(ts[j].value)))]
              + ToPatches(DiffWalk(owner, tokens, fs[i..], ts[j + 1..], cs))
  {
    hide Diff, ToPatches, Cmp;
    var f, t := fs[i..], ts[j..];
    var diff := WalkOrder(f, t, cs);
    if diff == 0 {
      assert f[1..] == fs[i + 1..] && t[1..] == ts[j + 1..];
      ToPatchesParts(Diff(tokens + [Key(f[0].key)], f[0].value, t[0].value, cs),
                     DiffWalk(owner, tokens, f[1..], t[1..], cs));
    } else if diff < 0 {
      assert f[1..] == fs[i + 1..];
      ToPatchesOne(Edit(Remove, tokens + [Key(f[0].key)], None), DiffWalk(owner, tokens, f[1..], t, cs));
    } else {
      assert t[1..] == ts[j + 1..];
      ToPatchesOne(Edit(Add, tokens + [Key(t[0].key)], Some(t[0].value)), DiffWalk(owner, tokens, f, t[1..], cs));
    }
  }
}
