/** Applying the generated patches: apply_patch on a patch of compose_patch does what the edit
    means, so a generated patch list turns every tree equal to `from` into one equal to `to`. */
module PatchRoundTrip {
  import opened CStrings
  import opened SiblingLinks
  import opened JsonTrees
  import opened Comparing
  import opened Sorting
  import opened Pointers
  import opened Edits
  import opened Diffing
  import opened Reorderings
  import opened Patching
  import opened Vocabularies

  // ---------- patches as JSON ----------

  function TokenText(t: Token): Str {
    match t
    case Key(name) => name
    case Index(i) => Dec(i)
    case End => "-"
  }

  /** The JSON Pointer that spells a path. */
  function PathText(path: seq<Token>): (p: Str)
    ensures EndsToken(p)
  {
    if path == [] then "" else "/" + Encode(TokenText(path[0])) + PathText(path[1..])
  }

  function ActionName(a: Action): Str {
    match a
    case Add => "add"
    case Remove => "remove"
    case Replace => "replace"
  }

  /** The patch object that compose_patch appends. */
  function Compose(operation: Str, path: Str, value: Option<Json>): Json {
    Object([Member("op", String(operation)), Member("path", String(path))]
           + if value.Some? then [Member("value", value.value)] else [])
  }

  function ToPatch(e: Edit): Json {
    Compose(ActionName(e.action), PathText(e.path), if e.value.Some? then Some(Relinked(e.value.value)) else None)
  }

  function ToPatches(edits: seq<Edit>): (ps: seq<Json>)
    ensures |ps| == |edits|
  {
    if edits == [] then [] else [ToPatch(edits[0])] + ToPatches(edits[1..])
  }

  lemma {:induction false} ToPatchesParts(a: seq<Edit>, b: seq<Edit>)
    ensures ToPatches(a + b) == ToPatches(a) + ToPatches(b)
  {
    if a == [] {
      assert a + b == b;
    } else {
      DropHead(a, b);
      ToPatchesParts(a[1..], b);
      Assoc([ToPatch(a[0])], ToPatches(a[1..]), ToPatches(b));
    }
  }

  lemma {:induction false} PathTextEnd(path: seq<Token>, t: Token)
    ensures PathText(path + [t]) == PathText(path) + "/" + Encode(TokenText(t))
  {
    if path == [] {
      assert path + [t] == [t] && [t][1..] == [];
      assert "/" + Encode(TokenText(t)) + "" == "" + "/" + Encode(TokenText(t));
    } else {
      DropHead(path, [t]);
      PathTextEnd(path[1..], t);
      var head := "/" + Encode(TokenText(path[0]));
      Assoc(head, PathText(path[1..]) + "/", Encode(TokenText(t)));
      Assoc(head, PathText(path[1..]), "/");
    }
  }

  // ---------- the domain ----------

  /** Key vocabularies on which the library's quirks do not show: the in-place decoder gets every
      key back and, in case-sensitive mode, no two keys differ only in case. */
  ghost predicate Vocabulary(keys: iset<Str>, cs: bool) {
    (forall k | k in keys :: Survives(k))
    && (cs ==> forall a, b | a in keys && b in keys && Norm(a, false) == Norm(b, false) :: a == b)
  }

  ghost predicate TokenFits(t: Token, keys: iset<Str>) {
    match t
    case Key(name) => name in keys
    case Index(i) => i < SIZE_MODULUS
    case End => true
  }

  ghost predicate PathFits(path: seq<Token>, keys: iset<Str>) {
    forall t | t in path :: TokenFits(t, keys)
  }

  /** A document in order: over the vocabulary, and with all its links. */
  ghost predicate Sound(j: Json, keys: iset<Str>, cs: bool) {
    Fits(j, keys, cs) && WellLinked(j)
  }

  // ---------- following a path ----------

  lemma TextDecodes(t: Token, keys: iset<Str>, cs: bool)
    requires Vocabulary(keys, cs) && TokenFits(t, keys)
    ensures DecodeInPlace(Encode(TokenText(t))) == TokenText(t)
  {
    if !t.Key? { EncodePlain(TokenText(t)); }
    DecodeUndoesEncode(TokenText(t));
  }

  /** The token of a path selects the child that the path means. */
  lemma ChildFollows(j: Json, t: Token, rest: Str, keys: iset<Str>, cs: bool)
    requires Fits(j, keys, cs) && TokenFits(t, keys) && EndsToken(rest)
    requires ChildOf(Abs(j, cs), t, cs).Some?
    ensures var r := ChildIndex(j, Encode(TokenText(t)) + rest, cs);
            r.Some? && Abs(Kids(j)[r.value], cs) == ChildOf(Abs(j, cs), t, cs).value
            && Fits(Kids(j)[r.value], keys, cs)
  {
    match (j, t)
    case (Object(ms, _), Key(name)) =>
      FindMatchKey(ms, name, rest, cs);
      AbsLookup(ms, name, cs);
      assert ms[FindKey(ms, name, cs)] in ms;
    case (Array(es), Index(i)) =>
      EncodePlain(Dec(i));
      DecodeDec(i, rest);
      assert es[i] in es;
    case _ =>
  }

  /** Looking up the text of a path finds what the path means. */
  lemma {:induction false} LookFollows(j: Json, path: seq<Token>, keys: iset<Str>, cs: bool)
    requires Fits(j, keys, cs) && PathFits(path, keys)
    requires Look(Abs(j, cs), path, cs).Some?
    ensures var r := Get(j, PathText(path), cs);
            r.Some? && Abs(At(j, r.value), cs) == Look(Abs(j, cs), path, cs).value
            && Fits(At(j, r.value), keys, cs)
    decreases path
  {
    if path != [] {
      hide Fits, Abs, Kids, At, Get, PathText, ChildIndex, SkipToken, ChildOf, PathFits;
      PathStep(path, keys);
      LookStep(Abs(j, cs), path, cs);
      var i := PathHead(j, path, keys, cs);
      LookFollows(Kids(j)[i], path[1..], keys, cs);
      GetBelow(j, PathText(path), i, Get(Kids(j)[i], PathText(path[1..]), cs).value, cs);
    }
  }

  lemma PathStep(path: seq<Token>, keys: iset<Str>)
    requires path != [] && PathFits(path, keys)
    ensures TokenFits(path[0], keys) && PathFits(path[1..], keys)
  {
    assert path[0] in path;
  }

  lemma LookStep(v: Val, path: seq<Token>, cs: bool)
    requires path != [] && Look(v, path, cs).Some?
    ensures ChildOf(v, path[0], cs).Some?
    ensures Look(ChildOf(v, path[0], cs).value, path[1..], cs) == Look(v, path, cs)
  {
    hide ChildOf;
  }

  /** Where the lookup goes on below a child. */
  lemma GetBelow(j: Json, p: Str, i: nat, below: seq<nat>, cs: bool)
    requires p != "" && p[0] == '/' && ChildIndex(j, p[1..], cs) == Some(i)
    requires Get(Kids(j)[i], SkipToken(p[1..]), cs) == Some(below)
    ensures Get(j, p, cs) == Some([i] + below) && At(j, [i] + below) == At(Kids(j)[i], below)
  {
    hide ChildIndex, SkipToken, Kids;
    var loc := [i] + below;
    assert loc[0] == i && loc[1..] == below;
  }

  lemma PathHead(j: Json, path: seq<Token>, keys: iset<Str>, cs: bool) returns (i: nat)
    requires Fits(j, keys, cs) && PathFits(path, keys) && path != []
    requires ChildOf(Abs(j, cs), path[0], cs).Some?
    ensures i < |Kids(j)| && Fits(Kids(j)[i], keys, cs)
    ensures var p := PathText(path);
            p != "" && p[0] == '/' && ChildIndex(j, p[1..], cs) == Some(i) && SkipToken(p[1..]) == PathText(path[1..])
    ensures Abs(Kids(j)[i], cs) == ChildOf(Abs(j, cs), path[0], cs).value
  {
    hide ChildIndex, SkipToken, Kids;
    var token, rest := Encode(TokenText(path[0])), PathText(path[1..]);
    assert path[0] in path;
    Assoc("/", token, rest);
    ChildFollows(j, path[0], rest, keys, cs);
    SkipTokenOver(token, rest);
    i := ChildIndex(j, PathText(path)[1..], cs).value;
  }

  /** Changing the selected child changes the meaning at the token and nowhere else. */
  lemma ChildChanges(j: Json, t: Token, i: nat, rest: Str, x: Json, keys: iset<Str>, cs: bool)
    requires Fits(j, keys, cs) && TokenFits(t, keys) && Fits(x, keys, cs) && EndsToken(rest)
    requires ChildOf(Abs(j, cs), t, cs).Some? && ChildIndex(j, Encode(TokenText(t)) + rest, cs) == Some(i)
    ensures Abs(WithKid(j, i, x), cs) == WithChild(Abs(j, cs), t, Abs(x, cs), cs)
    ensures Fits(WithKid(j, i, x), keys, cs)
  {
    hide Encode, FindMatch, DecodeIndex, AbsMembers, AbsElems, Norm;
    match (j, t)
    case (Object(ms, _), Key(name)) => MemberChanges(ms, name, i, rest, x, keys, cs);
    case (Array(es), Index(k)) => ElementChanges(es, k, i, rest, x, keys, cs);
    case _ =>
  }

  lemma MemberChanges(ms: seq<Member<Json>>, name: Str, i: nat, rest: Str, x: Json, keys: iset<Str>, cs: bool)
    requires Fits(Object(ms), keys, cs) && Fits(x, keys, cs) && EndsToken(rest)
    requires i == FindMatch(ms, Encode(name) + rest, cs) && i < |ms|
    ensures Norm(ms[i].key, cs) == Norm(name, cs)
    ensures var ns := ms[i := Member(ms[i].key, x)];
            AbsMembers(ns, cs) == AbsMembers(ms, cs)[Norm(name, cs) := Abs(x, cs)] && Fits(Object(ns), keys, cs)
  {
    hide AbsMembers, Norm, Abs, FindMatch, Encode;
    FindMatchKey(ms, name, rest, cs);
    AbsUpdate(ms, i, x, cs);
    assert ms[i] in ms;
  }

  lemma ElementChanges(es: seq<Json>, k: nat, i: nat, rest: Str, x: Json, keys: iset<Str>, cs: bool)
    requires Fits(Array(es), keys, cs) && Fits(x, keys, cs) && EndsToken(rest) && k < SIZE_MODULUS
    requires DecodeIndex(Encode(Dec(k)) + rest) == Some(i) && i < |es|
    ensures i == k && Fits(Array(es[i := x]), keys, cs)
    ensures AbsElems(es[i := x], cs) == AbsElems(es, cs)[i := Abs(x, cs)]
  {
    hide Abs, Encode, DecodeIndex;
    EncodePlain(Dec(k));
    DecodeDec(k, rest);
  }

  /** Writing at the position found for a path writes at what the path means. */
  lemma {:induction false} PutFollows(j: Json, path: seq<Token>, x: Json, keys: iset<Str>, cs: bool)
    requires Fits(j, keys, cs) && PathFits(path, keys) && Fits(x, keys, cs)
    requires Look(Abs(j, cs), path, cs).Some?
    ensures var r := Get(j, PathText(path), cs);
            r.Some? && Abs(SetAt(j, r.value, x), cs) == Put(Abs(j, cs), path, Abs(x, cs), cs)
            && Fits(SetAt(j, r.value, x), keys, cs)
    decreases path
  {
    if path != [] {
      hide Fits, Abs, WithKid, Kids, At, Get, PathText, ChildIndex, SkipToken, ChildOf, PathFits, WithChild;
      PathStep(path, keys);
      LookStep(Abs(j, cs), path, cs);
      var i := PathHead(j, path, keys, cs);
      PutFollows(Kids(j)[i], path[1..], x, keys, cs);
      var below := Get(Kids(j)[i], PathText(path[1..]), cs).value;
      GetBelow(j, PathText(path), i, below, cs);
      assert ([i] + below)[1..] == below;
      PutHead(j, path, i, SetAt(Kids(j)[i], below, x), keys, cs);
    }
  }

  lemma PutHead(j: Json, path: seq<Token>, i: nat, y: Json, keys: iset<Str>, cs: bool)
    requires Fits(j, keys, cs) && PathFits(path, keys) && Fits(y, keys, cs) && path != []
    requires ChildOf(Abs(j, cs), path[0], cs).Some?
    requires i < |Kids(j)| && ChildIndex(j, PathText(path)[1..], cs) == Some(i)
    ensures Abs(WithKid(j, i, y), cs) == WithChild(Abs(j, cs), path[0], Abs(y, cs), cs)
    ensures Fits(WithKid(j, i, y), keys, cs)
  {
    hide Kids, WithKid, WithChild, ChildIndex, Fits, TokenFits;
    var token, rest := Encode(TokenText(path[0])), PathText(path[1..]);
    Assoc("/", token, rest);
    assert path[0] in path;
    ChildChanges(j, path[0], i, rest, y, keys, cs);
  }

  lemma SoundIsBoth(j: Json, keys: iset<Str>, cs: bool)
    ensures Sound(j, keys, cs) <==> Fits(j, keys, cs) && WellLinked(j)
  {
  }

  /** Links are kept below and above. */
  lemma {:induction false} AtWellLinked(j: Json, loc: seq<nat>)
    requires WellLinked(j) && ValidLoc(j, loc)
    ensures WellLinked(At(j, loc))
    decreases loc
  {
    if loc != [] {
      KidWellLinked(j, loc[0]);
      AtWellLinked(Kids(j)[loc[0]], loc[1..]);
    }
  }

  lemma KidWellLinked(j: Json, i: nat)
    requires WellLinked(j) && i < |Kids(j)|
    ensures WellLinked(Kids(j)[i])
  {
    match j
    case Array(es) => assert es[i] in es;
    case Object(ms, _) => assert ms[i] in ms;
  }

  lemma {:induction false} SetAtWellLinked(j: Json, loc: seq<nat>, x: Json)
    requires WellLinked(j) && ValidLoc(j, loc) && WellLinked(x)
    ensures WellLinked(SetAt(j, loc, x))
    decreases loc
  {
    if loc != [] {
      KidWellLinked(j, loc[0]);
      SetAtWellLinked(Kids(j)[loc[0]], loc[1..], x);
    }
  }

  // ---------- what the two halves of apply_patch mean ----------

  /** Within a vocabulary the case-insensitive lookup of detach_path finds the same member. */
  lemma {:induction false} FindKeyAnyCase(ms: seq<Member<Json>>, name: Str, keys: iset<Str>, cs: bool)
    requires Vocabulary(keys, cs) && name in keys && forall m | m in ms :: m.key in keys
    ensures FindKey(ms, name, false) == FindKey(ms, name, cs)
  {
    if ms != [] {
      assert ms[0] in ms;
      FindKeyAnyCase(ms[1..], name, keys, cs);
    }
  }

  lemma DetachChildMeans(p: Json, t: Token, x: Val, keys: iset<Str>, cs: bool)
    requires Vocabulary(keys, cs) && Sound(p, keys, cs) && TokenFits(t, keys)
    requires Act(Abs(p, cs), t, Remove, x, cs).Some?
    ensures var r := DetachChild(p, TokenText(t));
            r.Some? && Abs(r.value.0, cs) == Act(Abs(p, cs), t, Remove, x, cs).value && Sound(r.value.0, keys, cs)
  {
    hide AbsMembers, AbsElems, Norm, Dec, DecodeIndex, Vocabulary, RemoveAt;
    match (p, t)
    case (Object(ms, _), Key(name)) =>
      FindKeyAnyCase(ms, name, keys, cs);
      AbsLookup(ms, name, cs);
      RemoveMember(ms, FindKey(ms, name, cs), keys, cs);
    case (Array(es), Index(i)) =>
      assert Dec(i) + "" == Dec(i);
      DecodeDec(i, "");
      RemoveElement(es, i, keys, cs);
    case _ =>
  }

  lemma RemoveMember(ms: seq<Member<Json>>, i: nat, keys: iset<Str>, cs: bool)
    requires Sound(Object(ms), keys, cs) && i < |ms|
    ensures Sound(Object(RemoveAt(ms, i)), keys, cs)
    ensures AbsMembers(RemoveAt(ms, i), cs) == AbsMembers(ms, cs) - {Norm(ms[i].key, cs)}
  {
    hide AbsMembers, Norm;
    DistinctRemove(ms, i, cs);
    AbsRemove(ms, i, cs);
    assert forall m | m in RemoveAt(ms, i) :: m in ms;
  }

  lemma RemoveElement(es: seq<Json>, i: nat, keys: iset<Str>, cs: bool)
    requires Sound(Array(es), keys, cs) && i < |es|
    ensures Sound(Array(RemoveAt(es, i)), keys, cs)
    ensures AbsElems(RemoveAt(es, i), cs) == RemoveAt(AbsElems(es, cs), i)
  {
    hide Abs, Sound;
    SoundElements(es, keys, cs);
    RemoveInside(es, i);
    SoundElements(RemoveAt(es, i), keys, cs);
    AbsRemoveElem(es, i, cs);
  }

  lemma RemoveInside<T>(s: seq<T>, i: nat)
    requires i < |s|
    ensures forall x | x in RemoveAt(s, i) :: x in s
  {
  }

  lemma AbsRemoveElem(es: seq<Json>, i: nat, cs: bool)
    requires i < |es|
    ensures AbsElems(RemoveAt(es, i), cs) == RemoveAt(AbsElems(es, cs), i)
  {
    hide Abs;
  }

  lemma AbsInsertElem(es: seq<Json>, i: nat, x: Json, cs: bool)
    requires i <= |es|
    ensures var vs := AbsElems(es, cs);
            AbsElems(es[..i] + [x] + es[i..], cs) == vs[..i] + [Abs(x, cs)] + vs[i..]
  {
    hide Abs;
  }

  lemma SoundElements(es: seq<Json>, keys: iset<Str>, cs: bool)
    ensures Sound(Array(es), keys, cs) <==> forall e | e in es :: Sound(e, keys, cs)
  {
  }

  lemma InsertChildMeans(p: Json, t: Token, x: Json, keys: iset<Str>, cs: bool)
    requires Sound(p, keys, cs) && TokenFits(t, keys) && Sound(x, keys, cs)
    requires Act(Abs(p, cs), t, Add, Abs(x, cs), cs).Some?
    ensures var r := InsertChild(p, TokenText(t), x, cs);
            r.status == 0 && Abs(r.root, cs) == Act(Abs(p, cs), t, Add, Abs(x, cs), cs).value && Sound(r.root, keys, cs)
  {
    match (p, t)
    case (Object(ms, _), Key(name)) =>
      InsertMemberMeans(ms, name, x, keys, cs);
    case (Array(es), _) =>
      InsertElementMeans(es, t, x, keys, cs);
    case _ =>
  }

  lemma InsertMemberMeans(ms: seq<Member<Json>>, name: Str, x: Json, keys: iset<Str>, cs: bool)
    requires Sound(Object(ms), keys, cs) && name in keys && Sound(x, keys, cs)
    ensures var r := InsertChild(Object(ms), name, x, cs);
            r.status == 0 && Abs(r.root, cs) == VObject(AbsMembers(ms, cs)[Norm(name, cs) := Abs(x, cs)])
            && Sound(r.root, keys, cs)
  {
    hide Sound, AbsMembers, Norm, Without, WithoutMember, AddedMember, Appendable;
    RightObjects(ms, name, x, cs);
    SetMember(ms, name, x, keys, cs);
  }

  lemma InsertElementMeans(es: seq<Json>, t: Token, x: Json, keys: iset<Str>, cs: bool)
    requires Sound(Array(es), keys, cs) && TokenFits(t, keys) && Sound(x, keys, cs)
    requires Act(Abs(Array(es), cs), t, Add, Abs(x, cs), cs).Some?
    ensures var r := InsertChild(Array(es), TokenText(t), x, cs);
            r.status == 0 && Abs(r.root, cs) == Act(Abs(Array(es), cs), t, Add, Abs(x, cs), cs).value
            && Sound(r.root, keys, cs)
  {
    hide Sound, DecodeIndex;
    match t
    case Index(i) =>
      assert Dec(i)[0] in Dec(i);
      assert Dec(i) + "" == Dec(i);
      DecodeDec(i, "");
      InsertElement(es, i, x, keys, cs);
    case End =>
      InsertElement(es, |es|, x, keys, cs);
      assert es[..|es|] + [x] + es[|es|..] == es + [x];
      assert AbsElems(es + [x], cs) == AbsElems(es, cs) + [Abs(x, cs)];
    case _ =>
  }

  lemma SetMember(ms: seq<Member<Json>>, name: Str, x: Json, keys: iset<Str>, cs: bool)
    requires Sound(Object(ms), keys, cs) && Sound(x, keys, cs) && name in keys
    ensures var ns := Without(ms, name, cs) + [Member(name, x)];
            Sound(Object(ns), keys, cs) && AbsMembers(ns, cs) == AbsMembers(ms, cs)[Norm(name, cs) := Abs(x, cs)]
  {
    hide AbsMembers, Norm, Abs, DistinctKeys, Without;
    AbsSet(ms, name, x, cs);
    WithoutInside(ms, name, cs);
  }

  lemma WithoutInside(ms: seq<Member<Json>>, name: Str, cs: bool)
    ensures forall m | m in Without(ms, name, cs) :: m in ms
  {
    hide FindKey;
  }

  lemma InsertElement(es: seq<Json>, i: nat, x: Json, keys: iset<Str>, cs: bool)
    requires Sound(Array(es), keys, cs) && Sound(x, keys, cs) && i <= |es|
    ensures var vs := AbsElems(es, cs);
            Sound(Array(es[..i] + [x] + es[i..]), keys, cs)
            && AbsElems(es[..i] + [x] + es[i..], cs) == vs[..i] + [Abs(x, cs)] + vs[i..]
  {
    hide Abs, Sound;
    SoundElements(es, keys, cs);
    SoundElements(es[..i] + [x] + es[i..], keys, cs);
    AbsInsertElem(es, i, x, cs);
  }

  /** The last slash of a path splits off its last token. */
  lemma {:induction false} LastSlashSplits(a: Str, b: Str)
    requires '/' !in b
    ensures LastSlash(a + "/" + b) == Some(|a|)
    ensures (a + "/" + b)[..|a|] == a && (a + "/" + b)[|a| + 1..] == b
    decreases |b|
  {
    var p := a + "/" + b;
    if b != "" {
      var c := b[..|b| - 1];
      assert p[..|p| - 1] == a + "/" + c;
      assert p[|p| - 1] == b[|b| - 1] && b[|b| - 1] in b;
      LastSlashSplits(a, c);
    }
  }

  /** Where the parent of a path is, and what its last token decodes to. */
  lemma SplitPath(up: seq<Token>, t: Token, keys: iset<Str>, cs: bool)
    requires Vocabulary(keys, cs) && TokenFits(t, keys)
    ensures var p := PathText(up + [t]);
            p != "" && LastSlash(p) == Some(|PathText(up)|)
            && p[..|PathText(up)|] == PathText(up) && DecodeInPlace(p[|PathText(up)| + 1..]) == TokenText(t)
  {
    hide PathText, DecodeInPlace;
    PathTextEnd(up, t);
    TextDecodes(t, keys, cs);
    LastSlashSplits(PathText(up), Encode(TokenText(t)));
  }

  /** detach_path removes exactly what the path means. */
  lemma DetachMeans(j: Json, up: seq<Token>, t: Token, x: Val, keys: iset<Str>, cs: bool)
    requires Vocabulary(keys, cs) && Sound(j, keys, cs) && PathFits(up, keys) && TokenFits(t, keys)
    requires Look(Abs(j, cs), up, cs).Some? && Act(Look(Abs(j, cs), up, cs).value, t, Remove, x, cs).Some?
    ensures var r := Detach(j, PathText(up + [t]), cs);
            r.Some? && Sound(r.value.0, keys, cs)
            && Abs(r.value.0, cs)
               == Put(Abs(j, cs), up, Act(Look(Abs(j, cs), up, cs).value, t, Remove, x, cs).value, cs)
  {
    hide Get, At, SetAt, DetachChild, Look, Put, Act, Fits, WellLinked, Sound, Abs, TokenFits, PathText, DecodeInPlace;
    SplitPath(up, t, keys, cs);
    SoundIsBoth(j, keys, cs);
    LookFollows(j, up, keys, cs);
    var loc := Get(j, PathText(up), cs).value;
    AtWellLinked(j, loc);
    SoundIsBoth(At(j, loc), keys, cs);
    DetachChildMeans(At(j, loc), t, x, keys, cs);
    var rest := DetachChild(At(j, loc), TokenText(t)).value.0;
    SoundIsBoth(rest, keys, cs);
    PutFollows(j, up, rest, keys, cs);
    SetAtWellLinked(j, loc, rest);
    SoundIsBoth(SetAt(j, loc, rest), keys, cs);
  }

  /** Adding a value at a path means putting the changed parent back. */
  lemma InsertMeans(j: Json, up: seq<Token>, t: Token, x: Json, keys: iset<Str>, cs: bool)
    requires Vocabulary(keys, cs) && Sound(j, keys, cs) && PathFits(up, keys) && TokenFits(t, keys)
             && Sound(x, keys, cs)
    requires Look(Abs(j, cs), up, cs).Some? && Act(Look(Abs(j, cs), up, cs).value, t, Add, Abs(x, cs), cs).Some?
    ensures var r := Insert(j, PathText(up + [t]), x, cs);
            r.status == 0 && Sound(r.root, keys, cs)
            && Abs(r.root, cs)
               == Put(Abs(j, cs), up, Act(Look(Abs(j, cs), up, cs).value, t, Add, Abs(x, cs), cs).value, cs)
  {
    hide Get, At, SetAt, InsertChild, Look, Put, Act, Fits, WellLinked, Sound, Abs, TokenFits, PathText, DecodeInPlace;
    SplitPath(up, t, keys, cs);
    SoundIsBoth(j, keys, cs);
    LookFollows(j, up, keys, cs);
    var loc := Get(j, PathText(up), cs).value;
    AtWellLinked(j, loc);
    SoundIsBoth(At(j, loc), keys, cs);
    InsertChildMeans(At(j, loc), t, x, keys, cs);
    var filled := InsertChild(At(j, loc), TokenText(t), x, cs).root;
    SoundIsBoth(filled, keys, cs);
    PutFollows(j, up, filled, keys, cs);
    SetAtWellLinked(j, loc, filled);
    SoundIsBoth(SetAt(j, loc, filled), keys, cs);
  }

  // ---------- apply_patch on a generated patch ----------

  ghost predicate EditFits(e: Edit, keys: iset<Str>, cs: bool) {
    PathFits(e.path, keys) && (e.value.Some? <==> e.action != Remove)
    && (e.value.Some? ==> Fits(e.value.value, keys, cs))
  }

  lemma ReadPatch(operation: Str, path: Str, value: Option<Json>, cs: bool)
    ensures var patch := Compose(operation, path, value);
            GetMember(patch, "op", cs) == Some(String(operation))
            && GetMember(patch, "path", cs) == Some(String(path))
            && GetMember(patch, "value", cs) == value
  {
    var ms := Compose(operation, path, value).members;
    assert |Norm("op", cs)| == 2 && |Norm("path", cs)| == 4 && |Norm("value", cs)| == 5;
    assert ms[1..][0] == ms[1];
    if value.Some? {
      assert ms[1..][1..][0] == ms[2];
    }
  }

  /** Replacing a child is removing it and adding the new value in its place. */
  lemma ReplaceIsRemoveAdd(p: Val, t: Token, x: Val, cs: bool)
    requires Act(p, t, Replace, x, cs).Some?
    ensures var r := Act(p, t, Remove, x, cs);
            r.Some? && Act(r.value, t, Add, x, cs) == Act(p, t, Replace, x, cs)
  {
    match (p, t)
    case (VObject(m), Key(k)) =>
      assert (m - {Norm(k, cs)})[Norm(k, cs) := x] == m[Norm(k, cs) := x];
    case (VArray(es), Index(i)) =>
      var rs := RemoveAt(es, i);
      assert rs[..i] + [x] + rs[i..] == es[i := x];
    case _ =>
  }

  /** The replace branch: detach, then add at the same path. */
  lemma ReplaceMeans(j: Json, up: seq<Token>, t: Token, x: Json, keys: iset<Str>, cs: bool)
    requires Vocabulary(keys, cs) && Sound(j, keys, cs) && PathFits(up, keys) && TokenFits(t, keys)
             && Sound(x, keys, cs)
    requires Look(Abs(j, cs), up, cs).Some? && Act(Look(Abs(j, cs), up, cs).value, t, Replace, Abs(x, cs), cs).Some?
    ensures var d := Detach(j, PathText(up + [t]), cs);
            d.Some? &&
            var r := Insert(d.value.0, PathText(up + [t]), x, cs);
            r.status == 0 && Sound(r.root, keys, cs)
            && Abs(r.root, cs)
               == Put(Abs(j, cs), up, Act(Look(Abs(j, cs), up, cs).value, t, Replace, Abs(x, cs), cs).value, cs)
  {
    hide Detach, Insert, Look, Put, Act, Fits, WellLinked, Sound, Abs, TokenFits, PathText;
    var v, y := Abs(j, cs), Abs(x, cs);
    var p := Look(v, up, cs).value;
    ReplaceIsRemoveAdd(p, t, y, cs);
    DetachMeans(j, up, t, y, keys, cs);
    var mid := Act(p, t, Remove, y, cs).value;
    PutLook(v, up, mid, cs);
    PutPut(v, up, mid, Act(mid, t, Add, y, cs).value, cs);
    InsertMeans(Detach(j, PathText(up + [t]), cs).value.0, up, t, x, keys, cs);
  }

  /** The value of a patch is a duplicate, and is duplicated again when the patch is applied. */
  lemma DuplicateSound(x: Json, keys: iset<Str>, cs: bool)
    requires Fits(x, keys, cs)
    ensures Sound(Relinked(x), keys, cs) && Relinked(Relinked(x)) == Relinked(x) && Abs(Relinked(x), cs) == Abs(x, cs)
  {
    RelinkedFits(x, keys, cs);
    RelinkedIsWellLinked(x);
    RelinkedIsWellLinked(Relinked(x));
  }

  // What apply_patch does with a patch as compose_patch makes it.

  lemma RemoveIsDetach(root: Json, path: Str, cs: bool)
    requires path != ""
    ensures Apply(root, Compose("remove", path, None), cs)
            == match Detach(root, path, cs)
               case None => Outcome(13, root)
               case Some((rest, _)) => Outcome(0, rest)
  {
    hide Compose, Detach, GetMember;
    ReadPatch("remove", path, None, cs);
  }

  lemma AddIsInsert(root: Json, path: Str, value: Json, cs: bool)
    ensures Apply(root, Compose("add", path, Some(value)), cs)
            == if path == "" then Outcome(0, Relinked(value)) else Insert(root, path, Relinked(value), cs)
  {
    hide Compose, Insert, GetMember, Relinked;
    ReadPatch("add", path, Some(value), cs);
  }

  lemma ReplaceIsBoth(root: Json, path: Str, value: Json, cs: bool)
    ensures Apply(root, Compose("replace", path, Some(value)), cs)
            == if path == "" then Outcome(0, Relinked(value))
               else
                 match Detach(root, path, cs)
                 case None => Outcome(13, root)
                 case Some((rest, _)) => Insert(rest, path, Relinked(value), cs)
  {
    hide Compose, Insert, Detach, GetMember, Relinked;
    ReadPatch("replace", path, Some(value), cs);
  }

  /** apply_patch on a generated patch succeeds and does what the edit means. */
  lemma ApplyMeans(j: Json, e: Edit, keys: iset<Str>, cs: bool)
    requires Vocabulary(keys, cs) && Sound(j, keys, cs) && EditFits(e, keys, cs)
    requires Step(Abs(j, cs), e.path, e.action, EditValue(e, cs), cs).Some?
    ensures var r := Apply(j, ToPatch(e), cs);
            r.status == 0 && Sound(r.root, keys, cs)
            && Abs(r.root, cs) == Step(Abs(j, cs), e.path, e.action, EditValue(e, cs), cs).value
  {
    hide Apply, Detach, Insert, Look, Put, Act, Fits, WellLinked, Sound, Abs, TokenFits, Vocabulary, Compose, Relinked;
    var text := PathText(e.path);
    var value := if e.value.Some? then Relinked(e.value.value) else Null;
    if e.value.Some? { DuplicateSound(e.value.value, keys, cs); }
    match e.action {
      case Add => AddIsInsert(j, text, value, cs);
      case Remove => RemoveIsDetach(j, text, cs);
      case Replace => ReplaceIsBoth(j, text, value, cs);
    }
    if e.path != [] {
      hide PathText;
      var up, t := e.path[..|e.path| - 1], e.path[|e.path| - 1];
      assert e.path == up + [t];
      SplitPath(up, t, keys, cs);
      match e.action
      case Add => InsertMeans(j, up, t, value, keys, cs);
      case Remove => DetachMeans(j, up, t, VNull, keys, cs);
      case Replace => ReplaceMeans(j, up, t, value, keys, cs);
    }
  }

  lemma {:induction false} ApplyAllMeans(j: Json, edits: seq<Edit>, keys: iset<Str>, cs: bool)
    requires Vocabulary(keys, cs) && Sound(j, keys, cs) && forall e | e in edits :: EditFits(e, keys, cs)
    requires Run(Abs(j, cs), edits, cs).Some?
    ensures var r := ApplyAll(j, ToPatches(edits), cs);
            r.status == 0 && Sound(r.root, keys, cs) && Abs(r.root, cs) == Run(Abs(j, cs), edits, cs).value
    decreases edits
  {
    hide Apply, ToPatch, EditFits, Step, Fits, WellLinked, Sound, Abs, Vocabulary;
    if edits != [] {
      assert edits[0] in edits;
      ApplyMeans(j, edits[0], keys, cs);
      ApplyAllMeans(Apply(j, ToPatch(edits[0]), cs).root, edits[1..], keys, cs);
    }
  }

  lemma {:induction false} DiffFits(path: seq<Token>, from: Json, to: Json, keys: iset<Str>, cs: bool)
    requires PathFits(path, keys) && Fits(from, keys, cs) && Fits(to, keys, cs)
    ensures forall e | e in Diff(path, from, to, cs) :: EditFits(e, keys, cs)
    decreases from, 2
  {
    if SameType(from, to) {
      match from
      case Array(es) => DiffElemsFits(path, es, to.elems, 0, keys, cs);
      case Object(ms, _) => DiffObjectFits(path, from, to, keys, cs);
      case _ =>
    }
  }

  lemma {:induction false} DiffObjectFits(path: seq<Token>, from: Json, to: Json, keys: iset<Str>, cs: bool)
    requires from.Object? && to.Object?
    requires PathFits(path, keys) && Fits(from, keys, cs) && Fits(to, keys, cs)
    ensures forall e | e in Diff(path, from, to, cs) :: EditFits(e, keys, cs)
    decreases from, 1
  {
    hide PathFits, EditFits;
    SortCorrect(from.members, cs);
    SortCorrect(to.members, cs);
    DiffWalkFits(from, path, Sort(from.members, cs), Sort(to.members, cs), keys, cs);
  }

  lemma {:induction false} DiffElemsFits(path: seq<Token>, fs: seq<Json>, ts: seq<Json>, index: nat, keys: iset<Str>,
                                         cs: bool)
    requires PathFits(path, keys)
    requires (forall f | f in fs :: Fits(f, keys, cs)) && forall t | t in ts :: Fits(t, keys, cs)
    ensures forall e | e in DiffElems(path, fs, ts, index, cs) :: EditFits(e, keys, cs)
    decreases fs, |ts|
  {
    if fs != [] && index > ULONG_MAX {
    } else if fs != [] && ts != [] {
      DiffFits(path + [Index(index)], fs[0], ts[0], keys, cs);
      DiffElemsFits(path, fs[1..], ts[1..], index + 1, keys, cs);
    } else if fs != [] {
      DiffElemsFits(path, fs[1..], ts, index, keys, cs);
    } else if ts != [] {
      DiffElemsFits(path, fs, ts[1..], index + 1, keys, cs);
    }
  }

  lemma {:induction false} DiffWalkFits(owner: Json, path: seq<Token>, fs: seq<Member<Json>>, ts: seq<Member<Json>>,
                                        keys: iset<Str>, cs: bool)
    requires PathFits(path, keys)
    requires forall f | f in fs :: f.value < owner && f.key in keys && Fits(f.value, keys, cs)
    requires forall t | t in ts :: t.key in keys && Fits(t.value, keys, cs)
    ensures forall e | e in DiffWalk(owner, path, fs, ts, cs) :: EditFits(e, keys, cs)
    decreases owner, 0, |fs| + |ts|
  {
    if fs != [] || ts != [] {
      if WalkOrder(fs, ts, cs) == 0 {
        DiffFits(path + [Key(fs[0].key)], fs[0].value, ts[0].value, keys, cs);
        DiffWalkFits(owner, path, fs[1..], ts[1..], keys, cs);
      } else if WalkOrder(fs, ts, cs) < 0 {
        DiffWalkFits(owner, path, fs[1..], ts, keys, cs);
      } else {
        DiffWalkFits(owner, path, fs, ts[1..], keys, cs);
      }
    }
  }

  /** The patches that create_patches generates for two whole documents. */
  function Generate(from: Json, to: Json, cs: bool): seq<Json> {
    ToPatches(Diff([], from, to, cs))
  }

  /** The trees over a vocabulary for which the round trip is promised: any document in order that equals
      `from` up to member order. */
  ghost predicate RoundTripDomain(from: Json, to: Json, doc: Json, keys: iset<Str>, cs: bool) {
    Fits(from, keys, cs) && Fits(to, keys, cs) && Small(from) && Sound(doc, keys, cs) && Abs(doc, cs) == Abs(from, cs)
  }

  /** The generated patches all apply to the document, and leave one that equals `to` up to member order. */
  ghost predicate RoundTrips(from: Json, to: Json, doc: Json, cs: bool) {
    var r := ApplyAll(doc, Generate(from, to, cs), cs);
    r.status == 0 && Abs(r.root, cs) == Abs(to, cs)
  }

  lemma DiffReaches(from: Json, to: Json, keys: iset<Str>, cs: bool)
    requires Fits(from, keys, cs) && Fits(to, keys, cs) && Small(from)
    ensures Run(Abs(from, cs), Diff([], from, to, cs), cs) == Some(Abs(to, cs))
  {
    hide Diff, Fits, Abs, Run, Standard, Unique;
    FitsIsStandard(from, keys, cs);
    FitsIsStandard(to, keys, cs);
    DiffRuns(Abs(from, cs), [], from, to, cs);
  }

  lemma DiffFitsAll(from: Json, to: Json, keys: iset<Str>, cs: bool)
    requires Fits(from, keys, cs) && Fits(to, keys, cs)
    ensures EditsFit(Diff([], from, to, cs), keys, cs)
  {
    hide Diff, Fits, EditFits;
    DiffFits([], from, to, keys, cs);
  }

  ghost predicate EditsFit(edits: seq<Edit>, keys: iset<Str>, cs: bool) {
    forall e | e in edits :: EditFits(e, keys, cs)
  }

  lemma ApplyFitting(from: Json, to: Json, doc: Json, keys: iset<Str>, cs: bool)
    requires Vocabulary(keys, cs) && Sound(doc, keys, cs) && EditsFit(Diff([], from, to, cs), keys, cs)
    requires Run(Abs(doc, cs), Diff([], from, to, cs), cs) == Some(Abs(to, cs))
    ensures RoundTrips(from, to, doc, cs) && Sound(ApplyAll(doc, Generate(from, to, cs), cs).root, keys, cs)
  {
    hide ApplyAll, ToPatches, EditFits, Diff, Run, Abs, Vocabulary, Sound;
    ApplyAllMeans(doc, Diff([], from, to, cs), keys, cs);
  }

  /** The round trip. */
  lemma PatchingReachesTarget(from: Json, to: Json, doc: Json, keys: iset<Str>, cs: bool)
    requires Vocabulary(keys, cs) && RoundTripDomain(from, to, doc, keys, cs)
    ensures RoundTrips(from, to, doc, cs) && Sound(ApplyAll(doc, Generate(from, to, cs), cs).root, keys, cs)
  {
    hide ApplyAll, Generate, Diff, Fits, Abs, Run, Vocabulary, EditsFit, Sound, Small, RoundTrips;
    DiffReaches(from, to, keys, cs);
    DiffFitsAll(from, to, keys, cs);
    ApplyFitting(from, to, doc, keys, cs);
  }
}
