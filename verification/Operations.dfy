/** The three operations that generated patches do not use: what move, copy and test (sections 4.4 to 4.6 of
    RFC 6902) do to a document. */
module Operations {
  import opened CStrings
  import opened SiblingLinks
  import opened JsonTrees
  import opened Comparing
  import opened Pointers
  import opened Edits
  import opened Patching
  import opened PatchRoundTrip
  import opened Reorderings
  import opened Vocabularies

  /** A move or copy patch. */
  function PatchFrom(operation: Str, path: Str, from: Str): Json {
    Object([Member("op", String(operation)), Member("path", String(path)), Member("from", String(from))])
  }

  lemma ReadFrom(operation: Str, path: Str, from: Str, cs: bool)
    ensures var patch := PatchFrom(operation, path, from);
            GetMember(patch, "op", cs) == Some(String(operation))
            && GetMember(patch, "path", cs) == Some(String(path))
            && GetMember(patch, "from", cs) == Some(String(from))
  {
    var ms := PatchFrom(operation, path, from).members;
    assert Norm("path", cs)[0] == 'p' && Norm("from", cs)[0] == 'f';
    assert |Norm("op", cs)| == 2 && |Norm("path", cs)| == 4 && |Norm("from", cs)| == 4;
    assert ms[1..][0] == ms[1] && ms[1..][1..][0] == ms[2];
  }

  /** The item that detach_path hands out is the one the path means. */
  lemma DetachedChild(p: Json, t: Token, x: Val, keys: iset<Str>, cs: bool)
    requires Vocabulary(keys, cs) && Fits(p, keys, cs) && TokenFits(t, keys)
    requires Act(Abs(p, cs), t, Remove, x, cs).Some? && DetachChild(p, TokenText(t)).Some?
    ensures var item := DetachChild(p, TokenText(t)).value.1;
            ChildOf(Abs(p, cs), t, cs) == Some(Abs(item, cs)) && Fits(item, keys, cs)
            && (WellLinked(p) ==> WellLinked(item))
  {
    match (p, t)
    case (Object(ms, _), Key(name)) =>
      FindKeyAnyCase(ms, name, keys, cs);
      AbsLookup(ms, name, cs);
      assert ms[FindKey(ms, name, cs)] in ms;
    case (Array(es), Index(i)) =>
      assert Dec(i) + "" == Dec(i);
      DecodeDec(i, "");
      assert es[i] in es;
    case _ =>
  }

  lemma DetachedItem(j: Json, up: seq<Token>, t: Token, keys: iset<Str>, cs: bool)
    requires Vocabulary(keys, cs) && Fits(j, keys, cs) && PathFits(up, keys) && TokenFits(t, keys)
    requires Look(Abs(j, cs), up, cs).Some? && Act(Look(Abs(j, cs), up, cs).value, t, Remove, VNull, cs).Some?
    requires Detach(j, PathText(up + [t]), cs).Some?
    ensures var item := Detach(j, PathText(up + [t]), cs).value.1;
            Look(Abs(j, cs), up + [t], cs) == Some(Abs(item, cs)) && Fits(item, keys, cs)
            && (WellLinked(j) ==> WellLinked(item))
  {
    hide Get, At, SetAt, DetachChild, Look, Act, Fits, WellLinked, Abs, TokenFits, PathText, DecodeInPlace, ChildOf;
    SplitPath(up, t, keys, cs);
    LookFollows(j, up, keys, cs);
    if WellLinked(j) { AtWellLinked(j, Get(j, PathText(up), cs).value); }
    DetachedChild(At(j, Get(j, PathText(up), cs).value), t, VNull, keys, cs);
    LookFurther(Abs(j, cs), up, t, cs);
  }

  /** Copying adds the value found at `from` at `path`. */
  lemma CopyMeans(j: Json, from: seq<Token>, up: seq<Token>, t: Token, keys: iset<Str>, cs: bool)
    requires Vocabulary(keys, cs) && Sound(j, keys, cs)
    requires PathFits(from, keys) && PathFits(up, keys) && TokenFits(t, keys)
    requires Look(Abs(j, cs), from, cs).Some?
    requires Step(Abs(j, cs), up + [t], Add, Look(Abs(j, cs), from, cs).value, cs).Some?
    ensures var r := Apply(j, PatchFrom("copy", PathText(up + [t]), PathText(from)), cs);
            r.status == 0 && Sound(r.root, keys, cs)
            && Abs(r.root, cs) == Step(Abs(j, cs), up + [t], Add, Look(Abs(j, cs), from, cs).value, cs).value
  {
    hide Get, At, Insert, Look, Act, Put, Fits, WellLinked, Relinked, Abs, PathText, TokenFits, GetMember, PatchFrom;
    hide Vocabulary;
    ReadFrom("copy", PathText(up + [t]), PathText(from), cs);
    LookFollows(j, from, keys, cs);
    StepAt(Abs(j, cs), up, t, Add, Look(Abs(j, cs), from, cs).value, cs);
    var found := At(j, Get(j, PathText(from), cs).value);
    DuplicateSound(found, keys, cs);
    InsertMeans(j, up, t, Relinked(found), keys, cs);
  }

  /** A step on a path with a last token acts on what holds it. */
  lemma StepAt(v: Val, up: seq<Token>, t: Token, action: Action, x: Val, cs: bool)
    ensures var p := Look(v, up, cs);
            Step(v, up + [t], action, x, cs)
            == if p.Some? && Act(p.value, t, action, x, cs).Some?
               then Some(Put(v, up, Act(p.value, t, action, x, cs).value, cs)) else None
  {
    assert (up + [t])[..|up|] == up;
  }

  /** Moving removes the value at `from` and adds it at `path` of what is left. */
  lemma MoveMeans(j: Json, fromUp: seq<Token>, fromLast: Token, up: seq<Token>, t: Token, keys: iset<Str>, cs: bool)
    requires Vocabulary(keys, cs) && Sound(j, keys, cs)
    requires PathFits(fromUp, keys) && TokenFits(fromLast, keys) && PathFits(up, keys) && TokenFits(t, keys)
    requires Look(Abs(j, cs), fromUp + [fromLast], cs).Some?
    requires Step(Abs(j, cs), fromUp + [fromLast], Remove, VNull, cs).Some?
    requires var item, rest := Look(Abs(j, cs), fromUp + [fromLast], cs).value,
             Step(Abs(j, cs), fromUp + [fromLast], Remove, VNull, cs).value;
             Step(rest, up + [t], Add, item, cs).Some?
    ensures var item, rest := Look(Abs(j, cs), fromUp + [fromLast], cs).value,
            Step(Abs(j, cs), fromUp + [fromLast], Remove, VNull, cs).value;
            var r := Apply(j, PatchFrom("move", PathText(up + [t]), PathText(fromUp + [fromLast])), cs);
            r.status == 0 && Sound(r.root, keys, cs) && Abs(r.root, cs) == Step(rest, up + [t], Add, item, cs).value
  {
    hide Get, At, Insert, Detach, Look, Act, Put, Fits, WellLinked, Relinked, Abs, PathText, TokenFits, GetMember;
    hide PatchFrom, Vocabulary, Step;
    var from := PathText(fromUp + [fromLast]);
    ReadFrom("move", PathText(up + [t]), from, cs);
    StepAt(Abs(j, cs), fromUp, fromLast, Remove, VNull, cs);
    DetachMeans(j, fromUp, fromLast, VNull, keys, cs);
    DetachedItem(j, fromUp, fromLast, keys, cs);
    var (rest, item) := Detach(j, from, cs).value;
    StepAt(Abs(rest, cs), up, t, Add, Abs(item, cs), cs);
    InsertMeans(rest, up, t, item, keys, cs);
  }

  /** Both fail, with status 9, when they aim at the whole document: only add, remove and replace know it.
      A move has then already taken the item out. */
  lemma WholeDocumentIsNoTarget(root: Json, from: Str, cs: bool)
    ensures var r := Apply(root, PatchFrom("copy", "", from), cs);
            r == Outcome(if Get(root, from, cs).Some? then 9 else 5, root)
    ensures var r := Apply(root, PatchFrom("move", "", from), cs);
            match Detach(root, from, cs)
            case None => r == Outcome(5, root)
            case Some((rest, _)) => r == Outcome(9, rest)
  {
    hide Get, Detach, GetMember, PatchFrom;
    ReadFrom("copy", "", from, cs);
    ReadFrom("move", "", from, cs);
  }

  /** Testing a value at a path that is there succeeds exactly when the values are equal up to member order.
      The document means the same afterwards; the comparison has put what it walked over in order. */
  lemma TestMeans(j: Json, path: seq<Token>, value: Json, keys: iset<Str>, cs: bool)
    requires Vocabulary(keys, cs) && Fits(j, keys, cs) && PathFits(path, keys) && Fits(value, keys, cs)
    requires Look(Abs(j, cs), path, cs).Some?
    ensures var r := Apply(j, Compose("test", PathText(path), Some(value)), cs);
            r.status == (if Look(Abs(j, cs), path, cs).value == Abs(value, cs) then 0 else 1)
            && Abs(r.root, cs) == Abs(j, cs) && Fits(r.root, keys, cs)
  {
    hide Get, At, SetAt, Look, Put, Fits, Abs, PathText, GetMember, Compose, Vocabulary, SameSorted, AfterCompare;
    hide Reordered;
    ReadPatch("test", PathText(path), Some(value), cs);
    LookFollows(j, path, keys, cs);
    var found := At(j, Get(j, PathText(path), cs).value);
    FitsIsStandard(found, keys, cs);
    FitsIsStandard(value, keys, cs);
    SameSortedMeans(found, value, cs);
    AfterCompareReorders(found, value, cs);
    ReorderedMeans(found, AfterCompare(found, value, cs).0, keys, cs);
    PutFollows(j, path, AfterCompare(found, value, cs).0, keys, cs);
    LookPut(Abs(j, cs), path, cs);
  }
}
