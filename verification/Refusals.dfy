/** What apply_patch answers to every patch on a document in order, well aimed or not: the status, and what is left
    of the document. A path is a list of names; what a name means depends on what holds the child. */
module Refusals {
  import opened CStrings
  import opened SiblingLinks
  import opened JsonTrees
  import opened Comparing
  import opened Pointers
  import opened Edits
  import opened Patching
  import opened PatchRoundTrip
  import opened Operations
  import opened Reorderings
  import opened Vocabularies

  // ---------- how names are read ----------

  function Named(names: seq<Str>): (path: seq<Token>)
    ensures |path| == |names| && forall i | 0 <= i < |names| :: path[i] == Key(names[i])
  {
    seq(|names|, i requires 0 <= i < |names| => Key(names[i]))
  }

  /** The name of a member, or the spelling of a position in an array; in an array other names mean nothing. */
  function Read(v: Val, name: Str, text: Str): Token {
    match v
    case VArray(_) =>
      if text == "-" then End
      else (match DecodeIndex(text) case Some(i) => Index(i) case None => Key(name))
    case _ => Key(name)
  }

  /** The path that names mean from a value on, as far as they mean anything. On the way down they are read as
      they are spelled in the pointer. */
  function ReadPath(v: Val, names: seq<Str>, cs: bool): seq<Token> {
    if names == [] then []
    else
      var t := Read(v, names[0], Encode(names[0]));
      [t] + match ChildOf(v, t, cs) case Some(c) => ReadPath(c, names[1..], cs) case None => []
  }

  /** The path to a child, which need not be there: its own name is read after it has been decoded. */
  function ReadTarget(v: Val, up: seq<Str>, name: Str, cs: bool): seq<Token> {
    var path := ReadPath(v, up, cs);
    path + [match Look(v, path, cs) case Some(p) => Read(p, name, name) case None => Key(name)]
  }

  // ---------- one name ----------

  lemma {:induction false} DigitsStop(t: Str, rest: Str, pos: nat, index: nat)
    requires t != "" && '/' !in t && EndsToken(rest) && pos <= |t|
    ensures IndexDigits(t + rest, pos, index) == IndexDigits(t, pos, index)
    decreases |t| - pos
  {
    var p := t + rest;
    assert p[0] == t[0];
    if pos < |t| {
      assert p[pos] == t[pos];
      if t[pos] >= '0' && t[0] <= '9' {
        DigitsStop(t, rest, pos + 1, (10 * index + (t[pos] as int - '0' as int)) % SIZE_MODULUS);
      }
    } else if rest != "" {
      assert p[pos] == '/';
    }
  }

  /** An index is read up to the end of its token. */
  lemma IndexInToken(t: Str, rest: Str)
    requires '/' !in t && EndsToken(rest)
    ensures DecodeIndex(t + rest) == DecodeIndex(t)
  {
    if t == "" {
      assert t + rest == rest;
    } else {
      DigitsStop(t, rest, 0, 0);
      var pos := IndexDigits(t, 0, 0).0;
      assert forall i | 0 <= i < |t| :: (t + rest)[i] == t[i] && t[i] in t;
    }
  }

  /** A spelled name selects the child that it means, or nothing. */
  ghost predicate Selects(j: Json, name: Str, rest: Str, keys: iset<Str>, cs: bool) {
    var r, c := ChildIndex(j, Encode(name) + rest, cs), ChildOf(Abs(j, cs), Read(Abs(j, cs), name, Encode(name)), cs);
    (r.Some? <==> c.Some?)
    && (r.Some? ==> Abs(Kids(j)[r.value], cs) == c.value && Fits(Kids(j)[r.value], keys, cs))
  }

  lemma ChildRead(j: Json, name: Str, rest: Str, keys: iset<Str>, cs: bool)
    requires Fits(j, keys, cs) && EndsToken(rest)
    ensures Selects(j, name, rest, keys, cs)
  {
    match j
    case Array(es) => ElementSelected(es, name, rest, keys, cs);
    case Object(ms, tail) => MemberSelected(ms, tail, name, rest, keys, cs);
    case _ =>
  }

  lemma ElementSelected(es: seq<Json>, name: Str, rest: Str, keys: iset<Str>, cs: bool)
    requires Fits(Array(es), keys, cs) && EndsToken(rest)
    ensures Selects(Array(es), name, rest, keys, cs)
  {
    hide DecodeIndex, Encode, Abs, Fits, AbsElems;
    ArrayAbs(es, cs);
    IndexInToken(Encode(name), rest);
    DashIsNoIndex();
    ElementRead(es, DecodeIndex(Encode(name)), keys, cs);
  }

  lemma MemberSelected(ms: seq<Member<Json>>, tail: Link, name: Str, rest: Str, keys: iset<Str>, cs: bool)
    requires Fits(Object(ms, tail), keys, cs) && EndsToken(rest)
    ensures Selects(Object(ms, tail), name, rest, keys, cs)
  {
    hide FindMatch, FindKey, Encode, AbsMembers, Norm;
    FindMatchKey(ms, name, rest, cs);
    AbsLookup(ms, name, cs);
    if FindKey(ms, name, cs) < |ms| { assert ms[FindKey(ms, name, cs)] in ms; }
  }

  lemma DashIsNoIndex()
    ensures DecodeIndex("-") == None
  {
  }

  lemma ElementRead(es: seq<Json>, index: Option<nat>, keys: iset<Str>, cs: bool)
    requires Fits(Array(es), keys, cs)
    ensures |AbsElems(es, cs)| == |es|
    ensures index.Some? && index.value < |es| ==>
              AbsElems(es, cs)[index.value] == Abs(es[index.value], cs) && Fits(es[index.value], keys, cs)
  {
    hide Abs;
  }

  // ---------- a whole path ----------

  lemma NamedHead(names: seq<Str>)
    requires names != []
    ensures Named(names)[1..] == Named(names[1..]) && Named(names)[0] == Key(names[0])
    ensures PathText(Named(names)) == "/" + Encode(names[0]) + PathText(Named(names[1..]))
  {
  }

  lemma NamedEnd(up: seq<Str>, name: Str)
    ensures Named(up + [name]) == Named(up) + [Key(name)]
  {
  }

  /** The pointer of a list of names, one token at a time. */
  lemma PointerHead(names: seq<Str>)
    requires names != []
    ensures var p, rest := PathText(Named(names)), PathText(Named(names[1..]));
            p != "" && p[0] == '/' && p[1..] == Encode(names[0]) + rest && SkipToken(p[1..]) == rest
  {
    hide Encode, SkipToken, PathText;
    var rest := PathText(Named(names[1..]));
    NamedHead(names);
    Assoc("/", Encode(names[0]), rest);
    SkipTokenOver(Encode(names[0]), rest);
  }

  lemma NothingBelow(j: Json, p: Str, cs: bool)
    requires p != "" && p[0] == '/'
    requires var i := ChildIndex(j, p[1..], cs); i.Some? ==> Get(Kids(j)[i.value], SkipToken(p[1..]), cs).None?
    ensures Get(j, p, cs) == None
  {
    hide ChildIndex, SkipToken, Kids;
  }

  lemma ReadHead(v: Val, names: seq<Str>, cs: bool)
    requires names != []
    ensures var t := Read(v, names[0], Encode(names[0]));
            match ChildOf(v, t, cs)
            case None => Look(v, ReadPath(v, names, cs), cs) == None
            case Some(c) =>
              ReadPath(v, names, cs) == [t] + ReadPath(c, names[1..], cs)
              && Look(v, ReadPath(v, names, cs), cs) == Look(c, ReadPath(c, names[1..], cs), cs)
  {
    hide Read, ChildOf;
    var path := ReadPath(v, names, cs);
    var c := ChildOf(v, path[0], cs);
    if c.Some? { assert path[1..] == ReadPath(c.value, names[1..], cs); }
  }

  /** Looking up a pointer finds what its names mean, or nothing. */
  lemma {:induction false} GetRead(j: Json, names: seq<Str>, keys: iset<Str>, cs: bool)
    requires Fits(j, keys, cs)
    ensures var r, v := Get(j, PathText(Named(names)), cs), Abs(j, cs);
            (r.Some? <==> Look(v, ReadPath(v, names, cs), cs).Some?)
            && (r.Some? ==> Fits(At(j, r.value), keys, cs)
                            && Look(v, ReadPath(v, names, cs), cs) == Some(Abs(At(j, r.value), cs)))
    decreases |names|
  {
    if names != [] {
      hide Fits, Abs, Kids, At, Get, PathText, ChildIndex, SkipToken, ChildOf, Encode, Look, ReadPath, Read, Named;
      var p, rest := PathText(Named(names)), PathText(Named(names[1..]));
      PointerHead(names);
      ChildRead(j, names[0], rest, keys, cs);
      ReadHead(Abs(j, cs), names, cs);
      var i := ChildIndex(j, p[1..], cs);
      if i.Some? {
        GetRead(Kids(j)[i.value], names[1..], keys, cs);
        var below := Get(Kids(j)[i.value], rest, cs);
        if below.Some? { PatchRoundTrip.GetBelow(j, p, i.value, below.value, cs); } else { NothingBelow(j, p, cs); }
      } else {
        NothingBelow(j, p, cs);
      }
    }
  }

  /** Changing the child that a name selects. */
  lemma KidRead(j: Json, name: Str, rest: Str, x: Json, keys: iset<Str>, cs: bool)
    requires Fits(j, keys, cs) && EndsToken(rest) && Fits(x, keys, cs)
    requires ChildIndex(j, Encode(name) + rest, cs).Some?
    requires ChildOf(Abs(j, cs), Read(Abs(j, cs), name, Encode(name)), cs).Some?
    ensures var k := WithKid(j, ChildIndex(j, Encode(name) + rest, cs).value, x);
            Fits(k, keys, cs)
            && Abs(k, cs) == WithChild(Abs(j, cs), Read(Abs(j, cs), name, Encode(name)), Abs(x, cs), cs)
  {
    hide Encode, FindMatch, DecodeIndex, AbsMembers, AbsElems, Norm;
    match j
    case Object(ms, _) => MemberChanges(ms, name, ChildIndex(j, Encode(name) + rest, cs).value, rest, x, keys, cs);
    case Array(es) =>
      IndexInToken(Encode(name), rest);
      ElementPut(es, DecodeIndex(Encode(name)).value, x, keys, cs);
    case _ =>
  }

  lemma ElementPut(es: seq<Json>, i: nat, x: Json, keys: iset<Str>, cs: bool)
    requires Fits(Array(es), keys, cs) && Fits(x, keys, cs) && i < |es|
    ensures Fits(Array(es[i := x]), keys, cs) && AbsElems(es[i := x], cs) == AbsElems(es, cs)[i := Abs(x, cs)]
  {
    hide Abs;
  }

  /** Writing at the position found for a pointer writes at what its names mean. */
  lemma {:induction false} PutRead(j: Json, names: seq<Str>, x: Json, keys: iset<Str>, cs: bool)
    requires Fits(j, keys, cs) && Fits(x, keys, cs) && Get(j, PathText(Named(names)), cs).Some?
    ensures var r, path := Get(j, PathText(Named(names)), cs).value, ReadPath(Abs(j, cs), names, cs);
            Look(Abs(j, cs), path, cs).Some?
            && Abs(SetAt(j, r, x), cs) == Put(Abs(j, cs), path, Abs(x, cs), cs) && Fits(SetAt(j, r, x), keys, cs)
    decreases |names|
  {
    GetRead(j, names, keys, cs);
    if names != [] {
      hide Fits, Abs, Kids, At, Get, PathText, ChildIndex, SkipToken, ChildOf, Encode, Look, ReadPath, Read, Named;
      hide WithChild, WithKid;
      var p, rest := PathText(Named(names)), PathText(Named(names[1..]));
      PointerHead(names);
      ChildRead(j, names[0], rest, keys, cs);
      ReadHead(Abs(j, cs), names, cs);
      var i := ChildIndex(j, p[1..], cs);
      if i.None? || Get(Kids(j)[i.value], rest, cs).None? { NothingBelow(j, p, cs); }
      var below := Get(Kids(j)[i.value], rest, cs).value;
      PatchRoundTrip.GetBelow(j, p, i.value, below, cs);
      assert ([i.value] + below)[1..] == below;
      PutRead(Kids(j)[i.value], names[1..], x, keys, cs);
      KidRead(j, names[0], rest, SetAt(Kids(j)[i.value], below, x), keys, cs);
      PutBelow(Abs(j, cs), names, Abs(x, cs), cs);
    }
  }

  lemma PutBelow(v: Val, names: seq<Str>, x: Val, cs: bool)
    requires names != [] && Look(v, ReadPath(v, names, cs), cs).Some?
    ensures var t := Read(v, names[0], Encode(names[0]));
            ChildOf(v, t, cs).Some? &&
            var c := ChildOf(v, t, cs).value;
            Look(c, ReadPath(c, names[1..], cs), cs).Some?
            && Put(v, ReadPath(v, names, cs), x, cs)
               == WithChild(v, t, Put(c, ReadPath(c, names[1..], cs), x, cs), cs)
  {
    hide Read, ChildOf, WithChild;
    ReadHead(v, names, cs);
    var path := ReadPath(v, names, cs);
    assert path[1..] == ReadPath(ChildOf(v, path[0], cs).value, names[1..], cs);
  }

  // ---------- taking out and putting in ----------

  /** Taking the child called `name` out of a container does what removing it means, or it is not there. */
  lemma DetachRead(p: Json, name: Str, keys: iset<Str>, cs: bool)
    requires Vocabulary(keys, cs) && Sound(p, keys, cs) && name in keys
    ensures var v := Abs(p, cs);
            var r, t := DetachChild(p, name), Read(v, name, name);
            var w := Act(v, t, Remove, VNull, cs);
            (r.Some? <==> w.Some?)
            && (r.Some? ==> Abs(r.value.0, cs) == w.value && Sound(r.value.0, keys, cs)
                            && ChildOf(v, t, cs) == Some(Abs(r.value.1, cs)) && Sound(r.value.1, keys, cs))
  {
    match p
    case Object(ms, _) =>
      MemberDetached(ms, name, keys, cs);
    case Array(es) => ElementDetached(es, name, keys, cs);
    case _ =>
  }

  lemma ElementDetached(es: seq<Json>, name: Str, keys: iset<Str>, cs: bool)
    requires Sound(Array(es), keys, cs)
    ensures var r, vs, i := DetachChild(Array(es), name), AbsElems(es, cs), DecodeIndex(name);
            |vs| == |es| && (name == "-" ==> i.None?) && (r.Some? <==> i.Some? && i.value < |es|)
            && (r.Some? ==> Abs(r.value.0, cs) == VArray(RemoveAt(vs, i.value)) && Sound(r.value.0, keys, cs)
                            && vs[i.value] == Abs(r.value.1, cs) && Sound(r.value.1, keys, cs))
  {
    hide DecodeIndex, Sound, Abs, AbsElems, RemoveAt;
    DashIsNoIndex();
    ArrayAbs(es, cs);
    var i := DecodeIndex(name);
    if i.Some? && i.value < |es| {
      RemoveElement(es, i.value, keys, cs);
      ArrayAbs(RemoveAt(es, i.value), cs);
      SoundElements(es, keys, cs);
      assert es[i.value] in es;
    }
  }

  lemma MemberDetached(ms: seq<Member<Json>>, name: Str, keys: iset<Str>, cs: bool)
    requires Vocabulary(keys, cs) && Sound(Object(ms), keys, cs) && name in keys
    ensures var r, m, k := DetachChild(Object(ms), name), AbsMembers(ms, cs), Norm(name, cs);
            (r.Some? <==> k in m)
            && (r.Some? ==> Abs(r.value.0, cs) == VObject(m - {k}) && Sound(r.value.0, keys, cs)
                            && m[k] == Abs(r.value.1, cs) && Sound(r.value.1, keys, cs))
  {
    hide AbsMembers, Norm, RemoveAt;
    var i := FindKey(ms, name, cs);
    FindKeyAnyCase(ms, name, keys, cs);
    AbsLookup(ms, name, cs);
    if i < |ms| {
      RemoveMember(ms, i, keys, cs);
      assert ms[i] in ms;
    }
  }

  /** The answer to adding a child called `name` to a container: what it means, or what is wrong. */
  ghost predicate Answered(p: Json, name: Str, x: Json, keys: iset<Str>, cs: bool) {
    var v, r := Abs(p, cs), InsertChild(p, name, x, cs);
    var w := Act(v, Read(v, name, name), Add, Abs(x, cs), cs);
    if w.Some? then r.status == 0 && Abs(r.root, cs) == w.value && Sound(r.root, keys, cs)
    else r.status == if v.VArray? then (if DecodeIndex(name).Some? then 10 else 11) else 9
  }

  lemma InsertRead(p: Json, name: Str, x: Json, keys: iset<Str>, cs: bool)
    requires Sound(p, keys, cs) && name in keys && Sound(x, keys, cs)
    ensures Answered(p, name, x, keys, cs)
  {
    match p
    case Object(ms, _) => MemberAnswered(ms, name, x, keys, cs);
    case Array(es) => ElementAnswered(es, name, x, keys, cs);
    case _ =>
  }

  lemma MemberAnswered(ms: seq<Member<Json>>, name: Str, x: Json, keys: iset<Str>, cs: bool)
    requires Sound(Object(ms), keys, cs) && name in keys && Sound(x, keys, cs)
    ensures Answered(Object(ms), name, x, keys, cs)
  {
    hide Sound, AbsMembers, InsertChild, Norm;
    InsertMemberMeans(ms, name, x, keys, cs);
  }

  lemma ElementAnswered(es: seq<Json>, name: Str, x: Json, keys: iset<Str>, cs: bool)
    requires Sound(Array(es), keys, cs) && Sound(x, keys, cs)
    ensures Answered(Array(es), name, x, keys, cs)
  {
    hide DecodeIndex, Sound, Abs, AbsElems, InsertChild;
    ArrayAbs(es, cs);
    InsertElementRead(es, name, x, keys, cs);
    AtTheEnd(AbsElems(es, cs), Abs(x, cs));
    DashIsNoIndex();
  }

  lemma InsertElementRead(es: seq<Json>, name: Str, x: Json, keys: iset<Str>, cs: bool)
    requires Sound(Array(es), keys, cs) && Sound(x, keys, cs)
    ensures var vs, y, r := AbsElems(es, cs), Abs(x, cs), InsertChild(Array(es), name, x, cs);
            var i := if name == "-" then Some(|es|) else DecodeIndex(name);
            if i.Some? && i.value <= |es| then
              r.status == 0 && Abs(r.root, cs) == VArray(vs[..i.value] + [y] + vs[i.value..])
              && Sound(r.root, keys, cs)
            else r.status == if i.Some? then 10 else 11
  {
    hide DecodeIndex, Sound, Abs, AbsElems;
    ArrayAbs(es, cs);
    var i := if name == "-" then Some(|es|) else DecodeIndex(name);
    if i.Some? && i.value <= |es| {
      InsertElement(es, i.value, x, keys, cs);
      ArrayAbs(es[..i.value] + [x] + es[i.value..], cs);
      AtTheEnd(es, x);
    }
  }

  lemma AtTheEnd<T>(s: seq<T>, x: T)
    ensures s[..|s|] + [x] + s[|s|..] == s + [x]
  {
  }

  lemma ArrayAbs(es: seq<Json>, cs: bool)
    ensures Abs(Array(es), cs) == VArray(AbsElems(es, cs)) && |AbsElems(es, cs)| == |es|
  {
  }

  /** The pointer to a child splits into the pointer to what holds it, and the name. */
  lemma SplitNames(up: seq<Str>, name: Str, keys: iset<Str>, cs: bool)
    requires Vocabulary(keys, cs) && name in keys
    ensures var p, n := PathText(Named(up + [name])), |PathText(Named(up))|;
            p != "" && LastSlash(p) == Some(n) && p[..n] == PathText(Named(up)) && DecodeInPlace(p[n + 1..]) == name
  {
    hide PathText, DecodeInPlace, LastSlash, Named, Vocabulary;
    NamedEnd(up, name);
    SplitPath(Named(up), Key(name), keys, cs);
  }

  lemma StepRead(v: Val, up: seq<Str>, name: Str, action: Action, x: Val, cs: bool)
    ensures var p := Look(v, ReadPath(v, up, cs), cs);
            match p
            case None => Step(v, ReadTarget(v, up, name, cs), action, x, cs) == None
            case Some(c) =>
              Look(v, ReadTarget(v, up, name, cs), cs) == ChildOf(c, Read(c, name, name), cs) &&
              match Act(c, Read(c, name, name), action, x, cs)
              case None => Step(v, ReadTarget(v, up, name, cs), action, x, cs) == None
              case Some(d) =>
                Step(v, ReadTarget(v, up, name, cs), action, x, cs) == Some(Put(v, ReadPath(v, up, cs), d, cs))
  {
    hide Read, Act, Look, Put, ChildOf, Step, ReadPath;
    var path := ReadPath(v, up, cs);
    var p := Look(v, path, cs);
    var t := if p.Some? then Read(p.value, name, name) else Key(name);
    StepAt(v, path, t, action, x, cs);
    if p.Some? { LookFurther(v, path, t, cs); }
  }

  // ---------- the two halves of apply_patch ----------

  /** detach_path: exactly what removing the child means, with the child itself handed out, or nothing. */
  lemma DetachExactly(j: Json, up: seq<Str>, name: Str, keys: iset<Str>, cs: bool)
    requires Vocabulary(keys, cs) && Sound(j, keys, cs) && name in keys
    ensures var r, v := Detach(j, PathText(Named(up + [name])), cs), Abs(j, cs);
            var target := ReadTarget(v, up, name, cs);
            (r.Some? <==> Step(v, target, Remove, VNull, cs).Some?)
            && (r.Some? ==> Some(Abs(r.value.0, cs)) == Step(v, target, Remove, VNull, cs)
                            && Look(v, target, cs) == Some(Abs(r.value.1, cs))
                            && Sound(r.value.0, keys, cs) && Sound(r.value.1, keys, cs))
  {
    hide Get, At, SetAt, DetachChild, Look, Put, Act, Fits, WellLinked, Sound, Abs, PathText, DecodeInPlace, ChildOf;
    hide Read, ReadPath, ReadTarget, Step, Vocabulary, Named;
    var v := Abs(j, cs);
    SplitNames(up, name, keys, cs);
    SoundIsBoth(j, keys, cs);
    GetRead(j, up, keys, cs);
    StepRead(v, up, name, Remove, VNull, cs);
    var loc := Get(j, PathText(Named(up)), cs);
    if loc.Some? {
      var p := At(j, loc.value);
      AtWellLinked(j, loc.value);
      SoundIsBoth(p, keys, cs);
      DetachRead(p, name, keys, cs);
      var d := DetachChild(p, name);
      if d.Some? { PutSound(j, up, d.value.0, keys, cs); }
    }
  }

  /** A changed parent is put back. */
  lemma PutSound(j: Json, up: seq<Str>, x: Json, keys: iset<Str>, cs: bool)
    requires Sound(j, keys, cs) && Sound(x, keys, cs) && Get(j, PathText(Named(up)), cs).Some?
    ensures var r, path := SetAt(j, Get(j, PathText(Named(up)), cs).value, x), ReadPath(Abs(j, cs), up, cs);
            Sound(r, keys, cs) && Look(Abs(j, cs), path, cs).Some?
                && Abs(r, cs) == Put(Abs(j, cs), path, Abs(x, cs), cs)
  {
    hide Get, SetAt, Look, Put, Fits, WellLinked, Abs, PathText, ReadPath, Named;
    PutRead(j, up, x, keys, cs);
    SetAtWellLinked(j, Get(j, PathText(Named(up)), cs).value, x);
  }

  /** The status of an add that does not apply: in an array the name is an index behind the end, or no index;
      otherwise there is no container. */
  function AddRefusal(v: Val, up: seq<Str>, name: Str, cs: bool): int {
    match Look(v, ReadPath(v, up, cs), cs)
    case Some(VArray(_)) => if DecodeIndex(name).Some? then 10 else 11
    case _ => 9
  }

  /** What adding a value at a path makes of a document that means `before`. */
  ghost predicate Adds(r: Outcome, before: Val, up: seq<Str>, name: Str, x: Val, keys: iset<Str>, cs: bool) {
    var done := Step(before, ReadTarget(before, up, name, cs), Add, x, cs);
    Sound(r.root, keys, cs)
    && if done.Some? then r.status == 0 && Abs(r.root, cs) == done.value
       else r.status == AddRefusal(before, up, name, cs) && Abs(r.root, cs) == before
  }

  lemma InsertExactly(j: Json, up: seq<Str>, name: Str, x: Json, keys: iset<Str>, cs: bool)
    requires Vocabulary(keys, cs) && Sound(j, keys, cs) && name in keys && Sound(x, keys, cs)
    ensures var r := Insert(j, PathText(Named(up + [name])), x, cs);
            Adds(r, Abs(j, cs), up, name, Abs(x, cs), keys, cs) && (r.status != 0 ==> r.root == j)
  {
    hide Get, At, SetAt, InsertChild, Look, Put, Act, Fits, WellLinked, Sound, Abs, PathText, DecodeInPlace, ChildOf;
    hide Read, ReadPath, ReadTarget, Step, Vocabulary, Named, DecodeIndex;
    var v := Abs(j, cs);
    SplitNames(up, name, keys, cs);
    SoundIsBoth(j, keys, cs);
    GetRead(j, up, keys, cs);
    StepRead(v, up, name, Add, Abs(x, cs), cs);
    var loc := Get(j, PathText(Named(up)), cs);
    if loc.Some? {
      var p := At(j, loc.value);
      AtWellLinked(j, loc.value);
      SoundIsBoth(p, keys, cs);
      InsertRead(p, name, x, keys, cs);
      var d := InsertChild(p, name, x, cs);
      if d.status == 0 { PutSound(j, up, d.root, keys, cs); }
    }
  }

  // ---------- the operations ----------

  /** An add applies exactly when its meaning does; otherwise the document stays, and the status says why. */
  lemma AddExactly(j: Json, up: seq<Str>, name: Str, x: Json, keys: iset<Str>, cs: bool)
    requires Vocabulary(keys, cs) && Sound(j, keys, cs) && name in keys && Fits(x, keys, cs)
    ensures var r := Apply(j, Compose("add", PathText(Named(up + [name])), Some(x)), cs);
            Adds(r, Abs(j, cs), up, name, Abs(x, cs), keys, cs) && (r.status != 0 ==> r.root == j)
  {
    hide Apply, Insert, PathText, Vocabulary, Compose, Relinked, Adds, Named, Sound, Fits, DecodeInPlace, LastSlash;
    AddIsInsert(j, PathText(Named(up + [name])), x, cs);
    SplitNames(up, name, keys, cs);
    DuplicateSound(x, keys, cs);
    InsertExactly(j, up, name, Relinked(x), keys, cs);
  }

  /** A remove applies exactly when its meaning does; otherwise the status is 13 and the document stays. */
  lemma RemoveExactly(j: Json, up: seq<Str>, name: Str, keys: iset<Str>, cs: bool)
    requires Vocabulary(keys, cs) && Sound(j, keys, cs) && name in keys
    ensures var r, v := Apply(j, Compose("remove", PathText(Named(up + [name])), None), cs), Abs(j, cs);
            match Step(v, ReadTarget(v, up, name, cs), Remove, VNull, cs)
            case None => r == Outcome(13, j)
            case Some(w) => r.status == 0 && Abs(r.root, cs) == w && Sound(r.root, keys, cs)
  {
    hide Apply, Detach, PathText, Vocabulary, Compose, Named, Sound, Abs, Step, ReadTarget, DecodeInPlace, LastSlash;
    RemoveIsDetach(j, PathText(Named(up + [name])), cs) by { SplitNames(up, name, keys, cs); }
    DetachExactly(j, up, name, keys, cs);
  }

  /** So does a replace. */
  lemma ReplaceExactly(j: Json, up: seq<Str>, name: Str, x: Json, keys: iset<Str>, cs: bool)
    requires Vocabulary(keys, cs) && Sound(j, keys, cs) && name in keys && Fits(x, keys, cs)
    ensures var r, v := Apply(j, Compose("replace", PathText(Named(up + [name])), Some(x)), cs), Abs(j, cs);
            match Step(v, ReadTarget(v, up, name, cs), Replace, Abs(x, cs), cs)
            case None => r == Outcome(13, j)
            case Some(w) => r.status == 0 && Abs(r.root, cs) == w && Sound(r.root, keys, cs)
  {
    hide Apply, Detach, Insert, PathText, Vocabulary, Compose, Named, Sound, Abs, Step, ReadTarget, Relinked, Fits;
    hide DecodeInPlace, LastSlash, AddRefusal;
    var text, v, y := PathText(Named(up + [name])), Abs(j, cs), Abs(x, cs);
    SplitNames(up, name, keys, cs);
    ReplaceIsBoth(j, text, x, cs);
    DetachExactly(j, up, name, keys, cs);
    ReplaceRead(v, up, name, y, cs);
    var d := Detach(j, text, cs);
    if d.Some? {
      DuplicateSound(x, keys, cs);
      InsertExactly(d.value.0, up, name, Relinked(x), keys, cs);
    }
  }

  /** Replacing a child is removing it and adding the new value under the same name, which means the same then. */
  lemma ReplaceRead(v: Val, up: seq<Str>, name: Str, y: Val, cs: bool)
    ensures var target := ReadTarget(v, up, name, cs);
            match Step(v, target, Remove, VNull, cs)
            case None => Step(v, target, Replace, y, cs) == None
            case Some(w) =>
              Step(v, target, Replace, y, cs).Some?
              && Step(w, ReadTarget(w, up, name, cs), Add, y, cs) == Step(v, target, Replace, y, cs)
  {
    hide ReadPath, ReadTarget, Step, Look, Put, Act, Read;
    var path := ReadPath(v, up, cs);
    StepRead(v, up, name, Remove, VNull, cs);
    StepRead(v, up, name, Replace, y, cs);
    var p := Look(v, path, cs);
    if p.Some? {
      var t := Read(p.value, name, name);
      OnlyWhatIsThere(p.value, name, y, cs);
      var q := Act(p.value, t, Remove, VNull, cs);
      if q.Some? {
        var w := Put(v, path, q.value, cs);
        StillRead(v, up, q.value, cs);
        PutLook(v, path, q.value, cs);
        StepRead(w, up, name, Add, y, cs);
        PutPut(v, path, q.value, Act(q.value, t, Add, y, cs).value, cs);
      }
    }
  }

  /** What can be removed can be replaced, and the other way round. */
  lemma OnlyWhatIsThere(p: Val, name: Str, y: Val, cs: bool)
    ensures var t := Read(p, name, name);
            var q := Act(p, t, Remove, VNull, cs);
            (q.Some? <==> Act(p, t, Replace, y, cs).Some?)
            && (q.Some? ==> Read(q.value, name, name) == t && Act(q.value, t, Add, y, cs) == Act(p, t, Replace, y, cs))
  {
    var t := Read(p, name, name);
    if Act(p, t, Replace, y, cs).Some? {
      RemovalIgnoresValue(p, t, y, cs);
      ReplaceIsRemoveAdd(p, t, y, cs);
    }
  }

  lemma RemovalIgnoresValue(p: Val, t: Token, y: Val, cs: bool)
    ensures Act(p, t, Remove, y, cs) == Act(p, t, Remove, VNull, cs)
  {
  }

  /** A change below a path does not change how its names are read. */
  lemma {:induction false} StillRead(v: Val, names: seq<Str>, x: Val, cs: bool)
    requires Look(v, ReadPath(v, names, cs), cs).Some?
    ensures ReadPath(Put(v, ReadPath(v, names, cs), x, cs), names, cs) == ReadPath(v, names, cs)
    decreases |names|
  {
    if names != [] {
      hide Look, Put, ReadPath, Read, WithChild, ChildOf;
      var t := Read(v, names[0], Encode(names[0]));
      PutBelow(v, names, x, cs);
      var c := ChildOf(v, t, cs).value;
      StillRead(c, names[1..], x, cs);
      var d := Put(c, ReadPath(c, names[1..], cs), x, cs);
      ReadHead(v, names, cs);
      SameToken(v, names[0], Encode(names[0]), d, cs);
      ReadHead(WithChild(v, t, d, cs), names, cs);
    }
  }

  lemma SameToken(v: Val, name: Str, text: Str, d: Val, cs: bool)
    requires ChildOf(v, Read(v, name, text), cs).Some?
    ensures var t := Read(v, name, text);
            Read(WithChild(v, t, d, cs), name, text) == t && ChildOf(WithChild(v, t, d, cs), t, cs) == Some(d)
  {
    hide DecodeIndex;
  }

  /** A copy adds what the names of "from" mean, or fails with status 5. */
  lemma CopyExactly(j: Json, from: seq<Str>, up: seq<Str>, name: Str, keys: iset<Str>, cs: bool)
    requires Vocabulary(keys, cs) && Sound(j, keys, cs) && name in keys
    ensures var v, patch := Abs(j, cs), PatchFrom("copy", PathText(Named(up + [name])), PathText(Named(from)));
            var r := Apply(j, patch, cs);
            match Look(v, ReadPath(v, from, cs), cs)
            case None => r == Outcome(5, j)
            case Some(x) => Adds(r, v, up, name, x, keys, cs) && (r.status != 0 ==> r.root == j)
  {
    hide Get, At, Insert, Look, Fits, WellLinked, Relinked, Abs, PathText, GetMember, PatchFrom, Vocabulary, Adds;
    hide Named;
    hide ReadPath;
    var path, source := PathText(Named(up + [name])), PathText(Named(from));
    ReadFrom("copy", path, source, cs);
    GetRead(j, from, keys, cs);
    var loc := Get(j, source, cs);
    if loc.Some? {
      var found := At(j, loc.value);
      DuplicateSound(found, keys, cs);
      InsertExactly(j, up, name, Relinked(found), keys, cs);
    }
  }

  /** A move takes the item out, or fails with status 5, and adds it to what is left. When only the second half
      fails the item is gone. */
  lemma MoveExactly(j: Json, fromUp: seq<Str>, fromName: Str, up: seq<Str>, name: Str, keys: iset<Str>, cs: bool)
    requires Vocabulary(keys, cs) && Sound(j, keys, cs) && fromName in keys && name in keys
    ensures var v, patch := Abs(j, cs),
            PatchFrom("move", PathText(Named(up + [name])), PathText(Named(fromUp + [fromName])));
            var r, source := Apply(j, patch, cs), ReadTarget(v, fromUp, fromName, cs);
            match Step(v, source, Remove, VNull, cs)
            case None => r == Outcome(5, j)
            case Some(rest) => Look(v, source, cs).Some? && Adds(r, rest, up, name, Look(v, source, cs).value, keys, cs)
  {
    hide Detach, Insert, Look, Fits, WellLinked, Sound, Abs, PathText, GetMember, PatchFrom, Vocabulary, Adds, Named;
    hide Step, ReadTarget;
    ReadFrom("move", PathText(Named(up + [name])), PathText(Named(fromUp + [fromName])), cs);
    DetachExactly(j, fromUp, fromName, keys, cs);
    var d := Detach(j, PathText(Named(fromUp + [fromName])), cs);
    if d.Some? { InsertExactly(d.value.0, up, name, d.value.1, keys, cs); }
  }

  /** A test fails with status 1 where there is nothing, or something else; the document means the same. */
  lemma TestExactly(j: Json, names: seq<Str>, value: Json, keys: iset<Str>, cs: bool)
    requires Fits(j, keys, cs) && Fits(value, keys, cs)
    ensures var r, v := Apply(j, Compose("test", PathText(Named(names)), Some(value)), cs), Abs(j, cs);
            (r.status == if Look(v, ReadPath(v, names, cs), cs) == Some(Abs(value, cs)) then 0 else 1)
            && Abs(r.root, cs) == v && Fits(r.root, keys, cs)
            && (Look(v, ReadPath(v, names, cs), cs).None? ==> r.root == j)
  {
    hide Get, At, SetAt, Look, Put, Fits, Abs, PathText, GetMember, Compose, SameSorted, AfterCompare, Reordered, Named;
    hide ReadPath;
    ReadPatch("test", PathText(Named(names)), Some(value), cs);
    GetRead(j, names, keys, cs);
    var loc := Get(j, PathText(Named(names)), cs);
    if loc.Some? {
      var found := At(j, loc.value);
      FitsIsStandard(found, keys, cs);
      FitsIsStandard(value, keys, cs);
      SameSortedMeans(found, value, cs);
      AfterCompareReorders(found, value, cs);
      ReorderedMeans(found, AfterCompare(found, value, cs).0, keys, cs);
      PutRead(j, names, AfterCompare(found, value, cs).0, keys, cs);
      LookPut(Abs(j, cs), ReadPath(Abs(j, cs), names, cs), cs);
    }
  }

  // ---------- patches without a part, and the whole document ----------

  /** A missing value is found out after a replace has taken its target out. */
  lemma ValueMissing(j: Json, up: seq<Str>, name: Str, keys: iset<Str>, cs: bool)
    requires Vocabulary(keys, cs) && Sound(j, keys, cs) && name in keys
    ensures var path, v := PathText(Named(up + [name])), Abs(j, cs);
            Apply(j, Compose("add", path, None), cs) == Outcome(7, j) &&
            var r := Apply(j, Compose("replace", path, None), cs);
            match Step(v, ReadTarget(v, up, name, cs), Remove, VNull, cs)
            case None => r == Outcome(13, j)
            case Some(w) => r.status == 7 && Abs(r.root, cs) == w && Sound(r.root, keys, cs)
  {
    hide Detach, PathText, Vocabulary, Compose, Named, Sound, Abs, Step, ReadTarget, DecodeInPlace, LastSlash;
    hide GetMember;
    SplitNames(up, name, keys, cs);
    ReadPatch("add", PathText(Named(up + [name])), None, cs);
    ReadPatch("replace", PathText(Named(up + [name])), None, cs);
    DetachExactly(j, up, name, keys, cs);
  }

  /** The whole document: it becomes the value, or an item of no type; without a value the status is 7. */
  lemma WholeDocument(j: Json, x: Json, cs: bool)
    ensures Apply(j, Compose("remove", "", None), cs) == Outcome(0, Invalid)
    ensures Apply(j, Compose("add", "", Some(x)), cs) == Outcome(0, Relinked(x))
    ensures Apply(j, Compose("replace", "", Some(x)), cs) == Outcome(0, Relinked(x))
    ensures Apply(j, Compose("add", "", None), cs) == Apply(j, Compose("replace", "", None), cs) == Outcome(7, j)
  {
    hide Compose, Detach, Insert, GetMember, Relinked;
    ReadPatch("remove", "", None, cs);
    ReadPatch("add", "", Some(x), cs);
    ReadPatch("replace", "", Some(x), cs);
    ReadPatch("add", "", None, cs);
    ReadPatch("replace", "", None, cs);
  }

  /** The string of a member of a patch, if it has one. */
  function PatchText(patch: Json, name: Str, cs: bool): Option<Str> {
    match GetMember(patch, name, cs)
    case Some(String(text)) => Some(text)
    case _ => None
  }

  predicate IsOperation(name: Str) {
    name in ["add", "remove", "replace", "move", "copy", "test"]
  }

  /** Any item at all as a patch: without a path that is a string the status is 2 and the document stays. */
  lemma PathMissing(j: Json, patch: Json, cs: bool)
    requires PatchText(patch, "path", cs).None?
    ensures Apply(j, patch, cs) == Outcome(2, j)
  {
    hide GetMember;
  }

  /** With an operation that is none of the six the status is 3. */
  lemma OperationUnknown(j: Json, patch: Json, cs: bool)
    requires PatchText(patch, "path", cs).Some?
    requires match PatchText(patch, "op", cs) case Some(op) => !IsOperation(op) case None => true
    ensures Apply(j, patch, cs) == Outcome(3, j)
  {
    hide GetMember;
  }

  /** A move or a copy without "from" has status 4, and a copy with one that holds no text 5. */
  lemma SourceMissing(j: Json, patch: Json, cs: bool)
    requires PatchText(patch, "path", cs).Some?
    requires PatchText(patch, "op", cs) == Some("move") || PatchText(patch, "op", cs) == Some("copy")
    ensures var from := GetMember(patch, "from", cs);
            if from.None? then Apply(j, patch, cs) == Outcome(4, j)
            else PatchText(patch, "op", cs) == Some("copy") && !from.value.String? && !from.value.Raw? ==>
              Apply(j, patch, cs) == Outcome(5, j)
  {
    hide GetMember, OperationOf, Detach, Insert, Get, At, Relinked, Test, AfterTest, InsertValue, ReplaceRoot;
    assert OperationOf("move") == MOVE && OperationOf("copy") == COPY by { MoveAndCopy(); }
  }

  lemma MoveAndCopy()
    ensures OperationOf("move") == MOVE && OperationOf("copy") == COPY
  {
  }

  /** A run ends at the first patch that does not apply, with its status and its document, and the patches behind
      it are not looked at. */
  lemma {:induction false} FirstFailureEnds(j: Json, good: seq<Json>, bad: Json, rest: seq<Json>, cs: bool)
    requires ApplyAll(j, good, cs).status == 0 && Apply(ApplyAll(j, good, cs).root, bad, cs).status != 0
    ensures ApplyAll(j, good + [bad] + rest, cs) == Apply(ApplyAll(j, good, cs).root, bad, cs)
    decreases good
  {
    hide Apply;
    if good == [] {
      assert [] + [bad] + rest == [bad] + rest && ([bad] + rest)[0] == bad;
    } else {
      Assoc(good, [bad], rest);
      DropHead(good, [bad] + rest);
      Assoc(good[1..], [bad], rest);
      FirstFailureEnds(Apply(j, good[0], cs).root, good[1..], bad, rest, cs);
    }
  }
}
