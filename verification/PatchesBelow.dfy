/** Patches whose paths lead through one child of a tree change that child as they would change it alone. */
module PatchesBelow {
  import opened CStrings
  import opened SiblingLinks
  import opened JsonTrees
  import opened Sorting
  import opened Comparing
  import opened Pointers
  import opened Edits
  import opened Diffing
  import opened Patching
  import opened PatchRoundTrip

  /** The child that a token selects. */
  function KidOf(j: Json, t: Token, cs: bool): (r: Option<nat>)
    ensures r.Some? ==> r.value < |Kids(j)|
  {
    match (j, t)
    case (Object(ms, _), Key(k)) => var i := FindKey(ms, k, cs); if i < |ms| then Some(i) else None
    case (Array(es), Index(i)) => if i < |es| then Some(i) else None
    case _ => None
  }

  /** A member name of an object, or an element index of an array. */
  predicate Suits(t: Token, j: Json) {
    (j.Object? && t.Key?) || (j.Array? && t.Index? && t.i < SIZE_MODULUS)
  }

  lemma ChildIndexOf(j: Json, t: Token, rest: Str, cs: bool)
    requires Suits(t, j) && EndsToken(rest)
    ensures ChildIndex(j, Encode(TokenText(t)) + rest, cs) == KidOf(j, t, cs)
  {
    match j
    case Object(ms, _) => FindMatchKey(ms, t.name, rest, cs);
    case Array(es) =>
      EncodePlain(Dec(t.i));
      DecodeDec(t.i, rest);
  }

  lemma GetBelow(j: Json, t: Token, rest: Str, cs: bool)
    requires Suits(t, j) && EndsToken(rest)
    ensures Get(j, "/" + Encode(TokenText(t)) + rest, cs)
            == match KidOf(j, t, cs)
               case None => None
               case Some(i) => Under([i], Get(Kids(j)[i], rest, cs))
  {
    hide Kids, ChildIndex, SkipToken, KidOf, Encode, Suits, TokenText;
    var token := Encode(TokenText(t));
    var p := "/" + token + rest;
    assert p[1..] == token + rest;
    ChildIndexOf(j, t, rest, cs);
    SkipTokenOver(token, rest);
  }

  lemma {:induction false} LastSlashBehind(a: Str, b: Str)
    requires LastSlash(b).Some?
    ensures LastSlash(a + b) == Some(|a| + LastSlash(b).value)
    decreases |b|
  {
    assert (a + b)[|a + b| - 1] == b[|b| - 1];
    if b[|b| - 1] != '/' {
      assert (a + b)[..|a + b| - 1] == a + b[..|b| - 1];
      LastSlashBehind(a, b[..|b| - 1]);
    }
  }

  lemma {:induction false} HasSlash(p: Str)
    requires '/' in p
    ensures LastSlash(p).Some? && p[LastSlash(p).value] == '/'
  {
    if p[|p| - 1] != '/' {
      assert p == p[..|p| - 1] + [p[|p| - 1]];
      HasSlash(p[..|p| - 1]);
    }
  }

  /** Where a longer path is cut. */
  lemma CutBelow(a: Str, q: Str)
    requires q != "" && q[0] == '/'
    ensures LastSlash(q).Some?
    ensures var k := LastSlash(q).value;
            LastSlash(a + q) == Some(|a| + k) && EndsToken(q[..k])
            && (a + q)[..|a| + k] == a + q[..k] && (a + q)[|a| + k + 1..] == q[k + 1..]
  {
    hide LastSlash;
    HasSlash(q);
    LastSlashBehind(a, q);
    var k := LastSlash(q).value;
    assert (a + q)[..|a| + k] == a + q[..k];
    assert (a + q)[|a| + k + 1..] == q[k + 1..];
  }

  lemma LocBelow(j: Json, i: nat, loc: seq<nat>, x: Json)
    requires i < |Kids(j)| && ValidLoc(Kids(j)[i], loc)
    ensures ValidLoc(j, [i] + loc) && At(j, [i] + loc) == At(Kids(j)[i], loc)
    ensures SetAt(j, [i] + loc, x) == WithKid(j, i, SetAt(Kids(j)[i], loc, x))
  {
    assert ([i] + loc)[1..] == loc;
  }

  /** detach_path below a child. */
  lemma DetachBelow(j: Json, t: Token, q: Str, cs: bool)
    requires Suits(t, j) && q != "" && q[0] == '/'
    ensures Detach(j, "/" + Encode(TokenText(t)) + q, cs)
            == match KidOf(j, t, cs)
               case None => None
               case Some(i) =>
                 (match Detach(Kids(j)[i], q, cs)
                  case None => None
                  case Some((rest, item)) => Some((WithKid(j, i, rest), item)))
  {
    hide Get, At, SetAt, WithKid, Kids, KidOf, DetachChild, DecodeInPlace, LastSlash, Encode, Suits, TokenText;
    hide ValidLoc;
    var token := Encode(TokenText(t));
    CutBelow("/" + token, q);
    var k := LastSlash(q).value;
    GetBelow(j, t, q[..k], cs);
    var kid := KidOf(j, t, cs);
    if kid.Some? && Get(Kids(j)[kid.value], q[..k], cs).Some? {
      var loc := Get(Kids(j)[kid.value], q[..k], cs).value;
      LocBelow(j, kid.value, loc, Null);
      match DetachChild(At(Kids(j)[kid.value], loc), DecodeInPlace(q[k + 1..])) {
        case None =>
        case Some((rest, _)) => LocBelow(j, kid.value, loc, rest);
      }
    }
  }

  /** The add at the end of apply_patch below a child. */
  lemma InsertBelow(j: Json, t: Token, q: Str, x: Json, cs: bool)
    requires Suits(t, j) && q != "" && q[0] == '/'
    ensures Insert(j, "/" + Encode(TokenText(t)) + q, x, cs)
            == match KidOf(j, t, cs)
               case None => Outcome(9, j)
               case Some(i) =>
                 var r := Insert(Kids(j)[i], q, x, cs);
                 Outcome(r.status, WithKid(j, i, r.root))
  {
    hide Get, At, SetAt, WithKid, Kids, KidOf, InsertChild, DecodeInPlace, LastSlash, Encode, Suits, TokenText;
    hide ValidLoc;
    var token := Encode(TokenText(t));
    CutBelow("/" + token, q);
    var k := LastSlash(q).value;
    GetBelow(j, t, q[..k], cs);
    var kid := KidOf(j, t, cs);
    if kid.Some? {
      SameKid(j, kid.value);
      if Get(Kids(j)[kid.value], q[..k], cs).Some? {
        var loc := Get(Kids(j)[kid.value], q[..k], cs).value;
        LocBelow(j, kid.value, loc, InsertChild(At(Kids(j)[kid.value], loc), DecodeInPlace(q[k + 1..]), x, cs).root);
      }
    }
  }

  lemma SameKid(j: Json, i: nat)
    requires i < |Kids(j)|
    ensures WithKid(j, i, Kids(j)[i]) == j
  {
    match j
    case Array(es) =>
    case Object(ms, _) => assert ms[i := Member(ms[i].key, ms[i].value)] == ms;
  }

  /** Changing a child twice, and what stays. */
  lemma KidTwice(j: Json, t: Token, i: nat, x: Json, y: Json, cs: bool)
    requires KidOf(j, t, cs) == Some(i)
    ensures var k := WithKid(j, i, x);
            KidOf(k, t, cs) == Some(i) && Kids(k)[i] == x && WithKid(k, i, y) == WithKid(j, i, y)
            && (Suits(t, j) ==> Suits(t, k))
  {
    hide Norm, FindKey;
    match j
    case Array(es) => assert es[i := x][i := y] == es[i := y];
    case Object(ms, link) =>
      var ns := ms[i := Member(ms[i].key, x)];
      SameFindKey(ms, ns, t.name, cs);
      assert ns[i := Member(ns[i].key, y)] == ms[i := Member(ms[i].key, y)];
  }

  lemma {:induction false} SameFindKey<T>(xs: seq<Member<T>>, ys: seq<Member<T>>, name: Str, cs: bool)
    requires |xs| == |ys| && forall i | 0 <= i < |xs| :: xs[i].key == ys[i].key
    ensures FindKey(xs, name, cs) == FindKey(ys, name, cs)
  {
    hide Norm;
    if xs != [] { SameFindKey(xs[1..], ys[1..], name, cs); }
  }

  // ---------- apply_patch below a child ----------

  predicate ProperEdit(e: Edit) {
    e.value.Some? <==> e.action != Remove
  }

  function Below(t: Token, e: Edit): Edit {
    Edit(e.action, [t] + e.path, e.value)
  }

  lemma PathBelow(t: Token, path: seq<Token>)
    ensures PathText([t] + path) == "/" + Encode(TokenText(t)) + PathText(path)
    ensures path != [] ==> PathText(path) != "" && PathText(path)[0] == '/'
  {
    hide Encode;
    assert ([t] + path)[1..] == path;
  }

  lemma ApplyBelow(j: Json, t: Token, e: Edit, cs: bool)
    requires Suits(t, j) && e.path != [] && ProperEdit(e)
    ensures var r := Apply(j, ToPatch(Below(t, e)), cs);
            match KidOf(j, t, cs)
            case None => r.status != 0
            case Some(i) =>
              var below := Apply(Kids(j)[i], ToPatch(e), cs);
              r == Outcome(below.status, WithKid(j, i, below.root))
  {
    hide Apply, Detach, Insert, WithKid, Kids, KidOf, PathText, Suits, Encode, TokenText, Compose, Relinked;
    PathBelow(t, e.path);
    var q, p := PathText(e.path), PathText([t] + e.path);
    var kid := KidOf(j, t, cs);
    DetachBelow(j, t, q, cs);
    if kid.Some? { SameKid(j, kid.value); }
    match e.action {
      case Remove =>
        RemoveIsDetach(j, p, cs);
        if kid.Some? { RemoveIsDetach(Kids(j)[kid.value], q, cs); }
      case Add =>
        var x := Relinked(e.value.value);
        AddIsInsert(j, p, x, cs);
        InsertBelow(j, t, q, Relinked(x), cs);
        if kid.Some? { AddIsInsert(Kids(j)[kid.value], q, x, cs); }
      case Replace =>
        var x := Relinked(e.value.value);
        ReplaceIsBoth(j, p, x, cs);
        if kid.Some? {
          var k := Kids(j)[kid.value];
          ReplaceIsBoth(k, q, x, cs);
          if Detach(k, q, cs).Some? {
            var rest := Detach(k, q, cs).value.0;
            KidTwice(j, t, kid.value, rest, Insert(rest, q, Relinked(x), cs).root, cs);
            InsertBelow(WithKid(j, kid.value, rest), t, q, Relinked(x), cs);
          }
        }
    }
  }

  function AllBelow(t: Token, edits: seq<Edit>): (r: seq<Edit>)
    ensures |r| == |edits|
  {
    if edits == [] then [] else [Below(t, edits[0])] + AllBelow(t, edits[1..])
  }

  ghost predicate Deep(edits: seq<Edit>) {
    forall e | e in edits :: e.path != [] && ProperEdit(e)
  }

  /** A whole run below a child. */
  lemma {:induction false} ApplyAllBelow(j: Json, t: Token, i: nat, edits: seq<Edit>, cs: bool)
    requires Suits(t, j) && KidOf(j, t, cs) == Some(i) && Deep(edits)
    ensures var r := ApplyAll(Kids(j)[i], ToPatches(edits), cs);
            ApplyAll(j, ToPatches(AllBelow(t, edits)), cs) == Outcome(r.status, WithKid(j, i, r.root))
    decreases edits
  {
    hide Apply, WithKid, Kids, KidOf, Suits, Below, ToPatch;
    if edits == [] {
      SameKid(j, i);
    } else {
      assert edits[0] in edits && forall e | e in edits[1..] :: e in edits;
      ApplyBelow(j, t, edits[0], cs);
      var first := Apply(Kids(j)[i], ToPatch(edits[0]), cs);
      var rest := ToPatches(edits[1..]);
      assert ToPatches(edits)[0] == ToPatch(edits[0]) && ToPatches(edits)[1..] == rest;
      var all, below := ToPatches(AllBelow(t, edits)), AllBelow(t, edits[1..]);
      assert AllBelow(t, edits)[1..] == below;
      assert all[0] == ToPatch(Below(t, edits[0])) && all[1..] == ToPatches(below);
      if first.status == 0 {
        var x := ApplyAll(first.root, rest, cs).root;
        KidTwice(j, t, i, first.root, x, cs);
        ApplyAllBelow(WithKid(j, i, first.root), t, i, edits[1..], cs);
      }
    }
  }

  /** A run whose first patch leads through a child that is not there fails at once. */
  lemma NoneBelow(j: Json, t: Token, edits: seq<Edit>, cs: bool)
    requires Suits(t, j) && KidOf(j, t, cs) == None && Deep(edits) && edits != []
    ensures ApplyAll(j, ToPatches(AllBelow(t, edits)), cs).status != 0
  {
    hide Apply, KidOf, Suits, Below, ToPatch;
    assert edits[0] in edits;
    ApplyBelow(j, t, edits[0], cs);
    assert ToPatches(AllBelow(t, edits))[0] == ToPatch(Below(t, edits[0]));
  }

  lemma {:induction false} ApplyAllParts(j: Json, a: seq<Json>, b: seq<Json>, cs: bool)
    ensures var r := ApplyAll(j, a, cs);
            ApplyAll(j, a + b, cs) == if r.status != 0 then r else ApplyAll(r.root, b, cs)
    decreases a
  {
    hide Apply;
    if a == [] {
      assert a + b == b;
    } else {
      DropHead(a, b);
      ApplyAllParts(Apply(j, a[0], cs).root, a[1..], b, cs);
    }
  }

  /** Two runs of edits one after the other. */
  lemma RunInParts(j: Json, a: seq<Edit>, b: seq<Edit>, cs: bool)
    ensures var r := ApplyAll(j, ToPatches(a), cs);
            ApplyAll(j, ToPatches(a + b), cs) == if r.status != 0 then r else ApplyAll(r.root, ToPatches(b), cs)
  {
    ToPatchesParts(a, b);
    ApplyAllParts(j, ToPatches(a), ToPatches(b), cs);
  }

  // ---------- the edits of a subtree ----------

  lemma {:induction false} BelowParts(t: Token, a: seq<Edit>, b: seq<Edit>)
    ensures AllBelow(t, a + b) == AllBelow(t, a) + AllBelow(t, b)
  {
    if a == [] {
      assert a + b == b;
    } else {
      DropHead(a, b);
      BelowParts(t, a[1..], b);
    }
  }

  lemma BelowOne(t: Token, e: Edit)
    ensures AllBelow(t, [e]) == [Below(t, e)]
  {
    assert [e][1..] == [];
  }

  /** The edits at a longer path are those at the shorter one, put below. */
  lemma {:induction false} DiffBelow(t: Token, path: seq<Token>, from: Json, to: Json, cs: bool)
    ensures Diff([t] + path, from, to, cs) == AllBelow(t, Diff(path, from, to, cs))
    decreases from, 2
  {
    BelowOne(t, Edit(Replace, path, Some(to)));
    if SameType(from, to) {
      match from
      case Array(es) => DiffElemsBelow(t, path, es, to.elems, 0, cs);
      case Object(ms, _) =>
        SortCorrect(ms, cs);
        DiffWalkBelow(t, path, from, Sort(ms, cs), Sort(to.members, cs), cs);
      case _ =>
    }
  }

  lemma {:induction false} DiffElemsBelow(t: Token, path: seq<Token>, fs: seq<Json>, ts: seq<Json>, index: nat,
                                          cs: bool)
    ensures DiffElems([t] + path, fs, ts, index, cs) == AllBelow(t, DiffElems(path, fs, ts, index, cs))
    decreases fs, |ts|
  {
    hide Diff;
    if fs != [] && index > ULONG_MAX {
    } else if fs != [] && ts != [] {
      Assoc([t], path, [Index(index)]);
      DiffBelow(t, path + [Index(index)], fs[0], ts[0], cs);
      DiffElemsBelow(t, path, fs[1..], ts[1..], index + 1, cs);
      BelowParts(t, Diff(path + [Index(index)], fs[0], ts[0], cs), DiffElems(path, fs[1..], ts[1..], index + 1, cs));
    } else if fs != [] {
      OneBelow(t, path, Index(index), Remove, None, DiffElems(path, fs[1..], ts, index, cs));
      DiffElemsBelow(t, path, fs[1..], ts, index, cs);
    } else if ts != [] {
      OneBelow(t, path, End, Add, Some(ts[0]), DiffElems(path, fs, ts[1..], index + 1, cs));
      DiffElemsBelow(t, path, fs, ts[1..], index + 1, cs);
    }
  }

  lemma OneBelow(t: Token, path: seq<Token>, last: Token, action: Action, value: Option<Json>, rest: seq<Edit>)
    ensures AllBelow(t, [Edit(action, path + [last], value)] + rest)
            == [Edit(action, [t] + path + [last], value)] + AllBelow(t, rest)
  {
    Assoc([t], path, [last]);
    assert ([Edit(action, path + [last], value)] + rest)[1..] == rest;
  }

  lemma {:induction false} DiffWalkBelow(t: Token, path: seq<Token>, owner: Json, fs: seq<Member<Json>>,
                                         ts: seq<Member<Json>>, cs: bool)
    requires forall m | m in fs :: m.value < owner
    ensures DiffWalk(owner, [t] + path, fs, ts, cs) == AllBelow(t, DiffWalk(owner, path, fs, ts, cs))
    decreases owner, 0, |fs| + |ts|
  {
    hide Diff, Cmp;
    if fs != [] || ts != [] {
      if WalkOrder(fs, ts, cs) == 0 {
        assert fs[0] in fs;
        Assoc([t], path, [Key(fs[0].key)]);
        DiffBelow(t, path + [Key(fs[0].key)], fs[0].value, ts[0].value, cs);
        DiffWalkBelow(t, path, owner, fs[1..], ts[1..], cs);
        BelowParts(t, Diff(path + [Key(fs[0].key)], fs[0].value, ts[0].value, cs),
                   DiffWalk(owner, path, fs[1..], ts[1..], cs));
      } else if WalkOrder(fs, ts, cs) < 0 {
        OneBelow(t, path, Key(fs[0].key), Remove, None, DiffWalk(owner, path, fs[1..], ts, cs));
        DiffWalkBelow(t, path, owner, fs[1..], ts, cs);
      } else {
        OneBelow(t, path, Key(ts[0].key), Add, Some(ts[0].value), DiffWalk(owner, path, fs, ts[1..], cs));
        DiffWalkBelow(t, path, owner, fs, ts[1..], cs);
      }
    }
  }

  /** Whether a subtree is replaced as a whole. */
  predicate Replaced(from: Json, to: Json) {
    !SameType(from, to) || (from.Number? && from.num != to.num) || (from.String? && from.text != to.text)
  }

  /** A subtree is replaced as a whole, or edited below its root. */
  lemma DiffAtRoot(from: Json, to: Json, cs: bool)
    ensures Replaced(from, to) ==> Diff([], from, to, cs) == [Edit(Replace, [], Some(to))]
    ensures !Replaced(from, to) ==> Deep(Diff([], from, to, cs))
  {
    if !Replaced(from, to) {
      match from
      case Array(es) => ElemsDeep([], es, to.elems, 0, cs);
      case Object(ms, _) =>
        SortCorrect(ms, cs);
        WalkDeep([], from, Sort(ms, cs), Sort(to.members, cs), cs);
      case _ =>
    }
  }

  /** All edits of a subtree are at its path or below. */
  lemma {:induction false} DiffPaths(path: seq<Token>, from: Json, to: Json, cs: bool)
    requires path != []
    ensures Deep(Diff(path, from, to, cs))
    decreases from, 2
  {
    if SameType(from, to) {
      match from
      case Array(es) => ElemsDeep(path, es, to.elems, 0, cs);
      case Object(ms, _) =>
        SortCorrect(ms, cs);
        WalkDeep(path, from, Sort(ms, cs), Sort(to.members, cs), cs);
      case _ =>
    }
  }

  lemma {:induction false} ElemsDeep(path: seq<Token>, fs: seq<Json>, ts: seq<Json>, index: nat, cs: bool)
    ensures Deep(DiffElems(path, fs, ts, index, cs))
    decreases fs, |ts|
  {
    hide Diff;
    if fs != [] && index > ULONG_MAX {
    } else if fs != [] && ts != [] {
      DiffPaths(path + [Index(index)], fs[0], ts[0], cs);
      ElemsDeep(path, fs[1..], ts[1..], index + 1, cs);
    } else if fs != [] {
      ElemsDeep(path, fs[1..], ts, index, cs);
    } else if ts != [] {
      ElemsDeep(path, fs, ts[1..], index + 1, cs);
    }
  }

  lemma {:induction false} WalkDeep(path: seq<Token>, owner: Json, fs: seq<Member<Json>>, ts: seq<Member<Json>>,
                                    cs: bool)
    requires forall m | m in fs :: m.value < owner
    ensures Deep(DiffWalk(owner, path, fs, ts, cs))
    decreases owner, 0, |fs| + |ts|
  {
    hide Diff, Cmp;
    if fs != [] || ts != [] {
      if WalkOrder(fs, ts, cs) == 0 {
        assert fs[0] in fs;
        DiffPaths(path + [Key(fs[0].key)], fs[0].value, ts[0].value, cs);
        WalkDeep(path, owner, fs[1..], ts[1..], cs);
      } else if WalkOrder(fs, ts, cs) < 0 {
        WalkDeep(path, owner, fs[1..], ts, cs);
      } else {
        WalkDeep(path, owner, fs, ts[1..], cs);
      }
    }
  }
}
