/** Where the round trips hold: on plain keys always; and the keys and trees on which they do not. */
module Limits {
  import opened CStrings
  import opened SiblingLinks
  import opened JsonTrees
  import opened Sorting
  import opened Comparing
  import opened Pointers
  import opened Edits
  import opened Diffing
  import opened Patching
  import opened PatchRoundTrip
  import opened MergeRoundTrip
  import opened Vocabularies
  import opened BrokenLinks

  // ----- Plain keys -----

  /** No upper-case letter, no '~' and no '/'. */
  ghost predicate IsPlainKey(key: Str) {
    forall c | c in key :: !('A' <= c <= 'Z') && c != '~' && c != '/'
  }

  ghost function PlainKeys(): iset<Str> {
    iset key | IsPlainKey(key)
  }

  lemma PlainNorm(key: Str, cs: bool)
    requires IsPlainKey(key)
    ensures Norm(key, cs) == key
  {
    forall i | 0 <= i < |key| ensures Lower(key[i]) == key[i] { assert key[i] in key; }
  }

  lemma {:induction false} PlainOrder(a: Str, b: Str)
    requires IsPlainKey(a) && IsPlainKey(b)
    ensures Cmp(a, b, false) == Cmp(a, b, true)
  {
    if a != "" && b != "" {
      assert a[0] in a && b[0] in b;
      assert (forall c | c in a[1..] :: c in a) && forall c | c in b[1..] :: c in b;
      PlainOrder(a[1..], b[1..]);
    }
  }

  lemma PlainSurvives(key: Str)
    requires IsPlainKey(key)
    ensures Survives(key)
  {
    EncodePlain(key);
  }

  /** Plain keys are a vocabulary on which none of the quirks of either format shows, in either mode. */
  lemma PlainKeysAreSafe(cs: bool)
    ensures Vocabulary(PlainKeys(), cs) && Agreeing(PlainKeys())
  {
    forall k | k in PlainKeys() ensures Survives(k) { PlainSurvives(k); }
    forall a, b | a in PlainKeys() && b in PlainKeys()
      ensures Cmp(a, b, false) == Cmp(a, b, true) && (Norm(a, false) == Norm(b, false) ==> a == b)
    {
      PlainOrder(a, b);
      PlainNorm(a, false);
      PlainNorm(b, false);
    }
  }

  /** The JSON Patch round trip on plain keys, for every document in order that equals `from`. */
  lemma PlainPatchesReachTarget(from: Json, to: Json, doc: Json, cs: bool)
    requires Fits(from, PlainKeys(), cs) && Fits(to, PlainKeys(), cs) && Small(from)
    requires Sound(doc, PlainKeys(), cs) && Abs(doc, cs) == Abs(from, cs)
    ensures RoundTrips(from, to, doc, cs)
  {
    PlainKeysAreSafe(cs);
    PatchingReachesTarget(from, to, doc, PlainKeys(), cs);
  }

  // ----- Keys that the in-place decoder loses -----

  predicate ZeroOrTilde(s: Str) {
    forall c | c in s :: c == '0' || c == '~'
  }

  lemma {:induction false} ZeroOrTildeEncoded(s: Str)
    requires ZeroOrTilde(s)
    ensures ZeroOrTilde(Encode(s)) && |Encode(s)| >= |s| && ('~' in s ==> |Encode(s)| > |s|)
  {
    if s != "" {
      assert s[0] in s && forall c | c in s[1..] :: c in s;
      ZeroOrTildeEncoded(s[1..]);
    }
  }

  /** What stands before a position in the encoding of a key that has lost nothing so far, behind its first '~'. */
  lemma EncodedBehindTilde(key: Str, t: nat, d: nat)
    requires t < d < |key| && '/' !in key && '~' !in key[..t] && key[t] == '~' && ZeroOrTilde(key[t..d])
    ensures d < |Encode(key)| && (Encode(key)[d] == '0' || Encode(key)[d] == '~')
  {
    hide Encode;
    var plain, middle, rest := key[..t], key[t..d], key[d..];
    assert middle[0] == '~';
    assert forall c | c in plain :: c in key;
    assert key == plain + (middle + rest);
    EncodeParts(plain, middle + rest);
    EncodeParts(middle, rest);
    EncodePlain(plain);
    ZeroOrTildeEncoded(middle);
    var e := Encode(middle);
    assert Encode(key) == plain + (e + Encode(rest));
    assert e[d - t] in e;
  }

  lemma EncodedBeforeTilde(key: Str, d: nat)
    requires d < |key| && '/' !in key && '~' !in key[..d] && key[d] != '~'
    ensures d < |Encode(key)| && Encode(key)[d] == key[d]
  {
    hide Encode;
    var plain, rest := key[..d + 1], key[d + 1..];
    assert plain == key[..d] + [key[d]];
    assert forall c | c in plain :: c in key;
    assert key == plain + rest;
    EncodeParts(plain, rest);
    EncodePlain(plain);
  }

  /** A key without '/' that the decoder does not get back is not got back up to case either: the first
      wrong character is a zero or a tilde. */
  lemma WrongCharacter(key: Str) returns (d: nat)
    requires '/' !in key && !Survives(key) && |key| <= |Encode(key)|
    ensures d < |key| && Lower(DecodedChar(key, d)) != Lower(key[d])
  {
    hide Encode;
    d := 0;
    var t := 0;
    while key[d] == '~' || Encode(key)[d] == key[d]
      invariant t <= d < |key|
      invariant '~' !in key[..t] && (t < d ==> key[t] == '~' && ZeroOrTilde(key[t..d]))
      invariant forall i | 0 <= i < d && key[i] != '~' :: Encode(key)[i] == key[i]
      decreases |key| - d
    {
      if t == d && key[d] != '~' {
        assert key[..d + 1] == key[..d] + [key[d]];
        t := t + 1;
      } else {
        if t < d && key[d] != '~' { EncodedBehindTilde(key, t, d); }
        assert key[t..d + 1] == key[t..d] + [key[d]];
      }
      d := d + 1;
    }
    if t == d {
      EncodedBeforeTilde(key, d);
    } else {
      EncodedBehindTilde(key, t, d);
    }
    if d > 0 { assert key[d - 1] in key; }
  }

  lemma DecoderFinds(key: Str)
    ensures Norm(DecodeInPlace(Encode(key)), false) == Norm(key, false) <==> Survives(key)
  {
    hide DecodeFrom;
    DecodeUndoesEncode(key);
    if !Survives(key) {
      EncodeGrows(key);
      assert key[..0] == "";
      DecodeEncodedFrom(key, 0, Encode(key));
      var r, d := DecodeInPlace(Encode(key)), 0;
      if '/' in key {
        d := FirstSlash(key);
        SlashLost(key, d);
      } else {
        d := WrongCharacter(key);
      }
      assert Norm(r, false)[d] == Lower(r[d]) && Norm(key, false)[d] == Lower(key[d]);
    }
  }

  /** What the decoder leaves for the first slash is no slash, in either case. */
  lemma SlashLost(key: Str, d: nat)
    requires d < |key| <= |Encode(key)| && DecodedChar(key, d) != key[d]
    ensures key[d] == '/' ==> Lower(DecodedChar(key, d)) != Lower(key[d])
  {
    hide Encode;
  }

  lemma OnlyRemoval(m: Member<Json>, cs: bool)
    ensures Diff([], Object([m]), Object([]), cs) == [Edit(Remove, [Key(m.key)], None)]
    ensures Generate(Object([m]), Object([]), cs) == [Compose("remove", "/" + Encode(m.key), None)]
  {
    hide Encode;
    var from := Object([m]);
    SortCorrect([m], cs);
    assert Sort([m], cs) == [m] && Sort<Json>([], cs) == [];
    assert [m][1..] == [];
    assert DiffWalk(from, [], [m], [], cs) == [Edit(Remove, [] + [Key(m.key)], None)] + DiffWalk(from, [], [], [], cs);
    assert [] + [Key(m.key)] == [Key(m.key)];
    var e := Edit(Remove, [Key(m.key)], None);
    assert [e][1..] == [] && [Key(m.key)][1..] == [];
    assert PathText([Key(m.key)]) == "/" + Encode(m.key) + "" == "/" + Encode(m.key);
  }

  lemma OnlySlash(token: Str)
    requires '/' !in token
    ensures LastSlash("/" + token) == Some(0)
    decreases |token|
  {
    var path := "/" + token;
    if token != "" {
      assert path[|path| - 1] == token[|token| - 1] && token[|token| - 1] in token;
      assert path[..|path| - 1] == "/" + token[..|token| - 1];
      OnlySlash(token[..|token| - 1]);
    }
  }

  /** Removing a member of the root, as detach_path does it. */
  lemma DetachFromRoot(ms: seq<Member<Json>>, token: Str, cs: bool)
    requires '/' !in token
    ensures var i := FindKey(ms, DecodeInPlace(token), false);
            Apply(Object(ms), Compose("remove", "/" + token, None), cs)
            == if i < |ms| then Outcome(0, Object(RemoveAt(ms, i))) else Outcome(13, Object(ms))
  {
    hide DecodeInPlace, Compose, Norm, FindKey, Apply, LastSlash;
    var path, root := "/" + token, Object(ms);
    RemoveIsDetach(root, path, cs);
    OnlySlash(token);
    assert path[..0] == "" && path[1..] == token;
    assert Get(root, "", cs) == Some([]);
    RightObjects(ms, DecodeInPlace(token), Null, false);
  }

  /** The patch that removes the only member of an object applies exactly when the decoder gets its key back;
      for every other key it fails with status 13. */
  lemma RemovalAppliesExactly(key: Str, value: Json, cs: bool)
    ensures var from := Object([Member(key, value)]);
            ApplyAll(from, Generate(from, Object([]), cs), cs)
            == if Survives(key) then Outcome(0, Object([])) else Outcome(13, from)
  {
    hide Encode, DecodeInPlace, Survives, Compose, Norm, Apply;
    var m := Member(key, value);
    OnlyRemoval(m, cs);
    DecoderFinds(key);
    DetachFromRoot([m], Encode(key), cs);
    assert [m][1..] == [] && RemoveAt([m], 0) == [];
    assert FindKey([m], DecodeInPlace(Encode(key)), false) == if Survives(key) then 0 else 1;
    var patch := Compose("remove", "/" + Encode(key), None);
    assert [patch][1..] == [];
  }

  // ----- Keys that differ only in case -----

  /** In case-sensitive mode a removal takes the first member whose name differs only in case, with status 0. */
  lemma RemovalIgnoresCase(a: Str, b: Str, x: Json, y: Json)
    requires a != b && Norm(a, false) == Norm(b, false) && Survives(b)
    ensures Apply(Object([Member(a, x), Member(b, y)]), Compose("remove", "/" + Encode(b), None), true)
            == Outcome(0, Object([Member(b, y)]))
  {
    hide Apply, Compose, Encode, Survives, DecodeInPlace, Norm;
    var ms := [Member(a, x), Member(b, y)];
    DecodeUndoesEncode(b);
    DetachFromRoot(ms, Encode(b), true);
    assert RemoveAt(ms, 0) == [Member(b, y)];
  }

  /** The walk over {a, b} and {a}, in whatever order the keys are. */
  lemma WalkTwo(owner: Json, f: Member<Json>, g: Member<Json>)
    requires f.key != g.key && f.value == Null && f.value < owner && g.value < owner
    ensures var s := if Cmp(f.key, g.key, true) < 0 then [f, g] else [g, f];
            DiffWalk(owner, [], s, [f], true) == [Edit(Remove, [Key(g.key)], None)]
  {
    hide Cmp;
    CmpZero(f.key, g.key, true);
    CmpZero(f.key, f.key, true);
    CmpFlip(g.key, f.key, true);
    var e := Edit(Remove, [] + [Key(g.key)], None);
    assert [] + [Key(g.key)] == [Key(g.key)];
    assert [f][1..] == [] && [g][1..] == [] && [f, g][1..] == [g] && [g, f][1..] == [f];
    if Cmp(f.key, g.key, true) < 0 {
      assert DiffWalk(owner, [], [g], [], true) == [e] + DiffWalk(owner, [], [], [], true);
      assert DiffWalk(owner, [], [f, g], [f], true) == [] + DiffWalk(owner, [], [g], [], true);
    } else {
      assert Cmp(g.key, f.key, true) < 0;
      assert WalkOrder([g, f], [f], true) < 0 && WalkOrder([f], [f], true) == 0;
      assert DiffWalk(owner, [], [f], [f], true) == [] + DiffWalk(owner, [], [], [], true) == [];
      assert DiffWalk(owner, [], [g, f], [f], true) == [e] + DiffWalk(owner, [], [f], [f], true) == [e];
    }
  }

  /** The generated patches from {a, b} to {a}. */
  lemma OneOfTwo(a: Str, b: Str)
    requires a != b
    ensures Generate(Object([Member(a, Null), Member(b, Null)]), Object([Member(a, Null)]), true)
            == [Compose("remove", "/" + Encode(b), None)]
  {
    hide Encode, Cmp, Sort, DiffWalk;
    var f, g := Member(a, Null), Member(b, Null);
    var from := Object([f, g]);
    SortCorrect([f, g], true);
    SortTwo(f, g, true);
    SortUnfolds([f], true);
    assert f in from.members && g in from.members;
    WalkTwo(from, f, g);
    OnePatch(Edit(Remove, [Key(b)], None));
  }

  lemma OnePatch(e: Edit)
    requires |e.path| == 1 && e.path[0].Key? && e.value.None?
    ensures ToPatches([e]) == [Compose(ActionName(e.action), "/" + Encode(e.path[0].name), None)]
  {
    hide Encode;
    assert [e][1..] == [] && e.path[1..] == [];
    assert PathText(e.path) == "/" + Encode(e.path[0].name) + "" == "/" + Encode(e.path[0].name);
    assert ToPatches([e]) == [ToPatch(e)] + ToPatches([]) == [ToPatch(e)];
  }

  /** Keys that differ only in case break the round trip. */
  lemma CaseBreaksRoundTrip(a: Str, b: Str)
    requires a != b && Norm(a, false) == Norm(b, false) && Survives(b)
    ensures var from := Object([Member(a, Null), Member(b, Null)]);
            !RoundTrips(from, Object([Member(a, Null)]), from, true)
  {
    hide Apply, Compose, Encode, Survives, Generate;
    var from, patch := Object([Member(a, Null), Member(b, Null)]), Compose("remove", "/" + Encode(b), None);
    OneOfTwo(a, b);
    RemovalIgnoresCase(a, b, Null, Null);
    assert [patch][1..] == [];
    assert ApplyAll(from, [patch], true) == Outcome(0, Object([Member(b, Null)]));
    var left, wanted := [Member(b, Null)], [Member(a, Null)];
    AbsKeys(left, true);
    AbsKeys(wanted, true);
    assert left[0] in left && Norm(b, true) in AbsMembers(left, true) && Norm(b, true) !in AbsMembers(wanted, true);
  }

  /** The JSON Patch round trip holds for all trees over a vocabulary exactly when the decoder gets each of its
      keys back and, in case-sensitive mode, no two of them differ only in case. */
  lemma VocabularyIsExact(keys: iset<Str>, cs: bool)
    ensures Vocabulary(keys, cs) <==>
            forall from, to, doc | RoundTripDomain(from, to, doc, keys, cs) :: RoundTrips(from, to, doc, cs)
  {
    hide RoundTrips, Survives, Generate, ApplyAll;
    if Vocabulary(keys, cs) {
      forall from, to, doc | RoundTripDomain(from, to, doc, keys, cs) ensures RoundTrips(from, to, doc, cs) {
        PatchingReachesTarget(from, to, doc, keys, cs);
      }
    } else if k: Str :| k in keys && !Survives(k) {
      var from, to := Object([Member(k, Null)]), Object([]);
      RemovalAppliesExactly(k, Null, cs);
      FailedRoundTrip(from, to, cs);
      LeavesFit(from.members, keys, cs);
      LeavesFit(to.members, keys, cs);
      assert RoundTripDomain(from, to, from, keys, cs);
    } else {
      var a, b :| a in keys && b in keys && Norm(a, false) == Norm(b, false) && a != b;
      var from, to := Object([Member(a, Null), Member(b, Null)]), Object([Member(a, Null)]);
      CaseBreaksRoundTrip(a, b);
      LeavesFit(from.members, keys, cs);
      LeavesFit(to.members, keys, cs);
      assert RoundTripDomain(from, to, from, keys, cs);
    }
  }

  lemma LeavesFit(ms: seq<Member<Json>>, keys: iset<Str>, cs: bool)
    requires DistinctKeys(ms, cs) && forall m | m in ms :: m.key in keys && m.value.Null?
    ensures Sound(Object(ms), keys, cs) && Fits(Object(ms), keys, cs) && Small(Object(ms))
  {
  }

  lemma FailedRoundTrip(from: Json, to: Json, cs: bool)
    requires ApplyAll(from, Generate(from, to, cs), cs).status != 0
    ensures !RoundTrips(from, to, from, cs)
  {
  }
}
