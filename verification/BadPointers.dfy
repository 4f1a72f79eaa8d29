/** What becomes of pointers that are none: without a slash in front, and with a '~' that is no escape. */
module BadPointers {
  import opened CStrings
  import opened JsonTrees
  import opened Pointers
  import opened Patching

  /** What must not follow a '~'. */
  predicate NoEscape(rest: Str) {
    rest == "" || (rest[0] != '0' && rest[0] != '1')
  }

  /** Every token is the spelling of a name, or the spelling of one in front of a '~' that is no escape. */
  lemma {:induction false} TokenSplits(t: Str) returns (name: Str, bad: bool, rest: Str)
    requires '/' !in t
    ensures if bad then t == Encode(name) + ("~" + rest) && NoEscape(rest) else t == Encode(name)
    decreases |t|
  {
    if t == "" {
      name, bad, rest := "", false, "";
    } else if t[0] == '~' && (|t| == 1 || (t[1] != '0' && t[1] != '1')) {
      name, bad, rest := "", true, t[1..];
      assert t == "~" + rest && "" + ("~" + rest) == "~" + rest;
    } else {
      var c, n := if t[0] == '~' then (if t[1] == '0' then '~' else '/') else t[0], if t[0] == '~' then 2 else 1;
      assert t == EncodeChar(c) + t[n..] by { assert t[0] in t; }
      name, bad, rest := TokenSplits(t[n..]);
      OneMore(c, name);
      if bad { Assoc(EncodeChar(c), Encode(name), "~" + rest); }
      name := [c] + name;
    }
  }

  lemma OneMore(c: char, name: Str)
    ensures Encode([c] + name) == EncodeChar(c) + Encode(name)
  {
    assert ([c] + name)[1..] == name;
  }

  /** A token with a '~' that is no escape names no key. */
  lemma {:induction false} NoEscapeMatchesNothing(key: Str, name: Str, rest: Str, cs: bool)
    requires NoEscape(rest)
    ensures !Matches(key, Encode(name) + ("~" + rest), cs)
    decreases |name|
  {
    var bad := "~" + rest;
    if name == "" {
      assert Encode(name) + bad == bad;
      assert rest != "" ==> bad[1] == rest[0];
    } else {
      var c := EncodeChar(name[0]);
      Assoc(c, Encode(name[1..]), bad);
      if key == "" {
        assert (c + (Encode(name[1..]) + bad))[0] == c[0];
      } else {
        hide Matches, EncodeChar;
        NoEscapeMatchesNothing(key[1..], name[1..], rest, cs);
        MatchesHead(key, name[0], Encode(name[1..]) + bad, cs);
      }
    }
  }

  /** Such a token finds nothing in an object. */
  lemma {:induction false} NoEscapeFindsNothing(ms: seq<Member<Json>>, name: Str, rest: Str, cs: bool)
    requires NoEscape(rest)
    ensures FindMatch(ms, Encode(name) + ("~" + rest), cs) == |ms|
    decreases |ms|
  {
    if ms != [] {
      hide Matches, Encode;
      NoEscapeMatchesNothing(ms[0].key, name, rest, cs);
      NoEscapeFindsNothing(ms[1..], name, rest, cs);
    }
  }

  /** A pointer that does not begin with a slash is the whole document; one whose first token holds a '~' that is no
      escape finds nothing in an object. */
  lemma BadPointersFind(j: Json, p: Str, name: Str, rest: Str, cs: bool)
    requires NoEscape(rest)
    ensures (p == "" || p[0] != '/') ==> Get(j, p, cs) == Some([])
    ensures !j.Array? ==> Get(j, "/" + (Encode(name) + ("~" + rest)), cs) == None
  {
    hide Encode, FindMatch;
    var q := "/" + (Encode(name) + ("~" + rest));
    assert q[1..] == Encode(name) + ("~" + rest);
    if j.Object? { NoEscapeFindsNothing(j.members, name, rest, cs); }
  }

  // ---------- the decoder ----------

  function Followed(b: Str, rest: Str): Str {
    b + ("~" + rest)
  }

  /** The first d characters are decoded, and those from the next on are as they were. */
  ghost predicate DecodedUpTo(r: Str, decoded: Str, t: Str, d: nat) {
    |r| == |t| && decoded <= r && |decoded| == d && forall i | d < i < |r| :: r[i] == t[i]
  }

  /** Decoding in front of a '~' that is no escape: the decoder returns there. */
  lemma {:induction false} DecodedInFront(b: Str, name: Str, rest: Str, src: nat, dst: nat)
    requires dst <= src <= |b| <= |Followed(b, rest)| && b[src..] == Encode(name) && NoEscape(rest)
    ensures var t := Followed(b, rest);
            DecodedUpTo(DecodeFrom(t, src, dst), DecodeFrom(b, src, dst), t, dst + |name|)
    decreases |name|
  {
    if name == "" {
      StopsHere(b, rest, src, dst);
    } else {
      hide Encode, DecodeFrom, EncodeChar, Decode1, DecodedUpTo, Followed, NoEscape;
      var n, b' := |EncodeChar(name[0])|, Decode1(name[0], b, dst);
      DecodedStep(b, name, rest, src, dst);
      DecodedInFront(b', name[1..], rest, src + n, dst + 1);
      Carried(DecodeFrom(Followed(b, rest), src, dst), DecodeFrom(b, src, dst), Followed(b', rest), Followed(b, rest),
              dst + |name|, dst);
    }
  }

  /** One round on both texts. */
  lemma DecodedStep(b: Str, name: Str, rest: Str, src: nat, dst: nat)
    requires dst <= src <= |b| <= |Followed(b, rest)| && b[src..] == Encode(name) && name != ""
    ensures var n := |EncodeChar(name[0])|;
            src + n <= |b| && (dst + 1 < |b| || name[0] != '/') &&
            var b' := Decode1(name[0], b, dst);
            |b'| == |b| && b'[src + n..] == Encode(name[1..]) && |Followed(b', rest)| == |Followed(b, rest)|
            && DecodeFrom(b, src, dst) == DecodeFrom(b', src + n, dst + 1)
            && DecodeFrom(Followed(b, rest), src, dst) == DecodeFrom(Followed(b', rest), src + n, dst + 1)
            && forall i | dst + 1 < i < |Followed(b, rest)| :: Followed(b', rest)[i] == Followed(b, rest)[i]
  {
    hide Encode, DecodeFrom, Decode1, Followed, NoEscape;
    EncodedHead(b, src, name);
    DecodeOne(b, src, dst, name[0]);
    SameHead(b, rest, src, EncodeChar(name[0]));
    DecodeOne(Followed(b, rest), src, dst, name[0]);
    WrittenInFront(b, rest, dst, name[0], src + |EncodeChar(name[0])|);
  }

  lemma StopsHere(b: Str, rest: Str, src: nat, dst: nat)
    requires dst <= src == |b| && NoEscape(rest)
    ensures |b| <= |Followed(b, rest)|
            && DecodedUpTo(DecodeFrom(Followed(b, rest), src, dst), DecodeFrom(b, src, dst), Followed(b, rest), dst)
  {
    var t := Followed(b, rest);
    assert t[src] == '~' && (rest != "" ==> t[src + 1] == rest[0]);
  }

  lemma Carried(r: Str, decoded: Str, t': Str, t: Str, d: nat, dst: nat)
    requires DecodedUpTo(r, decoded, t', d) && |t'| == |t| && dst < d && forall i | dst + 1 < i < |t| :: t'[i] == t[i]
    ensures DecodedUpTo(r, decoded, t, d)
  {
  }

  lemma SameHead(b: Str, rest: Str, src: nat, c: Str)
    requires src + |c| <= |b| && b[src..src + |c|] == c
    ensures src + |c| <= |Followed(b, rest)| && Followed(b, rest)[src..src + |c|] == c
  {
  }

  /** One round of the decoder. */
  lemma DecodeOne(buf: Str, src: nat, dst: nat, c: char)
    requires var n := |EncodeChar(c)|; dst <= src && src + n <= |buf| && buf[src..src + n] == EncodeChar(c)
    ensures DecodeFrom(buf, src, dst) == DecodeFrom(Decode1(c, buf, dst), src + |EncodeChar(c)|, dst + 1)
  {
    var e := buf[src..src + |EncodeChar(c)|];
    assert buf[src] == e[0] && (|e| > 1 ==> buf[src + 1] == e[1]);
  }

  /** It writes in front of what is still to be read. */
  lemma WrittenInFront(b: Str, rest: Str, dst: nat, c: char, next: nat)
    requires dst + |EncodeChar(c)| <= next <= |b|
    ensures var b' := Decode1(c, b, dst);
            Decode1(c, Followed(b, rest), dst) == Followed(b', rest) && |b'| == |b| && b'[next..] == b[next..]
            && |Followed(b', rest)| == |Followed(b, rest)|
            && forall i | dst + 1 < i < |Followed(b, rest)| :: Followed(b', rest)[i] == Followed(b, rest)[i]
  {
  }

  lemma EncodedHead(b: Str, src: nat, name: Str)
    requires src <= |b| && b[src..] == Encode(name) && name != ""
    ensures var n := |EncodeChar(name[0])|;
            src + n <= |b| && b[src..src + n] == EncodeChar(name[0]) && b[src + n..] == Encode(name[1..])
  {
    EncodedParts(name);
    hide Encode, EncodeChar;
    SplitRest(b, src, EncodeChar(name[0]), Encode(name[1..]));
  }

  lemma EncodedParts(name: Str)
    requires name != ""
    ensures Encode(name) == EncodeChar(name[0]) + Encode(name[1..])
  {
  }

  lemma SplitRest(b: Str, src: nat, c: Str, rest: Str)
    requires src <= |b| && b[src..] == c + rest
    ensures src + |c| <= |b| && b[src..src + |c|] == c && b[src + |c|..] == rest
  {
    DropPrefix(c, rest);
    assert b[src..][..|c|] == b[src..src + |c|] && b[src..][|c|..] == b[src + |c|..];
  }

  /** A token with a '~' that is no escape keeps its length: what is in front of the '~' is decoded at the beginning,
      and only there and right behind it anything changes. */
  lemma NoEscapeDecoded(name: Str, rest: Str)
    requires NoEscape(rest)
    ensures var t := Encode(name) + ("~" + rest);
            var r := DecodeInPlace(t);
            |r| == |t| && DecodeInPlace(Encode(name)) <= r && |DecodeInPlace(Encode(name))| == |name|
            && forall i | |name| < i < |t| :: r[i] == t[i]
  {
    hide Encode;
    assert Encode(name)[0..] == Encode(name);
    DecodedInFront(Encode(name), name, rest, 0, 0);
  }

  /** What decoding makes of every name, character by character: a '~' is written where it belongs, a slash one place
      behind that, and everything else is left as it stands in the spelling. */
  lemma SpellingDecoded(name: Str)
    ensures var r := DecodeInPlace(Encode(name));
            |r| == |name| && |name| <= |Encode(name)| && forall d | 0 <= d < |name| :: r[d] == DecodedChar(name, d)
  {
    EncodeGrows(name);
    assert name[..0] == "";
    DecodeEncodedFrom(name, 0, Encode(name));
  }
}
