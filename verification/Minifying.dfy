/** The minifier: what it makes of a text, the in-place loops that make it, and exactly which formatted
    prints it turns into the unformatted print. */
module Minifying {
  import opened CStrings
  import opened JsonTrees
  import opened Texts
  import opened TextRoundTrip

  predicate IsSpace(c: char) {
    c == ' ' || c == '\t' || c == '\r' || c == '\n'
  }

  /** What skip_oneline_comment leaves: everything behind the next line end. */
  function BehindLine(s: Str): (r: Str)
    ensures |r| <= |s|
  {
    if s == "" then "" else if s[0] == '\n' then s[1..] else BehindLine(s[1..])
  }

  /** What skip_multiline_comment leaves. */
  function BehindComment(s: Str): (r: Str)
    ensures |r| <= |s|
  {
    if s == "" then "" else if s[0] == '*' && |s| > 1 && s[1] == '/' then s[2..] else BehindComment(s[1..])
  }

  /** How much minify_string copies behind an opening quote. A quote ends the string unless the character
      before it, wherever that comes from, is a backslash. */
  function LiteralLength(s: Str): (n: nat)
    ensures n <= |s|
  {
    if s == "" then 0
    else if s[0] == '\"' then 1
    else if s[0] == '\\' && |s| > 1 && s[1] == '\"' then 2 + LiteralLength(s[2..])
    else 1 + LiteralLength(s[1..])
  }

  /** cJSON_Minify. */
  function Minified(s: Str): (m: Str)
    ensures |m| <= |s|
    decreases |s|
  {
    if s == "" then ""
    else if IsSpace(s[0]) then Minified(s[1..])
    else if s[0] == '/' then
      if |s| > 1 && s[1] == '/' then Minified(BehindLine(s[2..]))
      else if |s| > 1 && s[1] == '*' then Minified(BehindComment(s[2..]))
      else Minified(s[1..])
    else if s[0] == '\"' then
      var n := 1 + LiteralLength(s[1..]);
      s[..n] + Minified(s[n..])
    else [s[0]] + Minified(s[1..])
  }

  // ----- Pieces of printed texts -----

  predicate IsOrdinary(c: char) {
    !IsSpace(c) && c != '/' && c != '\"'
  }

  lemma {:induction false} OrdinaryKept(a: Str, r: Str)
    requires forall c | c in a :: IsOrdinary(c)
    ensures Minified(a + r) == a + Minified(r)
  {
    if a == "" {
      assert a + r == r && a + Minified(r) == Minified(r);
    } else {
      DropHead(a, r);
      assert a[0] in a;
      OrdinaryKept(a[1..], r);
      Assoc([a[0]], a[1..], Minified(r));
      assert [a[0]] + a[1..] == a;
    }
  }

  lemma {:induction false} SpaceDropped(a: Str, r: Str)
    requires forall c | c in a :: IsSpace(c)
    ensures Minified(a + r) == Minified(r)
  {
    if a == "" {
      assert a + r == r;
    } else {
      DropHead(a, r);
      assert a[0] in a;
      SpaceDropped(a[1..], r);
    }
  }

  predicate EndsInBackslash(t: Str) {
    t != "" && t[|t| - 1] == '\\'
  }

  /** The escape of one character, and what stands behind it, is stepped over; a backslash in front of a
      closing quote is where it goes wrong. */
  lemma EscapeStepped(c: char, r: Str)
    requires r != "" && (r[0] == '\"' ==> c != '\\')
    ensures LiteralLength(EscapeChar(c) + r) == |EscapeChar(c)| + LiteralLength(r)
  {
    var e := EscapeChar(c);
    var s := e + r;
    DropPrefix(e, r);
    assert s[0] == e[0];
    if |e| == 1 {
      assert s[1..] == r;
    } else if |e| == 2 {
      assert s[1] == e[1] && s[2..] == r && s[1..][1..] == r && s[1..][0] == e[1];
      assert c == '\\' ==> s[1..][1] == r[0];
    } else {
      ControlStepped(c, r);
    }
  }

  lemma ControlStepped(c: char, r: Str)
    requires |EscapeChar(c)| == 6
    ensures LiteralLength(EscapeChar(c) + r) == 6 + LiteralLength(r)
  {
    var e := EscapeChar(c);
    var s := e + r;
    assert s[0] == '\\' && s[1] == 'u';
    PlainStepped(s[1..], 5);
    forall i | 0 <= i < 5 ensures s[1..][i] == e[i + 1] {}
    assert s[1..][5..] == r;
  }

  lemma {:induction false} PlainStepped(s: Str, n: nat)
    requires n <= |s| && forall i | 0 <= i < n :: s[i] != '\"' && s[i] != '\\'
    ensures LiteralLength(s) == n + LiteralLength(s[n..])
  {
    if n == 0 {
      assert s[0..] == s;
    } else {
      PlainStepped(s[1..], n - 1);
      assert s[1..][n - 1..] == s[n..];
    }
  }

  /** A printed literal is copied to its closing quote, unless its text ends in a backslash: then the
      copying goes on to the next quote behind it. */
  lemma {:induction false} LiteralCopied(t: Str, r: Str)
    ensures LiteralLength(Escape(t) + ("\"" + r))
            == |Escape(t)| + 1 + (if EndsInBackslash(t) then LiteralLength(r) else 0)
  {
    var close := "\"" + r;
    if t == "" {
      assert Escape(t) + close == close;
    } else {
      var e, rest := EscapeChar(t[0]), Escape(t[1..]);
      Assoc(e, rest, close);
      LiteralCopied(t[1..], r);
      if |t| == 1 && t[0] == '\\' {
        BackslashAtEnd(r);
        assert rest == "" && Escape(t) == e;
      } else {
        FirstOfRest(t[1..], r);
        EscapeStepped(t[0], rest + close);
      }
    }
  }

  lemma BackslashAtEnd(r: Str)
    ensures LiteralLength("\\\\" + ("\"" + r)) == 3 + LiteralLength(r)
  {
    var s := "\\\\" + ("\"" + r);
    assert s[1..][0] == '\\' && s[1..][1] == '\"' && s[1..][2..] == r;
  }

  lemma FirstOfRest(t: Str, r: Str)
    ensures var s := Escape(t) + ("\"" + r); s != "" && (s[0] == '\"' <==> t == "")
  {
    if t != "" { assert EscapeChar(t[0])[0] != '\"'; }
  }

  lemma MinifiedQuote(s: Str)
    requires s != "" && s[0] == '\"'
    ensures var n := 1 + LiteralLength(s[1..]); Minified(s) == s[..n] + Minified(s[n..])
  {
  }

  /** What becomes of a printed literal in front of other text. */
  lemma QuotedCopied(t: Str, r: Str)
    ensures var n := if EndsInBackslash(t) then LiteralLength(r) else 0;
            Minified(Quoted(t) + r) == Quoted(t) + (r[..n] + Minified(r[n..]))
  {
    hide Escape, EndsInBackslash, LiteralLength, Minified;
    var n := if EndsInBackslash(t) then LiteralLength(r) else 0;
    var s, q := Quoted(t) + r, Quoted(t);
    LiteralCopied(t, r);
    assert s == "\"" + (Escape(t) + ("\"" + r));
    assert s[1..] == Escape(t) + ("\"" + r);
    MinifiedQuote(s);
    var k := |q| + n;
    assert s[..k] == q + r[..n] && s[k..] == r[n..];
    Assoc(q, r[..n], Minified(r[n..]));
  }

  // ----- Trees -----

  /** No key and no string ends in a backslash, except that the very last text may when only brackets follow. */
  predicate Minifiable(j: Json, last: bool)
    decreases j
  {
    match j
    case String(t) => last || !EndsInBackslash(t)
    case Array(es) => MinifiableElems(es, last)
    case Object(ms, _) => MinifiableMembers(ms)
    case _ => true
  }

  predicate MinifiableMembers(ms: seq<Member<Json>>)
    decreases ms
  {
    ms == [] || (!EndsInBackslash(ms[0].key) && Minifiable(ms[0].value, false) && MinifiableMembers(ms[1..]))
  }

  predicate MinifiableElems(es: seq<Json>, last: bool)
    decreases es
  {
    es == [] || (Minifiable(es[0], last && |es| == 1) && MinifiableElems(es[1..], last))
  }

  ghost predicate Brackets(r: Str) {
    forall c | c in r :: c == ']'
  }

  /** Two texts part at a character that the first has and that is white space, before any quote. */
  ghost predicate Parting(r: Str, u: Str) {
    exists k: nat :: PartAt(r, u, k)
  }

  ghost predicate PartAt(r: Str, u: Str, k: nat) {
    k < |r| && k < |u| && r[..k] == u[..k] && '\"' !in r[..k] && '\\' !in r[..k] && IsSpace(r[k]) && !IsSpace(u[k])
  }

  /** What follows a value in the formatted and in the unformatted text. */
  ghost predicate Follows(r: Str, u: Str, last: bool) {
    if last then Brackets(r) && u == r else Parting(r, u)
  }

  lemma BracketsKept(r: Str)
    requires Brackets(r)
    ensures Minified(r) == r && LiteralLength(r) == |r|
  {
    hide Minified, LiteralLength;
    OrdinaryKept(r, "");
    assert r + "" == r;
    forall i | 0 <= i < |r| ensures r[i] == ']' { assert r[i] in r; }
    PlainStepped(r, |r|);
    assert r[|r|..] == "";
    NothingLeft();
  }

  lemma NothingLeft()
    ensures Minified("") == "" && LiteralLength("") == 0
  {
  }

  lemma PartingCopied(r: Str, u: Str, k: nat)
    requires PartAt(r, u, k)
    ensures LiteralLength(r) > k
  {
    forall i | 0 <= i < k + 1 ensures r[i] != '\"' && r[i] != '\\' {
      if i < k { assert r[i] == r[..k][i]; }
    }
    PlainStepped(r, k + 1);
  }

  /** A literal ending in a backslash goes wrong exactly when more than brackets follow. */
  lemma MisreadLiteral(t: Str, r: Str, u: Str, last: bool)
    requires EndsInBackslash(t) && Follows(r, u, last)
    ensures last ==> Minified(Quoted(t) + r) == Quoted(t) + Minified(r)
    ensures !last ==> Minified(Quoted(t) + r) != Quoted(t) + u
  {
    hide Quoted, EndsInBackslash, Minified, LiteralLength, IsSpace;
    QuotedCopied(t, r);
    var n := LiteralLength(r);
    if last {
      BracketsKept(r);
      assert r[..n] == r && r[n..] == "";
      BracketsKept("");
      assert r + "" == r;
    } else {
      var k: nat :| PartAt(r, u, k);
      PartingCopied(r, u, k);
      var m := r[..n] + Minified(r[n..]);
      assert m[k] == r[k] != u[k];
      SameBehind(Quoted(t), m, u);
    }
  }

  lemma SameBehind(a: Str, b: Str, c: Str)
    ensures a + b == a + c <==> b == c
  {
    DropPrefix(a, b);
    DropPrefix(a, c);
  }

  /** What follows an element in front of another one. */
  function BehindElem(es: seq<Json>, format: bool, tabs: nat, r: Str): Str {
    Comma(true, format) + (ElemsText(es, format, tabs) + r)
  }

  lemma ElemsTextParts(es: seq<Json>, format: bool, tabs: nat, r: Str)
    requires es != []
    ensures ElemsText(es, format, tabs) + r ==
            Text(es[0], format, tabs) + if |es| == 1 then r else BehindElem(es[1..], format, tabs, r)
  {
    hide Text;
    var text, rest := Text(es[0], format, tabs), ElemsText(es[1..], format, tabs);
    var comma := Comma(|es| > 1, format);
    assert (text + comma + rest) + r == text + (comma + (rest + r));
    if |es| == 1 { assert comma + (rest + r) == r; }
  }

  /** The space behind a comma is where the formatted and the unformatted text part. */
  lemma CommaParts(es: seq<Json>, tabs: nat, r: Str, u: Str)
    requires es != [] && forall e | e in es :: Textual(e)
    ensures Parting(BehindElem(es, true, tabs, r), BehindElem(es, false, tabs, u))
    ensures Minified(BehindElem(es, true, tabs, r)) == "," + Minified(ElemsText(es, true, tabs) + r)
  {
    hide ElemsText, Text, Minified, Textual;
    var rest := ElemsText(es, true, tabs) + r;
    assert ", " + rest == "," + (" " + rest);
    OrdinaryKept(",", " " + rest);
    SpaceDropped(" ", rest);
    var a, b := BehindElem(es, true, tabs, r), BehindElem(es, false, tabs, u);
    ElemsTextParts(es, false, tabs, u);
    TextBegins(es[0], false, tabs);
    assert PartAt(a, b, 1);
  }

  /** Minifying the formatted print of a tree, in front of anything, gives its unformatted print, when the
      tree allows it. */
  lemma {:induction false} MinifiesText(j: Json, tabs: nat, r: Str, u: Str, last: bool)
    requires Textual(j) && Minifiable(j, last) && Follows(r, u, last)
    ensures Minified(Text(j, true, tabs) + r) == Text(j, false, tabs) + Minified(r)
    decreases j, 1
  {
    match j {
      case String(t) =>
        QuotedCopied(t, r);
        if EndsInBackslash(t) { MisreadLiteral(t, r, u, last); }
      case Array(es) =>
        MinifiesArray(es, tabs, r, u, last);
      case Object(ms, _) =>
        MinifiesObject(ms, tabs, r, u);
      case Number(d) =>
        OrdinaryKept(IntText(d.Floor), r);
      case _ =>
        OrdinaryKept(Text(j, true, tabs), r);
    }
  }

  lemma {:induction false} MinifiesArray(es: seq<Json>, tabs: nat, r: Str, u: Str, last: bool)
    requires (forall e | e in es :: Textual(e)) && MinifiableElems(es, last) && Follows(r, u, last)
    ensures Minified(("[" + ElemsText(es, true, tabs + 1) + "]") + r)
            == "[" + ElemsText(es, false, tabs + 1) + "]" + Minified(r)
    decreases es, 3
  {
    hide ElemsText, Textual, Minified, MinifiableElems, Follows;
    var body, flat := ElemsText(es, true, tabs + 1), ElemsText(es, false, tabs + 1);
    assert ("[" + body + "]") + r == "[" + (body + ("]" + r));
    OrdinaryKept("[", body + ("]" + r));
    BehindBracket(r, u, last);
    MinifiesElems(es, tabs + 1, "]" + r, "]" + u, last);
    OrdinaryKept("]", r);
    assert "[" + (flat + ("]" + Minified(r))) == "[" + flat + "]" + Minified(r);
  }

  lemma BehindBracket(r: Str, u: Str, last: bool)
    requires Follows(r, u, last)
    ensures Follows("]" + r, "]" + u, last)
  {
    if !last {
      var k: nat :| PartAt(r, u, k);
      var a, b := "]" + r, "]" + u;
      assert a[..k + 1] == "]" + r[..k] && b[..k + 1] == "]" + u[..k];
      assert PartAt(a, b, k + 1);
    }
  }

  lemma {:induction false} MinifiesElems(es: seq<Json>, tabs: nat, r: Str, u: Str, last: bool)
    requires (forall e | e in es :: Textual(e)) && MinifiableElems(es, last) && Follows(r, u, last)
    ensures Minified(ElemsText(es, true, tabs) + r) == ElemsText(es, false, tabs) + Minified(r)
    decreases es, 2
  {
    hide Text, Textual, Minified, Minifiable, Follows, BehindElem, ElemsText;
    if es == [] {
      NoElements(tabs, r);
    } else {
      ElemsTextParts(es, true, tabs, r);
      ElemsTextParts(es, false, tabs, Minified(r));
      if |es| == 1 {
        MinifiesText(es[0], tabs, r, u, last);
      } else {
        var a, b := BehindElem(es[1..], true, tabs, r), BehindElem(es[1..], false, tabs, u);
        CommaParts(es[1..], tabs, r, u);
        PartingFollows(a, b);
        MinifiesText(es[0], tabs, a, b, false);
        MinifiesElems(es[1..], tabs, r, u, last);
        FlatBehindElem(es[1..], tabs, Minified(r));
      }
    }
  }

  lemma PartingFollows(r: Str, u: Str)
    requires Parting(r, u)
    ensures Follows(r, u, false)
  {
  }

  lemma FlatBehindElem(es: seq<Json>, tabs: nat, u: Str)
    ensures BehindElem(es, false, tabs, u) == "," + (ElemsText(es, false, tabs) + u)
  {
  }

  lemma NoElements(tabs: nat, r: Str)
    ensures ElemsText([], true, tabs) + r == r && ElemsText([], false, tabs) + Minified(r) == Minified(r)
  {
  }

  /** The text of a member behind its name, up to the next one. */
  function BehindName(ms: seq<Member<Json>>, format: bool, tabs: nat, r: Str): Str
    requires ms != []
  {
    Colon(format) + (Text(ms[0].value, format, tabs) + BehindValue(ms, format, tabs, r))
  }

  function BehindValue(ms: seq<Member<Json>>, format: bool, tabs: nat, r: Str): Str
    requires ms != []
  {
    MemberTail(|ms| > 1, format) + (MembersText(ms[1..], format, tabs) + r)
  }

  lemma MembersParts(ms: seq<Member<Json>>, format: bool, tabs: nat, r: Str)
    requires ms != []
    ensures MembersText(ms, format, tabs) + r ==
            (if format then Tabs(tabs) else "") + (Quoted(ms[0].key) + BehindName(ms, format, tabs, r))
  {
    hide MembersText, Text, Quoted, Colon, MemberTail, Tabs;
    MembersTextParts(ms, format, tabs);
    var indent, key, colon := if format then Tabs(tabs) else "", Quoted(ms[0].key), Colon(format);
    var text, tail, rest := Text(ms[0].value, format, tabs), MemberTail(|ms| > 1, format),
        MembersText(ms[1..], format, tabs);
    FiveParts(indent, key, colon, text, tail + rest, r);
    Assoc(tail, rest, r);
  }

  lemma FiveParts(a: Str, b: Str, c: Str, d: Str, e: Str, r: Str)
    ensures (a + (b + (c + (d + e)))) + r == a + (b + (c + (d + (e + r))))
  {
  }

  lemma FlatMembersParts(ms: seq<Member<Json>>, tabs: nat, r: Str)
    requires ms != []
    ensures MembersText(ms, false, tabs) + r == Quoted(ms[0].key) + BehindName(ms, false, tabs, r)
  {
    hide MembersText, BehindName;
    MembersParts(ms, false, tabs, r);
    assert "" + (Quoted(ms[0].key) + BehindName(ms, false, tabs, r))
           == Quoted(ms[0].key) + BehindName(ms, false, tabs, r);
  }

  /** A name whose text does not end in a backslash, with the white space on both sides, is minified. */
  lemma NameMinified(ms: seq<Member<Json>>, tabs: nat, r: Str)
    requires ms != [] && !EndsInBackslash(ms[0].key)
    ensures Minified(MembersText(ms, true, tabs) + r) ==
            Quoted(ms[0].key) + (":" + Minified(Text(ms[0].value, true, tabs) + BehindValue(ms, true, tabs, r)))
  {
    hide MembersText, Text, Quoted, BehindValue, Minified;
    var key, behind := Quoted(ms[0].key), BehindName(ms, true, tabs, r);
    var rest := Text(ms[0].value, true, tabs) + BehindValue(ms, true, tabs, r);
    MembersParts(ms, true, tabs, r);
    SpaceDropped(Tabs(tabs), key + behind);
    QuotedCopied(ms[0].key, behind);
    assert behind[..0] + Minified(behind[0..]) == Minified(behind) by { assert behind[0..] == behind; }
    assert ":\t" + rest == ":" + ("\t" + rest);
    OrdinaryKept(":", "\t" + rest);
    SpaceDropped("\t", rest);
  }

  /** What separates two members is minified. */
  lemma TailMinified(ms: seq<Member<Json>>, tabs: nat, r: Str)
    requires ms != []
    ensures Minified(BehindValue(ms, true, tabs, r)) ==
            (if |ms| > 1 then "," else "") + Minified(MembersText(ms[1..], true, tabs) + r)
  {
    hide MembersText, Minified;
    var rest := MembersText(ms[1..], true, tabs) + r;
    SpaceDropped("\n", rest);
    assert MemberTail(true, true) == ",\n" && MemberTail(false, true) == "\n";
    if |ms| > 1 {
      assert ",\n" + rest == "," + ("\n" + rest);
      OrdinaryKept(",", "\n" + rest);
    } else {
      assert "" + Minified(rest) == Minified(rest);
    }
  }

  /** Behind every value of an object the two texts part. */
  lemma ValueParts(ms: seq<Member<Json>>, tabs: nat, r: Str, u: Str)
    requires ms != [] && u != "" && !IsSpace(u[0])
    ensures Follows(BehindValue(ms, true, tabs, r), BehindValue(ms, false, tabs, u), false)
  {
    hide MembersText, IsSpace;
    var a, b := BehindValue(ms, true, tabs, r), BehindValue(ms, false, tabs, u);
    if |ms| > 1 {
      FlatMembersParts(ms[1..], tabs, u);
      assert Quoted(ms[1].key)[0] == '\"' && !IsSpace('\"') && IsSpace('\n') by { SpacesAre(); }
      assert PartAt(a, b, 1);
    } else {
      assert ms[1..] == [];
      NoMembersText(tabs);
      assert b == u && IsSpace('\n') by { SpacesAre(); }
      assert PartAt(a, b, 0);
    }
  }

  lemma SpacesAre()
    ensures IsSpace('\n') && !IsSpace('\"') && IsSpace('\t') && !IsSpace('}')
  {
  }

  lemma NoMembersText(tabs: nat)
    ensures MembersText([], true, tabs) == "" && MembersText([], false, tabs) == ""
  {
  }

  lemma {:induction false} MinifiesMembers(ms: seq<Member<Json>>, tabs: nat, r: Str, u: Str)
    requires (forall m | m in ms :: Textual(m.value)) && MinifiableMembers(ms) && u != "" && !IsSpace(u[0])
    ensures Minified(MembersText(ms, true, tabs) + r) == MembersText(ms, false, tabs) + Minified(r)
    decreases ms, 2
  {
    hide MembersText, Text, Minified, Textual, Minifiable, EndsInBackslash, IsSpace, Follows, BehindValue, Quoted;
    if ms == [] {
      NoMembersText(tabs);
      assert "" + r == r && "" + Minified(r) == Minified(r);
    } else {
      NameMinified(ms, tabs, r);
      ValueParts(ms, tabs, r, u);
      MinifiesText(ms[0].value, tabs, BehindValue(ms, true, tabs, r), BehindValue(ms, false, tabs, u), false);
      TailMinified(ms, tabs, r);
      MinifiesMembers(ms[1..], tabs, r, u);
      FlatMembersParts(ms, tabs, Minified(r));
      FlatBehindValue(ms, tabs, Minified(r));
    }
  }

  lemma FlatBehindValue(ms: seq<Member<Json>>, tabs: nat, u: Str)
    requires ms != []
    ensures BehindValue(ms, false, tabs, u) == (if |ms| > 1 then "," else "") + (MembersText(ms[1..], false, tabs) + u)
  {
    hide MembersText;
  }

  lemma ObjectParts(ms: seq<Member<Json>>, format: bool, tabs: nat, r: Str)
    ensures Text(Object(ms), format, tabs) + r ==
            Opening(format) + (MembersText(ms, format, tabs + 1) + (Closing(format, tabs) + r))
  {
    hide MembersText, Opening, Closing;
    var open, body, close := Opening(format), MembersText(ms, format, tabs + 1), Closing(format, tabs);
    assert (open + body + close) + r == open + (body + (close + r));
  }

  lemma ClosingMinified(tabs: nat, r: Str)
    ensures Minified(Closing(true, tabs) + r) == "}" + Minified(r)
  {
    hide Minified;
    Assoc(Tabs(tabs), "}", r);
    SpaceDropped(Tabs(tabs), "}" + r);
    OrdinaryKept("}", r);
  }

  lemma OpeningMinified(rest: Str)
    ensures Minified(Opening(true) + rest) == "{" + Minified(rest)
  {
    hide Minified;
    assert "{\n" + rest == "{" + ("\n" + rest);
    OrdinaryKept("{", "\n" + rest);
    SpaceDropped("\n", rest);
  }

  lemma {:induction false} MinifiesObject(ms: seq<Member<Json>>, tabs: nat, r: Str, u: Str)
    requires (forall m | m in ms :: Textual(m.value)) && MinifiableMembers(ms)
    ensures Minified(Text(Object(ms), true, tabs) + r) == Text(Object(ms), false, tabs) + Minified(r)
    decreases ms, 3
  {
    hide MembersText, Text, Minified, Textual, MinifiableMembers, Opening, Closing;
    var rest := Closing(true, tabs) + r;
    ObjectParts(ms, true, tabs, r);
    OpeningMinified(MembersText(ms, true, tabs + 1) + rest);
    SpacesAre();
    MinifiesMembers(ms, tabs + 1, rest, "}");
    ClosingMinified(tabs, r);
    ObjectParts(ms, false, tabs, Minified(r));
    FlatEnds(tabs);
  }

  lemma FlatEnds(tabs: nat)
    ensures Opening(false) == "{" && Closing(false, tabs) == "}"
  {
  }

  // ----- Where it goes wrong -----

  lemma {:induction false} MisreadText(j: Json, tabs: nat, r: Str, u: Str, last: bool)
    requires Textual(j) && !Minifiable(j, last) && Follows(r, u, last)
    ensures Minified(Text(j, true, tabs) + r) != Text(j, false, tabs) + u
    decreases j, 1
  {
    hide Follows, Minified, Quoted;
    match j {
      case String(t) => MisreadLiteral(t, r, u, last);
      case Array(es) => MisreadArray(es, tabs, r, u, last);
      case Object(ms, _) => MisreadObject(ms, tabs, r, u);
    }
  }

  lemma {:induction false} MisreadArray(es: seq<Json>, tabs: nat, r: Str, u: Str, last: bool)
    requires (forall e | e in es :: Textual(e)) && !MinifiableElems(es, last) && Follows(r, u, last)
    ensures Minified(("[" + ElemsText(es, true, tabs + 1) + "]") + r)
            != ("[" + ElemsText(es, false, tabs + 1) + "]") + u
    decreases es, 3
  {
    hide ElemsText, Textual, Minified, MinifiableElems, Follows;
    var body, flat := ElemsText(es, true, tabs + 1), ElemsText(es, false, tabs + 1);
    assert ("[" + body + "]") + r == "[" + (body + ("]" + r));
    OrdinaryKept("[", body + ("]" + r));
    BehindBracket(r, u, last);
    MisreadElems(es, tabs + 1, "]" + r, "]" + u, last);
    assert ("[" + flat + "]") + u == "[" + (flat + ("]" + u));
    SameBehind("[", Minified(body + ("]" + r)), flat + ("]" + u));
  }

  lemma {:induction false} MisreadElems(es: seq<Json>, tabs: nat, r: Str, u: Str, last: bool)
    requires (forall e | e in es :: Textual(e)) && !MinifiableElems(es, last) && Follows(r, u, last)
    ensures Minified(ElemsText(es, true, tabs) + r) != ElemsText(es, false, tabs) + u
    decreases es, 2
  {
    hide Text, Textual, Minified, Minifiable, Follows, BehindElem, ElemsText;
    ElemsTextParts(es, true, tabs, r);
    ElemsTextParts(es, false, tabs, u);
    if |es| == 1 {
      assert MinifiableElems(es[1..], last);
      MisreadText(es[0], tabs, r, u, last);
    } else {
      var a, b := BehindElem(es[1..], true, tabs, r), BehindElem(es[1..], false, tabs, u);
      CommaParts(es[1..], tabs, r, u);
      PartingFollows(a, b);
      if Minifiable(es[0], false) {
        MinifiesText(es[0], tabs, a, b, false);
        MisreadElems(es[1..], tabs, r, u, last);
        FlatBehindElem(es[1..], tabs, u);
        SameBehind(",", Minified(ElemsText(es[1..], true, tabs) + r), ElemsText(es[1..], false, tabs) + u);
        SameBehind(Text(es[0], false, tabs), Minified(a), b);
      } else {
        MisreadText(es[0], tabs, a, b, false);
      }
    }
  }

  lemma {:induction false} MisreadObject(ms: seq<Member<Json>>, tabs: nat, r: Str, u: Str)
    requires (forall m | m in ms :: Textual(m.value)) && !MinifiableMembers(ms)
    ensures Minified(Text(Object(ms), true, tabs) + r) != Text(Object(ms), false, tabs) + u
    decreases ms, 3
  {
    hide MembersText, Text, Minified, Textual, MinifiableMembers, Opening, Closing, IsSpace;
    var rest, flat := Closing(true, tabs) + r, Closing(false, tabs) + u;
    ObjectParts(ms, true, tabs, r);
    OpeningMinified(MembersText(ms, true, tabs + 1) + rest);
    ObjectParts(ms, false, tabs, u);
    FlatEnds(tabs);
    SpacesAre();
    MisreadMembers(ms, tabs + 1, rest, flat);
    SameBehind("{", Minified(MembersText(ms, true, tabs + 1) + rest), MembersText(ms, false, tabs + 1) + flat);
  }

  /** Behind every name the two texts part, too. */
  lemma NameParts(ms: seq<Member<Json>>, tabs: nat, r: Str, u: Str)
    requires ms != [] && Textual(ms[0].value)
    ensures Follows(BehindName(ms, true, tabs, r), BehindName(ms, false, tabs, u), false)
  {
    hide BehindValue, Text, IsSpace, Textual;
    var a, b := BehindName(ms, true, tabs, r), BehindName(ms, false, tabs, u);
    TextBegins(ms[0].value, false, tabs);
    var text := Text(ms[0].value, false, tabs) + BehindValue(ms, false, tabs, u);
    assert b[1] == text[0] == Text(ms[0].value, false, tabs)[0] && a[1] == '\t';
    PrintingIsNoSpace(b[1]);
    SpacesAre();
    assert PartAt(a, b, 1);
  }

  lemma PrintingIsNoSpace(c: char)
    ensures c as int > 32 ==> !IsSpace(c)
  {
  }

  lemma {:induction false} MisreadMembers(ms: seq<Member<Json>>, tabs: nat, r: Str, u: Str)
    requires (forall m | m in ms :: Textual(m.value)) && !MinifiableMembers(ms) && u != "" && !IsSpace(u[0])
    ensures Minified(MembersText(ms, true, tabs) + r) != MembersText(ms, false, tabs) + u
    decreases ms, 2
  {
    hide MembersText, Text, Minified, Textual, Minifiable, EndsInBackslash, IsSpace, Follows, BehindValue, BehindName;
    hide Quoted;
    FlatMembersParts(ms, tabs, u);
    if EndsInBackslash(ms[0].key) {
      MembersParts(ms, true, tabs, r);
      AllSpaces(tabs);
      SpaceDropped(Tabs(tabs), Quoted(ms[0].key) + BehindName(ms, true, tabs, r));
      NameParts(ms, tabs, r, u);
      MisreadLiteral(ms[0].key, BehindName(ms, true, tabs, r), BehindName(ms, false, tabs, u), false);
    } else {
      NameMinified(ms, tabs, r);
      MisreadValues(ms, tabs, r, u);
      var m := Minified(Text(ms[0].value, true, tabs) + BehindValue(ms, true, tabs, r));
      var flat := Text(ms[0].value, false, tabs) + BehindValue(ms, false, tabs, u);
      FlatBehindName(ms, tabs, u);
      SameBehind(":", m, flat);
      SameBehind(Quoted(ms[0].key), ":" + m, ":" + flat);
    }
  }

  lemma AllSpaces(tabs: nat)
    ensures forall c | c in Tabs(tabs) :: IsSpace(c)
  {
  }

  lemma FlatBehindName(ms: seq<Member<Json>>, tabs: nat, u: Str)
    requires ms != []
    ensures BehindName(ms, false, tabs, u) == ":" + (Text(ms[0].value, false, tabs) + BehindValue(ms, false, tabs, u))
  {
    hide Text, BehindValue;
  }

  lemma {:induction false} MisreadValues(ms: seq<Member<Json>>, tabs: nat, r: Str, u: Str)
    requires ms != [] && (forall m | m in ms :: Textual(m.value)) && u != "" && !IsSpace(u[0])
    requires !(Minifiable(ms[0].value, false) && MinifiableMembers(ms[1..]))
    ensures Minified(Text(ms[0].value, true, tabs) + BehindValue(ms, true, tabs, r))
            != Text(ms[0].value, false, tabs) + BehindValue(ms, false, tabs, u)
    decreases ms, 1
  {
    hide MembersText, Text, Minified, Textual, Minifiable, IsSpace, Follows, BehindValue, MinifiableMembers;
    var a, b := BehindValue(ms, true, tabs, r), BehindValue(ms, false, tabs, u);
    ValueParts(ms, tabs, r, u);
    if Minifiable(ms[0].value, false) {
      MinifiesText(ms[0].value, tabs, a, b, false);
      TailMinified(ms, tabs, r);
      FlatBehindValue(ms, tabs, u);
      MisreadMembers(ms[1..], tabs, r, u);
      var comma := if |ms| > 1 then "," else "";
      SameBehind(comma, Minified(MembersText(ms[1..], true, tabs) + r), MembersText(ms[1..], false, tabs) + u);
      SameBehind(Text(ms[0].value, false, tabs), Minified(a), b);
    } else {
      MisreadText(ms[0].value, tabs, a, b, false);
    }
  }

  /** Minifying the formatted print of a tree gives its unformatted print exactly when no key and no string
      of it ends in a backslash, other than a string behind which there are only closing brackets. */
  lemma FormattedMinifiesToUnformatted(j: Json)
    requires Textual(j)
    ensures Minified(Text(j, true, 0)) == Text(j, false, 0) <==> Minifiable(j, true)
  {
    hide Text, Minified, Minifiable, Textual;
    assert Text(j, true, 0) + "" == Text(j, true, 0) && Text(j, false, 0) + "" == Text(j, false, 0);
    NothingLeft();
    if Minifiable(j, true) {
      MinifiesText(j, 0, "", "", true);
    } else {
      MisreadText(j, 0, "", "", true);
    }
  }
}
