/** Parsing what was printed gives back the same tree, formatted or not. */
module TextRoundTrip {
  import opened CStrings
  import opened JsonTrees
  import opened SiblingLinks
  import opened Texts
  import opened StringLiterals
  import opened Grammar

  // ----- Texts inside a window -----

  lemma ReadsParts(s: Str, o: nat, a: Str, b: Str)
    requires o <= |s| && Reads(s, o, a + b)
    ensures o + |a| <= |s| && Reads(s, o, a) && Reads(s, o + |a|, b)
  {
    DropPrefix(a, b);
    var t := s[o..o + |a + b|];
    assert s[o..o + |a|] == t[..|a|] && s[o + |a|..o + |a| + |b|] == t[|a|..];
  }

  lemma ReadsChar(s: Str, o: nat, t: Str, i: nat)
    requires o <= |s| && Reads(s, o, t) && i < |t|
    ensures s[o + i] == t[i]
  {
    assert s[o..o + |t|][i] == s[o + i];
  }

  ghost predicate Blank(s: Str, a: nat, b: nat) {
    a <= b <= |s| && forall i | a <= i < b :: s[i] as int <= 32
  }

  lemma {:induction false} SkipBlank(s: Str, a: nat, b: nat)
    requires Blank(s, a, b) && b < |s| && s[b] as int > 32
    ensures WsEnd(s, a) == b && SkipWs(s, a) == b
    decreases b - a
  {
    if a < b { SkipBlank(s, a + 1, b); }
  }

  // ----- Strings -----

  lemma HexOfDigit(d: nat)
    requires d < 16
    ensures HexValue(HexDigit(d)) == d
  {
  }

  /** The escape of one character is one piece of the literal. */
  lemma NextOfEscape(s: Str, p: nat, c: char, end: nat)
    requires p + |EscapeChar(c)| <= end < |s| && Reads(s, p, EscapeChar(c))
    ensures Next(s, p, end) == Piece([c], |EscapeChar(c)|)
  {
    var e := EscapeChar(c);
    ReadsChar(s, p, e, 0);
    if |e| > 1 { ReadsChar(s, p, e, 1); }
    if |e| == 6 { NextOfControl(s, p, c, end); }
  }

  lemma ControlIsItself(c: char)
    requires c as int < 32
    ensures Utf8(c as int) == [c]
  {
  }

  lemma NextOfControl(s: Str, p: nat, c: char, end: nat)
    requires |EscapeChar(c)| == 6 && p + 6 <= end < |s| && Reads(s, p, EscapeChar(c))
    ensures c as int < 32 && Next(s, p, end) == Piece([c], 6)
  {
    var e := EscapeChar(c);
    ReadsChar(s, p, e, 0);
    ReadsChar(s, p, e, 1);
    ReadsChar(s, p, e, 2);
    ReadsChar(s, p, e, 3);
    ReadsChar(s, p, e, 4);
    ReadsChar(s, p, e, 5);
    hide Utf8, Reads, Hex4;
    ControlIsItself(c);
    HexOfControl(s, p + 2, c);
  }

  lemma HexOfControl(s: Str, i: nat, c: char)
    requires |EscapeChar(c)| == 6 && i + 4 <= |s|
    requires s[i] == EscapeChar(c)[2] && s[i + 1] == EscapeChar(c)[3]
    requires s[i + 2] == EscapeChar(c)[4] && s[i + 3] == EscapeChar(c)[5]
    ensures Hex4(s, i) == c as int
  {
    HexOfDigit(c as int / 16);
    HexOfDigit(c as int % 16);
  }

  lemma EscapeSplit(s: Str, o: nat, t: Str)
    requires t != "" && o <= |s| && Reads(s, o, Escape(t))
    ensures var n := |EscapeChar(t[0])|;
            |Escape(t)| == n + |Escape(t[1..])| && o + n <= |s|
            && Reads(s, o, EscapeChar(t[0])) && Reads(s, o + n, Escape(t[1..]))
  {
    hide EscapeChar, Reads;
    ReadsParts(s, o, EscapeChar(t[0]), Escape(t[1..]));
  }

  lemma DecodeOne(s: Str, p: nat, c: char, rest: Str, end: nat)
    requires p + |EscapeChar(c)| <= end < |s| && Reads(s, p, EscapeChar(c))
    requires Decode(s, p + |EscapeChar(c)|, end) == Accepted(rest)
    ensures Decode(s, p, end) == Accepted([c] + rest)
  {
    hide EscapeChar, Next, Reads;
    NextOfEscape(s, p, c, end);
  }

  lemma NothingEscaped()
    ensures Escape("") == ""
  {
  }

  lemma NothingDecoded(s: Str, end: nat)
    requires end < |s|
    ensures Decode(s, end, end) == Accepted("")
  {
  }

  lemma {:induction false} EscapeDecodes(s: Str, p: nat, t: Str, end: nat)
    requires end < |s| && p + |Escape(t)| == end && Reads(s, p, Escape(t))
    ensures Decode(s, p, end) == Accepted(t)
    decreases t
  {
    hide EscapeChar, Escape, Reads, Decode;
    if t == "" {
      NothingEscaped();
      NothingDecoded(s, end);
    } else {
      EscapeSplit(s, p, t);
      EscapeDecodes(s, p + |EscapeChar(t[0])|, t[1..], end);
      DecodeOne(s, p, t[0], t[1..], end);
      assert [t[0]] + t[1..] == t;
    }
  }

  /** The first pass steps over the escape of one character. */
  lemma EndBehindEscape(s: Str, i: nat, c: char)
    requires i <= |s| && Reads(s, i, EscapeChar(c))
    ensures LiteralEnd(s, i) == LiteralEnd(s, i + |EscapeChar(c)|)
  {
    var e := EscapeChar(c);
    ReadsChar(s, i, e, 0);
    if |e| > 1 { ReadsChar(s, i, e, 1); }
    if |e| == 6 {
      ReadsChar(s, i, e, 2);
      ReadsChar(s, i, e, 3);
      ReadsChar(s, i, e, 4);
      ReadsChar(s, i, e, 5);
      EndBehindFour(s, i + 2);
    }
  }

  lemma EndBehindFour(s: Str, i: nat)
    requires i + 4 <= |s| && forall k | i <= k < i + 4 :: s[k] != '\"' && s[k] != '\\'
    ensures LiteralEnd(s, i) == LiteralEnd(s, i + 4)
  {
    assert LiteralEnd(s, i) == LiteralEnd(s, i + 1);
    assert LiteralEnd(s, i + 1) == LiteralEnd(s, i + 2);
    assert LiteralEnd(s, i + 2) == LiteralEnd(s, i + 3);
  }

  lemma {:induction false} EndBehindText(s: Str, i: nat, t: Str)
    requires i <= |s| && Reads(s, i, Escape(t))
    ensures i + |Escape(t)| <= |s| && LiteralEnd(s, i) == LiteralEnd(s, i + |Escape(t)|)
    decreases t
  {
    hide EscapeChar, LiteralEnd, Escape, Reads;
    if t == "" {
      NothingEscaped();
    } else {
      EscapeSplit(s, i, t);
      EndBehindEscape(s, i, t[0]);
      EndBehindText(s, i + |EscapeChar(t[0])|, t[1..]);
    }
  }

  lemma {:induction false} CStringWhole(t: Str)
    requires '\0' !in t
    ensures CString(t) == t
  {
    if t != "" { CStringWhole(t[1..]); }
  }

  /** A printed string is read back. */
  lemma QuotedReads(s: Str, o: nat, t: Str)
    requires Window(s) && o < |s| && Reads(s, o, Quoted(t)) && '\0' !in t
    ensures ParseString(s, o) == Parsed(t, o + |Quoted(t)|)
  {
    hide Escape, Decode, CString, LiteralEnd;
    assert Quoted(t) == "\"" + (Escape(t) + "\"");
    ReadsParts(s, o, "\"", Escape(t) + "\"");
    ReadsParts(s, o + 1, Escape(t), "\"");
    ReadsChar(s, o, "\"", 0);
    var end := o + 1 + |Escape(t)|;
    ReadsChar(s, end, "\"", 0);
    EndBehindText(s, o + 1, t);
    EndHere(s, end);
    EscapeDecodes(s, o + 1, t, end);
    CStringWhole(t);
  }

  lemma EndHere(s: Str, end: nat)
    requires end < |s| && s[end] == '\"'
    ensures LiteralEnd(s, end) == Some(end)
  {
  }

  // ----- Numbers -----

  function PowerOfTen(k: nat): nat {
    if k == 0 then 1 else 10 * PowerOfTen(k - 1)
  }

  lemma {:induction false} DecShort(n: nat, k: nat)
    requires 0 < k && n < PowerOfTen(k)
    ensures |Dec(n)| <= k
  {
    if n >= 10 {
      assert k > 1 by { assert PowerOfTen(1) == 10 * PowerOfTen(0); }
      DecShort(n / 10, k - 1);
    }
  }

  lemma IntTextShort(n: int)
    requires INT_MIN <= n <= INT_MAX
    ensures |IntText(n)| <= 11
  {
    var m := if n < 0 then -n else n;
    assert PowerOfTen(5) == 100000;
    assert PowerOfTen(10) == 10000000000 by {
      assert PowerOfTen(10) == 10 * (10 * (10 * (10 * (10 * PowerOfTen(5)))));
    }
    DecShort(m, 10);
  }

  lemma {:induction false} DecValue(n: nat)
    ensures DigitsValue(Dec(n)) == n
  {
    if n >= 10 {
      var t := Dec(n);
      assert t[..|t| - 1] == Dec(n / 10) && t[|t| - 1] == Digit(n % 10);
      DecValue(n / 10);
    } else {
      assert Dec(n)[..0] == "";
    }
  }

  lemma {:induction false} AllDigits(t: Str, i: nat)
    requires i <= |t| && forall k | i <= k < |t| :: IsDigit(t[k])
    ensures DigitsEnd(t, i) == |t|
    decreases |t| - i
  {
    if i < |t| { AllDigits(t, i + 1); }
  }

  /** strtod reads a decimal integer whole. */
  lemma StrtodInt(n: int)
    ensures Strtod(IntText(n)) == Parsed(n as real, |IntText(n)|)
  {
    hide Dec, Strtod, DigitsValue;
    var m: nat := if n < 0 then -n else n;
    assert Dec(m)[0] in Dec(m);
    assert n < 0 ==> IntText(n)[1..] == Dec(m);
    assert n >= 0 ==> IntText(n)[0..] == Dec(m);
    DecValue(m);
    StrtodDigits(IntText(n), if n < 0 then 1 else 0);
  }

  lemma StrtodDigits(t: Str, i: nat)
    requires i < |t| && i == if t[0] == '-' then 1 else 0
    requires forall c | c in t[i..] :: IsDigit(c)
    ensures Strtod(t) == Parsed(if i == 1 then -(DigitsValue(t[i..]) as real) else DigitsValue(t[i..]) as real, |t|)
  {
    hide DigitsValue;
    forall k | i <= k < |t| ensures IsDigit(t[k]) {
      assert t[i..][k - i] in t[i..];
    }
    AllDigits(t, i);
    assert t[i..|t|] + "" == t[i..];
    assert Scaled(DigitsValue(t[i..]) as real, 0) == DigitsValue(t[i..]) as real;
    assert ReadExponent(t, |t|) == Exponent(0, |t|);
  }

  lemma {:induction false} NumberReads(s: Str, o: nat, t: Str, room: nat)
    requires o <= |s| && Reads(s, o, t) && |t| <= room && forall i | 0 <= i < |t| :: IsNumberChar(t[i])
    requires o + |t| < |s| && !IsNumberChar(s[o + |t|])
    ensures NumberText(s, o, room) == t
    decreases t
  {
    if t != "" {
      ReadsChar(s, o, t, 0);
      assert t == [t[0]] + t[1..];
      ReadsParts(s, o, [t[0]], t[1..]);
      NumberReads(s, o + 1, t[1..], room - 1);
    }
  }

  /** A printed integer is read back. */
  lemma IntReads(s: Str, o: nat, n: int)
    requires INT_MIN <= n <= INT_MAX && Window(s) && o < |s| && Reads(s, o, IntText(n))
    requires o + |IntText(n)| < |s| && !IsNumberChar(s[o + |IntText(n)|])
    ensures s[o] == '-' || IsDigit(s[o])
    ensures ParseNumber(s, o) == Parsed(Number(n as real), o + |IntText(n)|)
  {
    hide Strtod;
    var t := IntText(n);
    ReadsChar(s, o, t, 0);
    IntTextShort(n);
    forall i | 0 <= i < |t| ensures IsNumberChar(t[i]) { assert t[i] in t; }
    assert t[0] in t;
    NumberReads(s, o, t, NUMBER_BUFFER - 1);
    StrtodInt(n);
  }

  // ----- Trees -----

  /** Trees that JSON text can carry: no Raw or Invalid items, 32-bit integers, C strings. */
  predicate Textual(j: Json)
    decreases j
  {
    match j
    case Invalid => false
    case Raw(_) => false
    case Number(d) => IsInt32(d)
    case String(t) => '\0' !in t
    case Array(es) => forall e | e in es :: Textual(e)
    case Object(ms, _) => forall m | m in ms :: '\0' !in m.key && Textual(m.value)
    case _ => true
  }

  /** How many containers are nested in a tree. */
  function Nesting(j: Json): nat
    decreases j, 0
  {
    match j
    case Array(es) => 1 + ElemsNesting(es)
    case Object(ms, _) => 1 + MembersNesting(ms)
    case _ => 0
  }

  function Max(a: nat, b: nat): nat {
    if a < b then b else a
  }

  function ElemsNesting(es: seq<Json>): nat
    decreases es
  {
    if es == [] then 0 else Max(Nesting(es[0]), ElemsNesting(es[1..]))
  }

  function MembersNesting(ms: seq<Member<Json>>): nat
    decreases ms
  {
    if ms == [] then 0 else Max(Nesting(ms[0].value), MembersNesting(ms[1..]))
  }

  /** The text of a tree in a window, and something behind it that does not continue it if it is a number. */
  ghost predicate Spells(s: Str, o: nat, t: Str, number: bool) {
    Window(s) && o + |t| < |s| && Reads(s, o, t) && (number ==> !IsNumberChar(s[o + |t|]))
  }

  /** Every text begins with a printing ASCII character, and not with a closing bracket. */
  lemma TextBegins(j: Json, format: bool, depth: nat)
    requires Textual(j)
    ensures var t := Text(j, format, depth);
            t != "" && 32 < t[0] as int < 128 && t[0] != ']'
  {
    if j.Number? {
      var t := IntText(j.num.Floor);
      assert t[0] in t;
    }
  }

  /** What is read back is a new tree with all its links, wherever the text is in a window. */
  lemma {:induction false} TextReads(j: Json, format: bool, tabs: nat, s: Str, o: nat, d: nat)
    requires Textual(j) && d + Nesting(j) <= CJSON_NESTING_LIMIT && Spells(s, o, Text(j, format, tabs), j.Number?)
    ensures ParseValue(s, o, d) == Parsed(Relinked(j), o + |Text(j, format, tabs)|)
    decreases j, 1
  {
    hide ParseValue, Spells;
    match j {
      case Array(es) => ArrayReads(es, format, tabs, s, o, d);
      case Object(ms, link) =>
        LinkIsNotPrinted(ms, link, format, tabs);
        ObjectReads(ms, format, tabs, s, o, d);
      case _ => LeafReads(j, format, tabs, s, o, d);
    }
  }

  lemma LinkIsNotPrinted(ms: seq<Member<Json>>, link: Link, format: bool, tabs: nat)
    ensures Text(Object(ms, link), format, tabs) == Text(Object(ms), format, tabs)
    ensures Textual(Object(ms, link)) == Textual(Object(ms)) && Nesting(Object(ms, link)) == Nesting(Object(ms))
    ensures Relinked(Object(ms, link)) == Object(RelinkedMembers(ms))
  {
  }

  /** A value is parsed by its first character. */
  lemma Dispatch(s: Str, o: nat, d: nat)
    requires Window(s) && o < |s| && d <= CJSON_NESTING_LIMIT
    ensures s[o] == '\"' ==>
              var p := ParseString(s, o);
              ParseValue(s, o, d) == if p.Failed? then Failed(p.at) else Parsed(String(p.value), p.next)
    ensures s[o] == '-' || IsDigit(s[o]) ==> ParseValue(s, o, d) == ParseNumber(s, o)
    ensures s[o] == '[' ==> ParseValue(s, o, d) == ParseArray(s, o, d)
    ensures s[o] == '{' ==> ParseValue(s, o, d) == ParseObject(s, o, d)
    ensures Reads(s, o, "null") ==> ParseValue(s, o, d) == Parsed(Null, o + 4)
    ensures Reads(s, o, "false") ==> ParseValue(s, o, d) == Parsed(False, o + 5)
    ensures Reads(s, o, "true") ==> ParseValue(s, o, d) == Parsed(True, o + 4)
  {
    hide ParseString, ParseNumber, ParseArray, ParseObject;
    if Reads(s, o, "null") { ReadsChar(s, o, "null", 0); }
    if Reads(s, o, "false") { ReadsChar(s, o, "false", 0); }
    if Reads(s, o, "true") { ReadsChar(s, o, "true", 0); }
  }

  lemma LeafReads(j: Json, format: bool, tabs: nat, s: Str, o: nat, d: nat)
    requires Textual(j) && !j.Array? && !j.Object? && d <= CJSON_NESTING_LIMIT
             && Spells(s, o, Text(j, format, tabs), j.Number?)
    ensures ParseValue(s, o, d) == Parsed(j, o + |Text(j, format, tabs)|)
  {
    hide ParseString, ParseNumber, ParseValue, Reads;
    Dispatch(s, o, d);
    match j {
      case String(t) =>
        ReadsChar(s, o, Quoted(t), 0);
        QuotedReads(s, o, t);
      case Number(r) =>
        IntReads(s, o, r.Floor);
      case _ =>
    }
  }

  lemma BlankJoin(s: Str, a: nat, b: nat, c: nat)
    requires Blank(s, a, b) && Blank(s, b, c)
    ensures Blank(s, a, c)
  {
  }

  lemma ReadsBlank(s: Str, o: nat, t: Str)
    requires o <= |s| && Reads(s, o, t) && forall i | 0 <= i < |t| :: t[i] as int <= 32
    ensures Blank(s, o, o + |t|)
  {
    forall i | o <= i < o + |t| ensures s[i] as int <= 32 { ReadsChar(s, o, t, i - o); }
  }

  /** A value with white space on both sides. */
  lemma {:induction false} ElemReads(j: Json, format: bool, tabs: nat, s: Str, o: nat, q: nat, e: nat, d: nat)
    requires Textual(j) && d + Nesting(j) <= CJSON_NESTING_LIMIT && Spells(s, q, Text(j, format, tabs), j.Number?)
    requires Blank(s, o + 1, q) && Blank(s, q + |Text(j, format, tabs)|, e) && e < |s| && s[e] as int > 32
    ensures ParseElem(s, o, d) == Parsed(Relinked(j), e)
    decreases j, 2
  {
    hide Text, ParseValue, Blank, SkipWs, Nesting, Textual, Relinked;
    TextBegins(j, format, tabs);
    ReadsChar(s, q, Text(j, format, tabs), 0);
    SkipBlank(s, o + 1, q);
    TextReads(j, format, tabs, s, q, d);
    SkipBlank(s, q + |Text(j, format, tabs)|, e);
  }

  lemma {:induction false} ArrayReads(es: seq<Json>, format: bool, tabs: nat, s: Str, o: nat, d: nat)
    requires Textual(Array(es)) && d + Nesting(Array(es)) <= CJSON_NESTING_LIMIT
    requires Spells(s, o, Text(Array(es), format, tabs), false)
    ensures ParseValue(s, o, d) == Parsed(Array(RelinkedElems(es)), o + |Text(Array(es), format, tabs)|)
    decreases es, 4
  {
    hide ParseValue, ParseElems, ElemsText, Reads, ElemsNesting, SkipWs, Blank;
    var body := ElemsText(es, format, tabs + 1);
    Assoc("[", body, "]");
    ReadsParts(s, o, "[", body + "]");
    ReadsChar(s, o, "[", 0);
    Dispatch(s, o, d);
    ArrayBegins(es, format, tabs + 1, s, o + 1);
    if es == [] {
      assert body == "";
    } else {
      ElemsRead(es, format, tabs + 1, s, o, o + 1, d + 1);
    }
  }

  /** Behind the bracket there is no white space, and no closing bracket unless the array is empty. */
  lemma ArrayBegins(es: seq<Json>, format: bool, tabs: nat, s: Str, q: nat)
    requires q < |s| && (forall e | e in es :: Textual(e)) && Reads(s, q, ElemsText(es, format, tabs) + "]")
    ensures Blank(s, q, q) && SkipWs(s, q) == q && (s[q] == ']' <==> es == [])
    ensures es == [] ==> ElemsText(es, format, tabs) == ""
  {
    hide Text, Reads, Textual, SkipWs;
    var t := ElemsText(es, format, tabs) + "]";
    ReadsChar(s, q, t, 0);
    if es != [] {
      TextBegins(es[0], format, tabs);
      assert t[0] == Text(es[0], format, tabs)[0];
    }
    SkipBlank(s, q, q);
  }

  lemma {:induction false} ElemsRead(es: seq<Json>, format: bool, tabs: nat, s: Str, o: nat, q: nat, d: nat)
    requires es != [] && (forall e | e in es :: Textual(e)) && d + ElemsNesting(es) <= CJSON_NESTING_LIMIT
    requires Window(s) && Blank(s, o + 1, q) && Reads(s, q, ElemsText(es, format, tabs) + "]")
    requires q + |ElemsText(es, format, tabs)| + 1 < |s|
    ensures ParseElems(s, o, d) == Parsed(RelinkedElems(es), q + |ElemsText(es, format, tabs)| + 1)
    decreases es, 3
  {
    hide Text, ParseElem, Reads, Blank, Nesting, Textual, ElemsText, Comma, Relinked;
    ElemsSplit(es, format, tabs, s, q);
    var n := q + |Text(es[0], format, tabs)|;
    var next := n + |Comma(|es| > 1, format)|;
    if |es| == 1 {
      LastElem(es, format, tabs, s, n);
    } else {
      NextElem(format, s, n);
    }
    ElemReads(es[0], format, tabs, s, o, q, n, d);
    if |es| > 1 {
      ElemsRead(es[1..], format, tabs, s, n, next, d);
    } else {
      assert RelinkedElems(es) == [Relinked(es[0])];
    }
  }

  lemma ElemsSplit(es: seq<Json>, format: bool, tabs: nat, s: Str, q: nat)
    requires es != [] && q <= |s| && Reads(s, q, ElemsText(es, format, tabs) + "]")
    ensures var text, comma, rest := Text(es[0], format, tabs), Comma(|es| > 1, format),
            ElemsText(es[1..], format, tabs);
            |ElemsText(es, format, tabs)| == |text| + |comma| + |rest| && q + |text| + |comma| <= |s|
            && Reads(s, q, text) && Reads(s, q + |text|, comma) && Reads(s, q + |text| + |comma|, rest + "]")
  {
    hide Text, Reads, Comma;
    var text, comma, rest := Text(es[0], format, tabs), Comma(|es| > 1, format), ElemsText(es[1..], format, tabs);
    Assoc(text, comma + rest, "]");
    Assoc(text, comma, rest);
    Assoc(comma, rest, "]");
    ReadsParts(s, q, text, comma + (rest + "]"));
    ReadsParts(s, q + |text|, comma, rest + "]");
  }

  lemma LastElem(es: seq<Json>, format: bool, tabs: nat, s: Str, n: nat)
    requires |es| == 1 && n <= |s| && Reads(s, n + |Comma(false, format)|, ElemsText(es[1..], format, tabs) + "]")
    ensures |Comma(false, format)| == 0 && n < |s| && s[n] == ']' && Blank(s, n, n)
            && ElemsText(es[1..], format, tabs) == "" && [es[0]] == es
  {
    assert es[1..] == [];
    ReadsChar(s, n, ElemsText(es[1..], format, tabs) + "]", 0);
  }

  lemma NextElem(format: bool, s: Str, n: nat)
    requires n <= |s| && Reads(s, n, Comma(true, format))
    ensures n < n + |Comma(true, format)| <= |s| && s[n] == ','
    ensures Blank(s, n, n) && Blank(s, n + 1, n + |Comma(true, format)|)
  {
    var comma := Comma(true, format);
    ReadsChar(s, n, comma, 0);
    if format { ReadsChar(s, n, comma, 1); }
  }

  function Indent(format: bool, tabs: nat): nat {
    if format then tabs else 0
  }

  function Colon(format: bool): Str {
    if format then ":\t" else ":"
  }

  lemma {:induction false} ObjectReads(ms: seq<Member<Json>>, format: bool, tabs: nat, s: Str, o: nat, d: nat)
    requires Textual(Object(ms)) && d + Nesting(Object(ms)) <= CJSON_NESTING_LIMIT
    requires Spells(s, o, Text(Object(ms), format, tabs), false)
    ensures ParseValue(s, o, d) == Parsed(Object(RelinkedMembers(ms)), o + |Text(Object(ms), format, tabs)|)
    decreases ms, 4
  {
    hide ParseValue, ParseMembers, MembersText, Reads, MembersNesting, SkipWs, Blank, Opening, Closing;
    ObjectSplit(ms, format, tabs, s, o);
    Dispatch(s, o, d);
    var q := o + |Opening(format)|;
    var e := q + |MembersText(ms, format, tabs + 1)| + |Closing(format, tabs)| - 1;
    if ms == [] {
      NoMember(format, tabs + 1, s, o, q, e);
    } else {
      FirstMember(ms, format, tabs + 1, s, o, q);
      MembersRead(ms, format, tabs + 1, s, q + Indent(format, tabs + 1) - 1, q, e, d + 1);
    }
  }

  lemma ObjectSplit(ms: seq<Member<Json>>, format: bool, tabs: nat, s: Str, o: nat)
    requires o <= |s| && Reads(s, o, Text(Object(ms), format, tabs))
    ensures var open, body, close := Opening(format), MembersText(ms, format, tabs + 1), Closing(format, tabs);
            var q := o + |open|;
            |Text(Object(ms), format, tabs)| == |open| + |body| + |close|
            && open != "" && close != "" && q + |body| + |close| <= |s| && Reads(s, q, body)
            && s[o] == '{' && Blank(s, o + 1, q)
            && Blank(s, q + |body|, q + |body| + |close| - 1) && s[q + |body| + |close| - 1] == '}'
  {
    hide MembersText, Reads, Blank, Opening, Closing;
    var open, body, close := Opening(format), MembersText(ms, format, tabs + 1), Closing(format, tabs);
    Assoc(open, body, close);
    ReadsParts(s, o, open, body + close);
    ReadsParts(s, o + |open|, body, close);
    OpeningReads(format, s, o);
    ClosingReads(format, tabs, s, o + |open| + |body|);
  }

  lemma OpeningReads(format: bool, s: Str, o: nat)
    requires o <= |s| && Reads(s, o, Opening(format))
    ensures o < o + |Opening(format)| <= |s| && s[o] == '{' && Blank(s, o + 1, o + |Opening(format)|)
  {
    var open := Opening(format);
    ReadsChar(s, o, open, 0);
    if format { ReadsChar(s, o, open, 1); }
  }

  lemma ClosingReads(format: bool, tabs: nat, s: Str, end: nat)
    requires end <= |s| && Reads(s, end, Closing(format, tabs))
    ensures var e := end + |Closing(format, tabs)| - 1;
            end <= e < |s| && s[e] == '}' && Blank(s, end, e)
  {
    hide Blank, Reads;
    var indent := if format then Tabs(tabs) else "";
    ReadsParts(s, end, indent, "}");
    ReadsBlank(s, end, indent);
    ReadsChar(s, end + |indent|, "}", 0);
  }

  /** Behind the brace of an empty object there is only white space before the closing brace. */
  lemma NoMember(format: bool, tabs: nat, s: Str, o: nat, q: nat, e: nat)
    requires Blank(s, o + 1, q) && Blank(s, q + |MembersText([], format, tabs)|, e) && e < |s| && s[e] == '}'
    ensures SkipWs(s, o + 1) == e && MembersText([], format, tabs) == ""
  {
    hide Blank, SkipWs;
    BlankJoin(s, o + 1, q, e);
    SkipBlank(s, o + 1, e);
  }

  /** Behind the brace of another object the first thing is the quote of a name. */
  lemma FirstMember(ms: seq<Member<Json>>, format: bool, tabs: nat, s: Str, o: nat, q: nat)
    requires ms != [] && q <= |s| && Blank(s, o + 1, q) && Reads(s, q, MembersText(ms, format, tabs))
    ensures var h := q + Indent(format, tabs);
            SkipWs(s, o + 1) == h < |s| && s[h] == '\"' && Blank(s, h, h)
  {
    hide Blank, SkipWs, MembersText, Reads;
    MembersSplit(ms, format, tabs, s, q);
    var h := q + Indent(format, tabs);
    BlankJoin(s, o + 1, q, h);
    SkipBlank(s, o + 1, h);
    NoBlank(s, h);
  }

  lemma NoBlank(s: Str, a: nat)
    requires a <= |s|
    ensures Blank(s, a, a)
  {
  }

  /** Where the parts of the first member are. */
  lemma MembersSplit(ms: seq<Member<Json>>, format: bool, tabs: nat, s: Str, q: nat)
    requires ms != [] && q <= |s| && Reads(s, q, MembersText(ms, format, tabs))
    ensures var key, text := Quoted(ms[0].key), Text(ms[0].value, format, tabs);
            var tail, rest := MemberTail(|ms| > 1, format), MembersText(ms[1..], format, tabs);
            var h := q + Indent(format, tabs);
            var c := h + |key|;
            var v := c + |Colon(format)|;
            var n := v + |text|;
            n + |tail| + |rest| == q + |MembersText(ms, format, tabs)| <= |s|
            && Blank(s, q, h) && h < |s| && s[h] == '\"' && Reads(s, h, key) && Reads(s, c, Colon(format))
            && Reads(s, v, text) && Reads(s, n, tail) && Reads(s, n + |tail|, rest)
  {
    hide Text, Reads, MemberTail, Quoted, MembersText, Colon, Blank;
    var key, text := Quoted(ms[0].key), Text(ms[0].value, format, tabs);
    var tail, rest := MemberTail(|ms| > 1, format), MembersText(ms[1..], format, tabs);
    MembersTextParts(ms, format, tabs);
    var indent := if format then Tabs(tabs) else "";
    var h := q + |indent|;
    var v := h + |key| + |Colon(format)|;
    ReadsFour(s, q, indent, key, Colon(format), text + (tail + rest));
    ReadsBlank(s, q, indent);
    QuoteAt(s, h, ms[0].key);
    ReadsParts(s, v, text, tail + rest);
    ReadsParts(s, v + |text|, tail, rest);
  }

  lemma ReadsFour(s: Str, o: nat, a: Str, b: Str, c: Str, d: Str)
    requires o <= |s| && Reads(s, o, a + (b + (c + d)))
    ensures o + |a| + |b| + |c| + |d| <= |s|
    ensures Reads(s, o, a) && Reads(s, o + |a|, b) && Reads(s, o + |a| + |b|, c) && Reads(s, o + |a| + |b| + |c|, d)
  {
    hide Reads;
    ReadsParts(s, o, a, b + (c + d));
    ReadsParts(s, o + |a|, b, c + d);
    ReadsParts(s, o + |a| + |b|, c, d);
    ReadsIn(s, o + |a| + |b| + |c|, d);
  }

  lemma ReadsIn(s: Str, o: nat, t: Str)
    requires o <= |s| && Reads(s, o, t)
    ensures o + |t| <= |s|
  {
  }

  lemma MembersTextParts(ms: seq<Member<Json>>, format: bool, tabs: nat)
    requires ms != []
    ensures MembersText(ms, format, tabs) ==
            (if format then Tabs(tabs) else "")
            + (Quoted(ms[0].key)
               + (Colon(format)
                  + (Text(ms[0].value, format, tabs)
                     + (MemberTail(|ms| > 1, format) + MembersText(ms[1..], format, tabs)))))
  {
    hide Text, MemberTail, Quoted;
  }

  lemma QuoteAt(s: Str, h: nat, key: Str)
    requires h <= |s| && Reads(s, h, Quoted(key))
    ensures h < |s| && s[h] == '\"'
  {
    ReadsChar(s, h, Quoted(key), 0);
  }

  lemma NameReads(key: Str, format: bool, s: Str, o: nat, h: nat)
    requires Window(s) && '\0' !in key && Blank(s, o + 1, h) && h + |Quoted(key)| < |s|
    requires Reads(s, h, Quoted(key)) && Reads(s, h + |Quoted(key)|, Colon(format))
    ensures var c := h + |Quoted(key)|;
            ParseName(s, o) == Parsed(key, c) && Blank(s, c + 1, c + |Colon(format)|)
  {
    hide Quoted, ParseString, SkipWs;
    var c := h + |Quoted(key)|;
    QuoteAt(s, h, key);
    SkipBlank(s, o + 1, h);
    QuotedReads(s, h, key);
    ReadsChar(s, c, Colon(format), 0);
    if format { ReadsChar(s, c, Colon(format), 1); }
    SkipBlank(s, c, c);
  }

  lemma {:induction false} MembersRead(ms: seq<Member<Json>>, format: bool, tabs: nat, s: Str, o: nat, q: nat, e: nat,
                                       d: nat)
    requires ms != [] && (forall m | m in ms :: '\0' !in m.key && Textual(m.value))
    requires d + MembersNesting(ms) <= CJSON_NESTING_LIMIT
    requires Window(s) && q <= |s| && Reads(s, q, MembersText(ms, format, tabs))
             && Blank(s, o + 1, q + Indent(format, tabs))
    requires Blank(s, q + |MembersText(ms, format, tabs)|, e) && e < |s| && s[e] == '}'
    ensures ParseMembers(s, o, d) == Parsed(RelinkedMembers(ms), e + 1)
    decreases ms, 3
  {
    hide ParseMember, Reads, Blank, MembersText, MemberTail, Textual, ValueEnd, Nesting, Relinked;
    MembersSplit(ms, format, tabs, s, q);
    ValueEndMeans(ms[0], format, tabs, q);
    var n := ValueEnd(ms[0], format, tabs, q);
    if |ms| == 1 {
      LastMember(ms, format, tabs, s, n, e);
      MemberReads(ms, format, tabs, s, o, q, e, d);
      assert RelinkedMembers(ms) == [Member(ms[0].key, Relinked(ms[0].value))];
    } else {
      NextMember(ms[1..], format, tabs, s, n);
      MemberReads(ms, format, tabs, s, o, q, n, d);
      MembersRead(ms[1..], format, tabs, s, n, n + |MemberTail(|ms| > 1, format)|, e, d);
    }
  }

  /** Where the value of a member ends whose text begins at q. */
  function ValueEnd(m: Member<Json>, format: bool, tabs: nat, q: nat): nat {
    q + Indent(format, tabs) + |Quoted(m.key)| + |Colon(format)| + |Text(m.value, format, tabs)|
  }

  lemma ValueEndMeans(m: Member<Json>, format: bool, tabs: nat, q: nat)
    ensures ValueEnd(m, format, tabs, q)
            == q + Indent(format, tabs) + |Quoted(m.key)| + |Colon(format)| + |Text(m.value, format, tabs)|
  {
    hide Text, Quoted;
  }

  lemma {:induction false} MemberReads(ms: seq<Member<Json>>, format: bool, tabs: nat, s: Str, o: nat, q: nat, e: nat,
                                       d: nat)
    requires ms != [] && '\0' !in ms[0].key && Textual(ms[0].value) && d + Nesting(ms[0].value) <= CJSON_NESTING_LIMIT
    requires Window(s) && q <= |s| && Reads(s, q, MembersText(ms, format, tabs))
             && Blank(s, o + 1, q + Indent(format, tabs))
    requires var n := ValueEnd(ms[0], format, tabs, q);
             n < |s| && Blank(s, n, e) && !IsNumberChar(s[n])
    requires e < |s| && s[e] as int > 32
    ensures ParseMember(s, o, d) == Parsed(Member(ms[0].key, Relinked(ms[0].value)), e)
    decreases ms, 2
  {
    hide Text, ParseName, ParseElem, Reads, Blank, Nesting, Textual, MembersText, MemberTail, Quoted, Relinked;
    MembersSplit(ms, format, tabs, s, q);
    var h := q + Indent(format, tabs);
    var c := h + |Quoted(ms[0].key)|;
    NameReads(ms[0].key, format, s, o, h);
    ElemReads(ms[0].value, format, tabs, s, c, c + |Colon(format)|, e, d);
  }

  lemma LastMember(ms: seq<Member<Json>>, format: bool, tabs: nat, s: Str, n: nat, e: nat)
    requires |ms| == 1 && n <= |s| && Reads(s, n, MemberTail(false, format)) && e < |s| && s[e] == '}'
    requires Blank(s, n + |MemberTail(false, format)| + |MembersText(ms[1..], format, tabs)|, e)
    ensures n < |s| && !IsNumberChar(s[n]) && Blank(s, n, e) && [ms[0]] == ms
  {
    var tail := MemberTail(false, format);
    assert ms[1..] == [];
    ReadsBlank(s, n, tail);
    BlankJoin(s, n, n + |tail|, e);
  }

  lemma NextMember(ms: seq<Member<Json>>, format: bool, tabs: nat, s: Str, n: nat)
    requires ms != [] && n <= |s| && Reads(s, n, MemberTail(true, format))
    requires var next := n + |MemberTail(true, format)|; next <= |s| && Reads(s, next, MembersText(ms, format, tabs))
    ensures n < |s| && s[n] == ',' && Blank(s, n, n)
    ensures Blank(s, n + 1, n + |MemberTail(true, format)| + Indent(format, tabs))
  {
    hide MembersText, Reads;
    var tail := MemberTail(true, format);
    MembersSplit(ms, format, tabs, s, n + |tail|);
    ReadsChar(s, n, tail, 0);
    if format { ReadsChar(s, n, tail, 1); }
    BlankJoin(s, n + 1, n + |tail|, n + |tail| + Indent(format, tabs));
  }

  // ----- The nesting limit -----

  /** No parse, of any text, makes a tree that is nested deeper than the limit. */
  lemma {:induction false} ParsedNesting(s: Str, o: nat, d: nat)
    requires Window(s) && o < |s| && d <= CJSON_NESTING_LIMIT && ParseValue(s, o, d).Parsed?
    ensures d + Nesting(ParseValue(s, o, d).value) <= CJSON_NESTING_LIMIT
    decreases |s| - o, 4
  {
    hide ParseElems, ParseMembers, SkipWs, ParseString;
    if s[o] == '[' && ParseValue(s, o, d).value.Array? {
      Dispatch(s, o, d);
      if SkipWs(s, o + 1) < |s| && s[SkipWs(s, o + 1)] != ']' { ElemsNestingBound(s, SkipWs(s, o + 1) - 1, d + 1); }
    } else if s[o] == '{' && ParseValue(s, o, d).value.Object? {
      Dispatch(s, o, d);
      if SkipWs(s, o + 1) < |s| && s[SkipWs(s, o + 1)] != '}' { MembersNestingBound(s, SkipWs(s, o + 1) - 1, d + 1); }
    }
  }

  lemma {:induction false} ElemNestingBound(s: Str, o: nat, d: nat)
    requires Window(s) && o < |s| - 1 && d <= CJSON_NESTING_LIMIT && ParseElem(s, o, d).Parsed?
    ensures d + Nesting(ParseElem(s, o, d).value) <= CJSON_NESTING_LIMIT
    decreases |s| - o, 1
  {
    hide ParseValue, SkipWs, Nesting;
    ParsedNesting(s, SkipWs(s, o + 1), d);
  }

  lemma {:induction false} ElemsNestingBound(s: Str, o: nat, d: nat)
    requires Window(s) && o < |s| - 1 && d <= CJSON_NESTING_LIMIT && ParseElems(s, o, d).Parsed?
    ensures d + ElemsNesting(ParseElems(s, o, d).value) <= CJSON_NESTING_LIMIT
    decreases |s| - o, 2
  {
    hide ParseElem, Nesting;
    ElemNestingBound(s, o, d);
    var p := ParseElem(s, o, d);
    if s[p.next] == ',' {
      ElemsNestingBound(s, p.next, d);
      DropHead([p.value], ParseElems(s, p.next, d).value);
    }
  }

  lemma {:induction false} MembersNestingBound(s: Str, o: nat, d: nat)
    requires Window(s) && o < |s| - 1 && d <= CJSON_NESTING_LIMIT && ParseMembers(s, o, d).Parsed?
    ensures d + MembersNesting(ParseMembers(s, o, d).value) <= CJSON_NESTING_LIMIT
    decreases |s| - o, 2
  {
    hide ParseElem, Nesting, ParseName;
    ElemNestingBound(s, ParseName(s, o).next, d);
    var p := ParseMember(s, o, d);
    if s[p.next] == ',' {
      MembersNestingBound(s, p.next, d);
      DropHead([p.value], ParseMembers(s, p.next, d).value);
    }
  }

  // ----- Whole texts -----

  /** The printer accepts every such tree. */
  lemma {:induction false} TextualPrints(j: Json)
    requires Textual(j)
    ensures Plain(j) && Printable(j)
    decreases j
  {
    match j {
      case Array(es) => forall e | e in es ensures Plain(e) && Printable(e) { TextualPrints(e); }
      case Object(ms, _) => forall m | m in ms ensures Plain(m.value) && Printable(m.value) { TextualPrints(m.value); }
      case _ =>
    }
  }

  /** A tree that JSON text can carry is parsed back from its text, formatted or not, with the parse ending
      where the text ends, exactly when at most CJSON_NESTING_LIMIT of its containers are nested. Links that
      sorting has broken are right again. */
  lemma PrintedTextsParseBack(j: Json, format: bool, requireEnd: bool)
    requires Textual(j)
    ensures ParseText(Text(j, format, 0), requireEnd) == Parsed(Relinked(j), |Text(j, format, 0)|)
            <==> Nesting(j) <= CJSON_NESTING_LIMIT
  {
    hide Text, ParseValue, Textual, Nesting, SkipWs, Relinked;
    var t := Text(j, format, 0);
    var s := t + "\0";
    RelinkedNesting(j);
    if ParseText(t, requireEnd) == Parsed(Relinked(j), |t|) {
      ParsedNesting(s, SkipWs(s, AfterBom(s)), 0);
    }
    if Nesting(j) <= CJSON_NESTING_LIMIT {
      DropPrefix(t, "\0");
      TextBegins(j, format, 0);
      assert s[0] == t[0];
      assert |s| > 4 ==> s[..3][0] != BOM[0];
      SkipBlank(s, 0, 0);
      TextReads(j, format, 0, s, 0, 0);
      EndOfWindow(s);
    }
  }

  lemma {:induction false} RelinkedNesting(j: Json)
    ensures Nesting(Relinked(j)) == Nesting(j)
    decreases j, 1
  {
    match j
    case Array(es) => RelinkedElemsNesting(es);
    case Object(ms, _) => RelinkedMembersNesting(ms);
    case _ =>
  }

  lemma {:induction false} RelinkedElemsNesting(es: seq<Json>)
    ensures ElemsNesting(RelinkedElems(es)) == ElemsNesting(es)
    decreases es
  {
    if es != [] {
      hide Relinked, Nesting;
      RelinkedNesting(es[0]);
      RelinkedElemsNesting(es[1..]);
    }
  }

  lemma {:induction false} RelinkedMembersNesting(ms: seq<Member<Json>>)
    ensures MembersNesting(RelinkedMembers(ms)) == MembersNesting(ms)
    decreases ms
  {
    if ms != [] {
      hide Relinked, Nesting;
      RelinkedNesting(ms[0].value);
      RelinkedMembersNesting(ms[1..]);
    }
  }

  /** Skipping stays at the terminator. */
  lemma EndOfWindow(s: Str)
    requires Window(s)
    ensures SkipWs(s, |s| - 1) == |s| - 1
  {
  }

  // ----- Texts that were parsed -----

  predicate Int32Numbers(j: Json)
    decreases j
  {
    match j
    case Number(d) => IsInt32(d)
    case Array(es) => forall e | e in es :: Int32Numbers(e)
    case Object(ms, _) => forall m | m in ms :: Int32Numbers(m.value)
    case _ => true
  }

  /** Everything that is parsed, from any text, has all its links, and can be carried by JSON text again as far
      as its numbers are 32-bit integers. */
  lemma {:induction false} ParsedTextual(s: Str, o: nat, d: nat)
    requires Window(s) && o < |s| && d <= CJSON_NESTING_LIMIT && ParseValue(s, o, d).Parsed?
    requires Int32Numbers(ParseValue(s, o, d).value)
    ensures Textual(ParseValue(s, o, d).value) && WellLinked(ParseValue(s, o, d).value)
    decreases |s| - o, 4
  {
    hide ParseElems, ParseMembers, SkipWs, ParseString;
    if s[o] == '[' && ParseValue(s, o, d).value.Array? {
      Dispatch(s, o, d);
      var first := SkipWs(s, o + 1);
      if s[first] != ']' {
        assert ParseValue(s, o, d).value == Array(ParseElems(s, first - 1, d + 1).value);
        ElemsTextual(s, first - 1, d + 1);
      }
    } else if s[o] == '{' && ParseValue(s, o, d).value.Object? {
      Dispatch(s, o, d);
      var first := SkipWs(s, o + 1);
      if s[first] != '}' {
        assert ParseValue(s, o, d).value == Object(ParseMembers(s, first - 1, d + 1).value);
        MembersTextual(s, first - 1, d + 1);
      }
    } else if s[o] == '\"' {
      Dispatch(s, o, d);
      NameTextual(s, o);
    }
  }

  lemma NameTextual(s: Str, o: nat)
    requires Window(s) && o < |s| && ParseString(s, o).Parsed?
    ensures '\0' !in ParseString(s, o).value
  {
  }

  lemma {:induction false} ElemTextual(s: Str, o: nat, d: nat)
    requires Window(s) && o < |s| - 1 && d <= CJSON_NESTING_LIMIT && ParseElem(s, o, d).Parsed?
    requires Int32Numbers(ParseElem(s, o, d).value)
    ensures Textual(ParseElem(s, o, d).value) && WellLinked(ParseElem(s, o, d).value)
    decreases |s| - o, 1
  {
    hide ParseValue, SkipWs, Textual, WellLinked, Int32Numbers;
    ParsedTextual(s, SkipWs(s, o + 1), d);
  }

  lemma {:induction false} ElemsTextual(s: Str, o: nat, d: nat)
    requires Window(s) && o < |s| - 1 && d <= CJSON_NESTING_LIMIT && ParseElems(s, o, d).Parsed?
    requires forall e | e in ParseElems(s, o, d).value :: Int32Numbers(e)
    ensures forall e | e in ParseElems(s, o, d).value :: Textual(e) && WellLinked(e)
    decreases |s| - o, 2
  {
    hide ParseElem, Textual, WellLinked, Int32Numbers;
    var p := ParseElem(s, o, d);
    assert p.value in ParseElems(s, o, d).value;
    ElemTextual(s, o, d);
    if s[p.next] == ',' {
      assert forall e | e in ParseElems(s, p.next, d).value :: e in ParseElems(s, o, d).value;
      ElemsTextual(s, p.next, d);
    }
  }

  lemma {:induction false} MembersTextual(s: Str, o: nat, d: nat)
    requires Window(s) && o < |s| - 1 && d <= CJSON_NESTING_LIMIT && ParseMembers(s, o, d).Parsed?
    requires forall m | m in ParseMembers(s, o, d).value :: Int32Numbers(m.value)
    ensures forall m | m in ParseMembers(s, o, d).value :: '\0' !in m.key && Textual(m.value) && WellLinked(m.value)
    decreases |s| - o, 2
  {
    hide ParseElem, Textual, WellLinked, Int32Numbers, ParseString;
    var p := ParseMember(s, o, d);
    assert p.value in ParseMembers(s, o, d).value;
    NameTextual(s, SkipWs(s, o + 1));
    ElemTextual(s, ParseName(s, o).next, d);
    if s[p.next] == ',' {
      assert forall m | m in ParseMembers(s, p.next, d).value :: m in ParseMembers(s, o, d).value;
      MembersTextual(s, p.next, d);
    }
  }

  /** A parsed tree survives every further round of printing and parsing, formatted or not. */
  lemma ReprintedTextsParseBack(text: Str, format: bool, requireEnd: bool, again: bool)
    requires ParseText(text, requireEnd).Parsed? && Int32Numbers(ParseText(text, requireEnd).value)
    ensures var j := ParseText(text, requireEnd).value;
            ParseText(Text(j, format, 0), again) == Parsed(j, |Text(j, format, 0)|)
  {
    hide Text, ParseValue, SkipWs, Textual, WellLinked, Relinked, Int32Numbers, Nesting;
    var s := text + "\0";
    ParsedTextual(s, SkipWs(s, AfterBom(s)), 0);
    ParsedNesting(s, SkipWs(s, AfterBom(s)), 0);
    RelinkedIsWellLinked(ParseText(text, requireEnd).value);
    PrintedTextsParseBack(ParseText(text, requireEnd).value, format, again);
  }
}
