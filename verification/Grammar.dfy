/** What the parser makes of every window of text: the tree and where it ends, or where it gives up.
    A window is a C string with its terminator. */
module Grammar {
  import opened CStrings
  import opened JsonTrees
  import opened StringLiterals

  const CJSON_NESTING_LIMIT: nat := 1000

  datatype Parsed<+T> = Failed(at: nat) | Parsed(value: T, next: nat)

  predicate Window(s: Str) {
    s != "" && s[|s| - 1] == '\0'
  }

  /** The text of a C buffer up to its terminator. */
  function CString(s: Str): (t: Str)
    ensures '\0' !in t && |t| <= |s|
  {
    if s == "" || s[0] == '\0' then "" else [s[0]] + CString(s[1..])
  }

  // ----- White space -----

  /** Everything up to a space counts, also the terminator. */
  function WsEnd(s: Str, o: nat): (e: nat)
    requires o <= |s|
    ensures o <= e <= |s|
    decreases |s| - o
  {
    if o < |s| && s[o] as int <= 32 then WsEnd(s, o + 1) else o
  }

  /** Skipping stops inside the window, and never moves back. */
  function SkipWs(s: Str, o: nat): (e: nat)
    requires o <= |s|
    ensures o < |s| ==> o <= e < |s|
  {
    var e := WsEnd(s, o);
    if o < |s| && e == |s| then e - 1 else e
  }

  // ----- Numbers -----

  predicate IsDigit(c: char) {
    '0' <= c <= '9'
  }

  predicate IsNumberChar(c: char) {
    IsDigit(c) || c == '+' || c == '-' || c == 'e' || c == 'E' || c == '.'
  }

  const NUMBER_BUFFER: nat := 64

  /** What is copied for strtod. */
  function NumberText(s: Str, o: nat, room: nat): (t: Str)
    requires o <= |s|
    ensures |t| <= room && o + |t| <= |s| && t == s[o..o + |t|]
    ensures forall c | c in t :: IsNumberChar(c)
    decreases room
  {
    if room == 0 || o == |s| || !IsNumberChar(s[o]) then "" else [s[o]] + NumberText(s, o + 1, room - 1)
  }

  function DigitsEnd(t: Str, i: nat): (j: nat)
    requires i <= |t|
    ensures i <= j <= |t| && forall k | i <= k < j :: IsDigit(t[k])
    ensures j < |t| ==> !IsDigit(t[j])
    decreases |t| - i
  {
    if i < |t| && IsDigit(t[i]) then DigitsEnd(t, i + 1) else i
  }

  function DigitValue(c: char): nat
    requires IsDigit(c)
  {
    c as int - '0' as int
  }

  function DigitsValue(t: Str): nat
    requires forall c | c in t :: IsDigit(c)
  {
    if t == "" then 0 else
    assert t[|t| - 1] in t;
    DigitsValue(t[..|t| - 1]) * 10 + DigitValue(t[|t| - 1])
  }

  function Ten(n: nat): (p: real)
    ensures p > 0.0
  {
    if n == 0 then 1.0 else 10.0 * Ten(n - 1)
  }

  function Scaled(m: real, e: int): real {
    if e >= 0 then m * Ten(e) else m / Ten(-e)
  }

  datatype Exponent = Exponent(power: int, end: nat)

  /** An exponent part is read only when it has digits. */
  function ReadExponent(t: Str, k: nat): (e: Exponent)
    requires k <= |t|
    ensures k <= e.end <= |t|
  {
    if k < |t| && (t[k] == 'e' || t[k] == 'E') then
      var i := if k + 1 < |t| && (t[k + 1] == '+' || t[k + 1] == '-') then k + 2 else k + 1;
      var j := DigitsEnd(t, i);
      var power: int := DigitsValue(t[i..j]);
      if j == i then Exponent(0, k) else Exponent(if t[k + 1] == '-' then -power else power, j)
    else Exponent(0, k)
  }

  /** strtod on characters of numbers, in exact arithmetic. */
  function Strtod(t: Str): (p: Parsed<real>)
    ensures p.Parsed? ==> 0 < p.next <= |t|
  {
    var i: nat := if t != "" && (t[0] == '+' || t[0] == '-') then 1 else 0;
    var j := DigitsEnd(t, i);
    var k := if j < |t| && t[j] == '.' then DigitsEnd(t, j + 1) else j;
    var fraction := if k > j then t[j + 1..k] else "";
    if i == j && fraction == "" then Failed(0) else
    var e := ReadExponent(t, k);
    var m := Scaled(DigitsValue(t[i..j] + fraction) as real, e.power - |fraction|);
    Parsed(if t[0] == '-' then -m else m, e.end)
  }

  lemma {:induction false} NumberInside(s: Str, o: nat, room: nat)
    requires Window(s) && o < |s|
    ensures o + |NumberText(s, o, room)| < |s|
    decreases room
  {
    if room > 0 && IsNumberChar(s[o]) { NumberInside(s, o + 1, room - 1); }
  }

  /** parse_number. */
  function ParseNumber(s: Str, o: nat): (p: Parsed<Json>)
    requires Window(s) && o < |s|
    ensures p.Parsed? ==> o < p.next < |s|
  {
    var t := NumberText(s, o, NUMBER_BUFFER - 1);
    var n := Strtod(t);
    if n.Failed? then Failed(o) else
    NumberInside(s, o, NUMBER_BUFFER - 1);
    Parsed(Number(n.value), o + n.next)
  }

  // ----- Strings -----

  /** parse_string: the text ends at the first NUL it contains. */
  function ParseString(s: Str, o: nat): (p: Parsed<Str>)
    requires Window(s) && o < |s|
    ensures p.Parsed? ==> o < p.next < |s|
    ensures p.Failed? ==> p.at <= |s|
  {
    if s[o] != '\"' then Failed(o + 1) else
    var end := LiteralEnd(s, o + 1);
    if end.None? then Failed(o + 1) else
    var d := Decode(s, o + 1, end.value);
    if d.Refused? then Failed(d.at) else Parsed(CString(d.text), end.value + 1)
  }

  // ----- Values -----

  predicate Reads(s: Str, o: nat, word: Str)
    requires o <= |s|
  {
    o + |word| <= |s| && s[o..o + |word|] == word
  }

  /** A word without NUL ends before the window does. */
  lemma ReadsInside(s: Str, o: nat, word: Str)
    requires Window(s) && o <= |s| && Reads(s, o, word) && word != "" && '\0' !in word
    ensures o + |word| < |s|
  {
  }

  /** parse_value at nesting depth d. */
  function ParseValue(s: Str, o: nat, d: nat): (p: Parsed<Json>)
    requires Window(s) && o < |s| && d <= CJSON_NESTING_LIMIT
    ensures p.Parsed? ==> o < p.next < |s|
    ensures p.Failed? ==> p.at <= |s|
    decreases |s| - o, 4
  {
    if Reads(s, o, "null") then ReadsInside(s, o, "null"); Parsed(Null, o + 4)
    else if Reads(s, o, "false") then ReadsInside(s, o, "false"); Parsed(False, o + 5)
    else if Reads(s, o, "true") then ReadsInside(s, o, "true"); Parsed(True, o + 4)
    else if s[o] == '\"' then
      var p := ParseString(s, o);
      if p.Failed? then Failed(p.at) else Parsed(String(p.value), p.next)
    else if s[o] == '-' || IsDigit(s[o]) then ParseNumber(s, o)
    else if s[o] == '[' then ParseArray(s, o, d)
    else if s[o] == '{' then ParseObject(s, o, d)
    else Failed(o)
  }

  /** parse_array at an opening bracket. */
  function ParseArray(s: Str, o: nat, d: nat): (p: Parsed<Json>)
    requires Window(s) && o < |s| - 1 && d <= CJSON_NESTING_LIMIT
    ensures p.Parsed? ==> o < p.next < |s|
    ensures p.Failed? ==> p.at <= |s|
    decreases |s| - o, 3
  {
    if d == CJSON_NESTING_LIMIT then Failed(o) else
    var first := SkipWs(s, o + 1);
    if s[first] == ']' then Parsed(Array([]), first + 1) else
    var p := ParseElems(s, first - 1, d + 1);
    if p.Failed? then Failed(p.at) else Parsed(Array(p.value), p.next)
  }

  /** One round of the loop of parse_array, from the character in front of the element. */
  function ParseElem(s: Str, o: nat, d: nat): (p: Parsed<Json>)
    requires Window(s) && o < |s| - 1 && d <= CJSON_NESTING_LIMIT
    ensures p.Parsed? ==> o < p.next < |s|
    ensures p.Failed? ==> p.at <= |s|
    decreases |s| - o, 1
  {
    var p := ParseValue(s, SkipWs(s, o + 1), d);
    if p.Failed? then p else Parsed(p.value, SkipWs(s, p.next))
  }

  /** The rest of an array, from the character in front of an element. */
  function ParseElems(s: Str, o: nat, d: nat): (p: Parsed<seq<Json>>)
    requires Window(s) && o < |s| - 1 && d <= CJSON_NESTING_LIMIT
    ensures p.Parsed? ==> o < p.next < |s|
    ensures p.Failed? ==> p.at <= |s|
    decreases |s| - o, 2
  {
    var p := ParseElem(s, o, d);
    if p.Failed? then Failed(p.at)
    else if s[p.next] == ',' then Behind([p.value], ParseElems(s, p.next, d))
    else if s[p.next] == ']' then Parsed([p.value], p.next + 1)
    else Failed(p.next)
  }

  function Behind<T>(front: seq<T>, p: Parsed<seq<T>>): Parsed<seq<T>> {
    if p.Failed? then p else Parsed(front + p.value, p.next)
  }

  /** parse_object at an opening brace. */
  function ParseObject(s: Str, o: nat, d: nat): (p: Parsed<Json>)
    requires Window(s) && o < |s| - 1 && d <= CJSON_NESTING_LIMIT
    ensures p.Parsed? ==> o < p.next < |s|
    ensures p.Failed? ==> p.at <= |s|
    decreases |s| - o, 3
  {
    if d == CJSON_NESTING_LIMIT then Failed(o) else
    var first := SkipWs(s, o + 1);
    if s[first] == '}' then Parsed(Object([]), first + 1) else
    var p := ParseMembers(s, first - 1, d + 1);
    if p.Failed? then Failed(p.at) else Parsed(Object(p.value), p.next)
  }

  /** The name of a member and the colon behind it: where the colon is. */
  function ParseName(s: Str, o: nat): (p: Parsed<Str>)
    requires Window(s) && o < |s| - 1
    ensures p.Parsed? ==> o < p.next < |s| - 1
    ensures p.Failed? ==> p.at <= |s|
  {
    var p := ParseString(s, SkipWs(s, o + 1));
    if p.Failed? then p else
    var colon := SkipWs(s, p.next);
    if s[colon] != ':' then Failed(colon) else Parsed(p.value, colon)
  }

  /** One round of the loop of parse_object. */
  function ParseMember(s: Str, o: nat, d: nat): (p: Parsed<Member<Json>>)
    requires Window(s) && o < |s| - 1 && d <= CJSON_NESTING_LIMIT
    ensures p.Parsed? ==> o < p.next < |s|
    ensures p.Failed? ==> p.at <= |s|
    decreases |s| - o, 1
  {
    var name := ParseName(s, o);
    if name.Failed? then Failed(name.at) else
    var p := ParseElem(s, name.next, d);
    if p.Failed? then Failed(p.at) else Parsed(Member(name.value, p.value), p.next)
  }

  function ParseMembers(s: Str, o: nat, d: nat): (p: Parsed<seq<Member<Json>>>)
    requires Window(s) && o < |s| - 1 && d <= CJSON_NESTING_LIMIT
    ensures p.Parsed? ==> o < p.next < |s|
    ensures p.Failed? ==> p.at <= |s|
    decreases |s| - o, 2
  {
    var p := ParseMember(s, o, d);
    if p.Failed? then Failed(p.at)
    else if s[p.next] == ',' then Behind([p.value], ParseMembers(s, p.next, d))
    else if s[p.next] == '}' then Parsed([p.value], p.next + 1)
    else Failed(p.next)
  }

  // ----- Whole texts -----

  const BOM: Str := "\U{00EF}\U{00BB}\U{00BF}"

  function AfterBom(s: Str): (o: nat)
    requires Window(s)
    ensures o < |s|
  {
    if |s| > 4 && s[..3] == BOM then 3 else 0
  }

  /** Where an error is reported: inside the window. */
  function Reported(s: Str, at: nat): (position: nat)
    requires s != ""
    ensures position < |s|
  {
    if at < |s| then at else |s| - 1
  }

  /** A window from its beginning, and with `requireEnd` up to its terminator. */
  function ParseWhole(s: Str, requireEnd: bool): (p: Parsed<Json>)
    requires Window(s)
    ensures p.Failed? ==> p.at <= |s|
    ensures p.Parsed? ==> p.next < |s|
  {
    var p := ParseValue(s, SkipWs(s, AfterBom(s)), 0);
    if p.Failed? || !requireEnd then p else
    var end := SkipWs(s, p.next);
    if s[end] != '\0' then Failed(end) else Parsed(p.value, end)
  }

  /** cJSON_ParseWithOpts on a C string: a tree and the end of the parse, or the position of the error. */
  function ParseText(text: Str, requireEnd: bool): (p: Parsed<Json>)
    ensures p.Failed? ==> p.at <= |text|
    ensures p.Parsed? ==> p.next <= |text|
  {
    var s := text + "\0";
    var p := ParseWhole(s, requireEnd);
    if p.Failed? then Failed(Reported(s, p.at)) else p
  }
}
