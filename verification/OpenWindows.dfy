/** Parsing a window of a given length that need not end in a terminator, as cJSON_ParseWithLength allows: when does
    the parser read behind it? Only positions matter here. */
module OpenWindows {
  import opened CStrings
  import opened JsonTrees
  import opened StringLiterals
  import opened Grammar

  /** Where a part of the text ends, that the parser gives up, or that it reads behind the window. */
  datatype Scan = Stopped | Reached(next: nat) | Outside

  /** parse_string: the only one that reads a character without asking whether there is one. */
  function ScanString(s: Str, o: nat): (r: Scan)
    requires o <= |s|
    ensures r.Reached? ==> o < r.next <= |s|
    ensures r.Outside? <==> o == |s|
  {
    if o == |s| then Outside
    else if s[o] != '\"' then Stopped
    else
      var end := LiteralEnd(s, o + 1);
      if end.None? || Decode(s, o + 1, end.value).Refused? then Stopped else Reached(end.value + 1)
  }

  function ScanNumber(s: Str, o: nat): (r: Scan)
    requires o <= |s|
    ensures r.Reached? ==> o < r.next <= |s|
    ensures !r.Outside?
  {
    var n := Strtod(NumberText(s, o, NUMBER_BUFFER - 1));
    if n.Failed? then Stopped else Reached(o + n.next)
  }

  /** parse_value at nesting depth d. */
  function ScanValue(s: Str, o: nat, d: nat): (r: Scan)
    requires o <= |s| && d <= CJSON_NESTING_LIMIT
    ensures r.Reached? ==> o < r.next <= |s|
    decreases |s| - o, 4
  {
    if Reads(s, o, "null") || Reads(s, o, "true") then Reached(o + 4)
    else if Reads(s, o, "false") then Reached(o + 5)
    else if o == |s| then Stopped
    else if s[o] == '\"' then ScanString(s, o)
    else if s[o] == '-' || IsDigit(s[o]) then ScanNumber(s, o)
    else if s[o] == '[' || s[o] == '{' then ScanList(s, o, d, s[o] == '{')
    else Stopped
  }

  /** parse_array and parse_object at the opening bracket. */
  function ScanList(s: Str, o: nat, d: nat, members: bool): (r: Scan)
    requires o < |s| && d <= CJSON_NESTING_LIMIT
    ensures r.Reached? ==> o < r.next <= |s|
    decreases |s| - o, 3
  {
    if d == CJSON_NESTING_LIMIT then Stopped else
    var first := SkipWs(s, o + 1);
    if first == |s| then Stopped
    else if s[first] == (if members then '}' else ']') then Reached(first + 1)
    else ScanItems(s, first - 1, d + 1, members)
  }

  /** The loop over the items, from the character in front of one. */
  function ScanItems(s: Str, o: nat, d: nat, members: bool): (r: Scan)
    requires o < |s| && d <= CJSON_NESTING_LIMIT
    ensures r.Reached? ==> o < r.next <= |s|
    decreases |s| - o, 2
  {
    var name := if members then ScanName(s, o) else Reached(o);
    if !name.Reached? then name else
    var value := ScanValue(s, SkipFrom(s, name.next + 1), d);
    if !value.Reached? then value else
    var e := SkipFrom(s, value.next);
    if e < |s| && s[e] == ',' then ScanItems(s, e, d, members)
    else if e < |s| && s[e] == (if members then '}' else ']') then Reached(e + 1)
    else Stopped
  }

  /** buffer_skip_whitespace, which does nothing at the end of the window. */
  function SkipFrom(s: Str, o: nat): (e: nat)
    requires o <= |s|
    ensures o <= e <= |s| && (e == |s| <==> o == |s|)
  {
    if o < |s| then SkipWs(s, o) else o
  }

  /** The name of a member and the colon behind it. */
  function ScanName(s: Str, o: nat): (r: Scan)
    requires o < |s|
    ensures r.Reached? ==> o < r.next < |s|
    ensures r.Outside? <==> o + 1 == |s|
  {
    var name := ScanString(s, SkipFrom(s, o + 1));
    if !name.Reached? then name else
    var colon := SkipFrom(s, name.next);
    if colon < |s| && s[colon] == ':' then Reached(colon) else Stopped
  }

  /** cJSON_ParseWithLength. */
  function ScanWhole(s: Str): Scan {
    if s == "" then Stopped else ScanValue(s, SkipFrom(s, if |s| > 4 && s[..3] == BOM then 3 else 0), 0)
  }

  // ----- when the parser reads behind the window -----

  /** It does so only when a comma is the last character of the window. */
  lemma {:induction false} OutsideValue(s: Str, o: nat, d: nat)
    requires o <= |s| && d <= CJSON_NESTING_LIMIT && ScanValue(s, o, d).Outside?
    ensures s != "" && s[|s| - 1] == ','
    decreases |s| - o, 4
  {
    OutsideList(s, o, d, s[o] == '{');
  }

  lemma {:induction false} OutsideList(s: Str, o: nat, d: nat, members: bool)
    requires o < |s| && d <= CJSON_NESTING_LIMIT && ScanList(s, o, d, members).Outside?
    ensures s[|s| - 1] == ','
    decreases |s| - o, 3
  {
    OutsideItems(s, SkipWs(s, o + 1) - 1, d + 1, members);
  }

  lemma {:induction false} OutsideItems(s: Str, o: nat, d: nat, members: bool)
    requires o < |s| && d <= CJSON_NESTING_LIMIT && ScanItems(s, o, d, members).Outside?
    requires o + 1 < |s| || s[o] == ','
    ensures s[|s| - 1] == ','
    decreases |s| - o, 2
  {
    var name := if members then ScanName(s, o) else Reached(o);
    if name.Reached? {
      var value := ScanValue(s, SkipFrom(s, name.next + 1), d);
      if value.Outside? {
        OutsideValue(s, SkipFrom(s, name.next + 1), d);
      } else {
        OutsideItems(s, SkipFrom(s, value.next), d, members);
      }
    }
  }

  /** In particular no window with its terminator is left, which is all that cJSON_Parse passes on. */
  lemma OutsideEndsInComma(s: Str)
    requires ScanWhole(s).Outside?
    ensures s != "" && s[|s| - 1] == ',' && !Window(s)
  {
    OutsideValue(s, SkipFrom(s, if |s| > 4 && s[..3] == BOM then 3 else 0), 0);
  }

  /** It does so for every object that is broken off behind the comma of its first member. */
  lemma BrokenOff(s: Str, colon: nat, d: nat)
    requires s != "" && s[0] == '{' && s[|s| - 1] == ',' && d < CJSON_NESTING_LIMIT
    requires |s| > 1 && s[1] == '\"' && ScanName(s, 0) == Reached(colon)
    requires ScanValue(s, SkipFrom(s, colon + 1), d + 1) == Reached(|s| - 1)
    ensures ScanValue(s, 0, d).Outside?
  {
    hide ScanName, ScanString, Decode, LiteralEnd;
    assert SkipWs(s, 1) == 1;
    assert SkipWs(s, |s| - 1) == |s| - 1;
    assert ScanName(s, |s| - 1).Outside? by { assert SkipFrom(s, |s|) == |s|; }
    assert ScanItems(s, |s| - 1, d + 1, true).Outside?;
    assert ScanItems(s, 0, d + 1, true).Outside?;
    assert ScanList(s, 0, d, true).Outside?;
    assert !Reads(s, 0, "null") && !Reads(s, 0, "true") && !Reads(s, 0, "false");
  }

  /** The text {"a":null, with its length and without its terminator. */
  lemma CommaIsLast(s: Str)
    requires |s| == 10 && s[0] == '{' && s[1] == '\"' && s[2] == 'a' && s[3] == '\"' && s[4] == ':'
    requires s[5..9] == "null" && s[9] == ','
    ensures ScanWhole(s).Outside?
  {
    hide ScanName, ScanItems, ScanList, Decode, LiteralEnd;
    OneLetterName(s);
    assert s[5..9][0] == s[5];
    assert SkipWs(s, 5) == 5 && SkipWs(s, 0) == 0;
    assert ScanValue(s, 5, 1) == Reached(9);
    BrokenOff(s, 4, 0);
  }

  lemma OneLetterName(s: Str)
    requires |s| > 4 && s[1] == '\"' && s[2] == 'a' && s[3] == '\"' && s[4] == ':'
    ensures ScanName(s, 0) == Reached(4)
  {
    hide Utf16Literal;
    assert LiteralEnd(s, 3) == Some(3) && LiteralEnd(s, 2) == Some(3);
    assert Next(s, 2, 3) == Piece("a", 1);
    assert Decode(s, 3, 3) == Accepted("") && Decode(s, 2, 3).Accepted?;
    assert SkipWs(s, 1) == 1 && SkipWs(s, 4) == 4;
  }
}
