/** How printed texts are laid out, said in literals: where the separators, line ends and tabs are, what a string
    and a number look like. */
module Layouts {
  import opened CStrings
  import opened JsonTrees
  import opened SiblingLinks
  import opened Texts

  /** The parts one behind the other. */
  function Together(parts: seq<Str>): Str {
    if parts == [] then "" else parts[0] + Together(parts[1..])
  }

  /** The parts with a separator between any two neighbours. */
  function Joined(parts: seq<Str>, separator: Str): Str {
    if parts == [] then ""
    else if |parts| == 1 then parts[0]
    else parts[0] + (separator + Joined(parts[1..], separator))
  }

  // ---------- arrays ----------

  function ElementTexts(es: seq<Json>, format: bool, depth: nat): (parts: seq<Str>)
    ensures |parts| == |es| && forall i | 0 <= i < |es| :: parts[i] == Text(es[i], format, depth)
  {
    seq(|es|, i requires 0 <= i < |es| => Text(es[i], format, depth))
  }

  lemma {:induction false} ElementsJoined(es: seq<Json>, format: bool, depth: nat)
    ensures ElemsText(es, format, depth) == Joined(ElementTexts(es, format, depth), if format then ", " else ",")
    decreases es
  {
    var parts, separator := ElementTexts(es, format, depth), if format then ", " else ",";
    if |es| == 1 {
      assert ElemsText(es[1..], format, depth) == "";
      assert parts[0] + "" + "" == parts[0];
    } else if |es| > 1 {
      hide Text;
      ElementsJoined(es[1..], format, depth);
      assert ElementTexts(es[1..], format, depth) == parts[1..];
      Assoc(parts[0], separator, ElemsText(es[1..], format, depth));
    }
  }

  /** An array is printed on one line, with a comma and a space between its elements. */
  lemma FormattedArray(es: seq<Json>, depth: nat)
    ensures Text(Array(es), true, depth) == "[" + Joined(ElementTexts(es, true, depth + 1), ", ") + "]"
  {
    hide ElemsText;
    ElementsJoined(es, true, depth + 1);
  }

  /** Unformatted with a comma alone. */
  lemma UnformattedArray(es: seq<Json>, depth: nat)
    ensures Text(Array(es), false, depth) == "[" + Joined(ElementTexts(es, false, depth + 1), ",") + "]"
  {
    hide ElemsText;
    ElementsJoined(es, false, depth + 1);
  }

  // ---------- objects ----------

  /** One line of tabs, name, colon, tab and value, with a comma unless it is the last one. */
  function MemberLine(m: Member<Json>, depth: nat, last: bool): Str {
    Tabs(depth) + Quoted(m.key) + ":\t" + Text(m.value, true, depth) + (if last then "\n" else ",\n")
  }

  function MemberLines(ms: seq<Member<Json>>, depth: nat): (lines: seq<Str>)
    ensures |lines| == |ms| && forall i | 0 <= i < |ms| :: lines[i] == MemberLine(ms[i], depth, i == |ms| - 1)
  {
    seq(|ms|, i requires 0 <= i < |ms| => MemberLine(ms[i], depth, i == |ms| - 1))
  }

  /** Name, colon and value. */
  function MemberTexts(ms: seq<Member<Json>>, depth: nat): (parts: seq<Str>)
    ensures |parts| == |ms|
    ensures forall i | 0 <= i < |ms| :: parts[i] == Quoted(ms[i].key) + ":" + Text(ms[i].value, false, depth)
  {
    seq(|ms|, i requires 0 <= i < |ms| => Quoted(ms[i].key) + ":" + Text(ms[i].value, false, depth))
  }

  lemma {:induction false} MembersInLines(ms: seq<Member<Json>>, depth: nat)
    ensures MembersText(ms, true, depth) == Together(MemberLines(ms, depth))
    decreases ms
  {
    if ms != [] {
      hide Text, Quoted, Tabs;
      MembersInLines(ms[1..], depth);
      var lines := MemberLines(ms, depth);
      assert MemberLines(ms[1..], depth) == lines[1..];
      assert lines[0] == MemberLine(ms[0], depth, |ms| == 1);
    }
  }

  lemma {:induction false} MembersJoined(ms: seq<Member<Json>>, depth: nat)
    ensures MembersText(ms, false, depth) == Joined(MemberTexts(ms, depth), ",")
    decreases ms
  {
    if ms != [] {
      hide Text, Quoted, Tabs;
      MembersJoined(ms[1..], depth);
      var parts := MemberTexts(ms, depth);
      assert MemberTexts(ms[1..], depth) == parts[1..];
    }
  }

  /** A formatted object begins with a brace and a line end; every member has its own line, one tab deeper than the
      object, and the closing brace stands behind the tabs of the object. */
  lemma FormattedObject(ms: seq<Member<Json>>, link: Link, depth: nat)
    ensures Text(Object(ms, link), true, depth)
            == "{\n" + Together(MemberLines(ms, depth + 1)) + Tabs(depth) + "}"
  {
    hide MembersText;
    MembersInLines(ms, depth + 1);
  }

  /** An unformatted object has nothing between its tokens. */
  lemma UnformattedObject(ms: seq<Member<Json>>, link: Link, depth: nat)
    ensures Text(Object(ms, link), false, depth) == "{" + Joined(MemberTexts(ms, depth + 1), ",") + "}"
  {
    hide MembersText;
    MembersJoined(ms, depth + 1);
  }

  // ---------- strings ----------

  /** Every character is printed on its own: as it is, behind a backslash, or as four lower-case digits. */
  lemma {:induction false} StringLayout(s: Str)
    ensures Quoted(s) == "\"" + Together(seq(|s|, i requires 0 <= i < |s| => EscapeChar(s[i]))) + "\""
  {
    EscapesTogether(s);
  }

  lemma {:induction false} EscapesTogether(s: Str)
    ensures Escape(s) == Together(seq(|s|, i requires 0 <= i < |s| => EscapeChar(s[i])))
  {
    hide EscapeChar;
    var parts := seq(|s|, i requires 0 <= i < |s| => EscapeChar(s[i]));
    if s != "" {
      EscapesTogether(s[1..]);
      assert parts[1..] == seq(|s[1..]|, i requires 0 <= i < |s[1..]| => EscapeChar(s[1..][i]));
    }
  }

  /** Only quotes, backslashes and the characters below the space are escaped; seven of them with a letter. */
  lemma EscapesAre(c: char)
    ensures |EscapeChar(c)| == 1 <==> c as int >= 32 && c != '\"' && c != '\\'
    ensures |EscapeChar(c)| == 1 ==> EscapeChar(c) == [c]
    ensures |EscapeChar(c)| == 2 <==> c in "\"\\\U{0008}\U{000C}\n\r\t"
    ensures |EscapeChar(c)| == 2 ==>
              exists i | 0 <= i < 7 :: c == "\"\\\U{0008}\U{000C}\n\r\t"[i] && EscapeChar(c) == ['\\', "\"\\bfnrt"[i]]
    ensures |EscapeChar(c)| == 6 ==>
              EscapeChar(c)[..4] == "\\u00" && EscapeChar(c)[4] in "01"
              && EscapeChar(c)[5] == "0123456789abcdef"[c as int % 16] && (EscapeChar(c)[4] == '1' <==> c as int >= 16)
    ensures |EscapeChar(c)| == 1 || |EscapeChar(c)| == 2 || |EscapeChar(c)| == 6
  {
    var plain, letters := "\"\\\U{0008}\U{000C}\n\r\t", "\"\\bfnrt";
    assert plain[0] == '\"' && plain[1] == '\\' && plain[2] == '\U{0008}' && plain[3] == '\U{000C}'
        && plain[4] == '\n' && plain[5] == '\r' && plain[6] == '\t';
    if |EscapeChar(c)| == 2 {
      var i := if c == '\"' then 0 else if c == '\\' then 1 else if c == '\U{0008}' then 2
               else if c == '\U{000C}' then 3 else if c == '\n' then 4 else if c == '\r' then 5 else 6;
      assert c == plain[i] && EscapeChar(c) == ['\\', letters[i]];
    }
  }

  // ---------- numbers and words ----------

  /** A number is printed without leading zeros, and zero without a sign. */
  lemma NumberLayout(d: real, format: bool, depth: nat)
    ensures var t := Text(Number(d), format, depth);
            if d.Floor == 0 then t == "0"
            else if d.Floor > 0 then '1' <= t[0] <= '9'
            else |t| > 1 && t[0] == '-' && '1' <= t[1] <= '9'
    ensures var t := Text(Number(d), format, depth); forall i | 1 <= i < |t| :: '0' <= t[i] <= '9'
  {
    hide Dec;
    var n := if d.Floor < 0 then -d.Floor else d.Floor;
    DigitsOnly(n);
    assert d.Floor < 0 ==> forall i | 1 <= i < |IntText(d.Floor)| :: IntText(d.Floor)[i] == Dec(n)[i - 1];
  }

  lemma DigitsOnly(n: nat)
    ensures var t := Dec(n); t != "" && (forall i | 0 <= i < |t| :: '0' <= t[i] <= '9') && (t[0] == '0' ==> n == 0)
    ensures n == 0 ==> Dec(n) == "0"
  {
    hide Dec;
    forall i | 0 <= i < |Dec(n)| ensures '0' <= Dec(n)[i] <= '9' { assert Dec(n)[i] in Dec(n); }
    if n == 0 { Zero(); }
  }

  lemma Zero()
    ensures Dec(0) == "0"
  {
  }
}
