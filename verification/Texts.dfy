/** What the printer prints, as a function. */
module Texts {
  import opened CStrings
  import opened JsonTrees

  const INT_MAX: int := 0x7FFF_FFFF
  const INT_MIN: int := -0x8000_0000

  /** Numbers that equal their valueint, which are printed with %d. */
  predicate IsInt32(d: real) {
    d.Floor as real == d && INT_MIN <= d.Floor <= INT_MAX
  }

  /** The valueint that the parser and cJSON_SetNumberHelper store beside a number: cut off towards zero,
      and saturated at the ends of int. */
  function ValueInt(d: real): int {
    if d >= INT_MAX as real then INT_MAX
    else if d <= INT_MIN as real then INT_MIN
    else if d >= 0.0 then d.Floor else -((-d).Floor)
  }

  /** The printer's test d == (double)valueint picks out exactly the 32-bit integers. */
  lemma IntegersAreRecognized(d: real)
    ensures ValueInt(d) as real == d <==> IsInt32(d)
    ensures INT_MIN <= ValueInt(d) <= INT_MAX
  {
    if d < 0.0 && d.Floor as real == d {
      assert (-d).Floor == -(d.Floor);
    }
  }

  function IntText(n: int): (s: Str)
    ensures s != "" && forall c | c in s :: '0' <= c <= '9' || c == '-'
  {
    if n < 0 then "-" + Dec(-n) else Dec(n)
  }

  function HexDigit(d: int): char
    requires 0 <= d < 16
  {
    if d < 10 then (d + '0' as int) as char else (d - 10 + 'a' as int) as char
  }

  /** How one character of a string is printed. */
  function EscapeChar(c: char): (e: Str)
    ensures 1 <= |e| <= 6
    ensures c != '\0' ==> '\0' !in e
  {
    match c
    case '\"' => "\\\""
    case '\\' => "\\\\"
    case '\U{0008}' => "\\b"
    case '\U{000C}' => "\\f"
    case '\n' => "\\n"
    case '\r' => "\\r"
    case '\t' => "\\t"
    case _ =>
      if c as int < 32 then "\\u00" + [HexDigit(c as int / 16), HexDigit(c as int % 16)] else [c]
  }

  function Escape(s: Str): Str {
    if s == "" then "" else EscapeChar(s[0]) + Escape(s[1..])
  }

  function Quoted(s: Str): Str {
    "\"" + Escape(s) + "\""
  }

  function Tabs(n: nat): (t: Str)
    ensures |t| == n && forall i | 0 <= i < n :: t[i] == '\t'
  {
    seq(n, _ => '\t')
  }

  /** The text of a tree at a nesting depth. */
  function Text(j: Json, format: bool, depth: nat): Str
    decreases j
  {
    match j
    case Invalid => ""
    case Null => "null"
    case False => "false"
    case True => "true"
    case Number(d) => IntText(d.Floor)
    case String(s) => Quoted(s)
    case Raw(s) => s
    case Array(es) => "[" + ElemsText(es, format, depth + 1) + "]"
    case Object(ms, _) =>
      Opening(format) + MembersText(ms, format, depth + 1) + Closing(format, depth)
  }

  function Opening(format: bool): Str {
    if format then "{\n" else "{"
  }

  function Closing(format: bool, depth: nat): (s: Str)
    ensures '\0' !in s
  {
    (if format then Tabs(depth) else "") + "}"
  }

  function ElemsText(es: seq<Json>, format: bool, depth: nat): Str
    decreases es
  {
    if es == [] then ""
    else Text(es[0], format, depth) + Comma(|es| > 1, format) + ElemsText(es[1..], format, depth)
  }

  function Comma(more: bool, format: bool): Str {
    if !more then "" else if format then ", " else ","
  }

  function MembersText(ms: seq<Member<Json>>, format: bool, depth: nat): Str
    decreases ms
  {
    if ms == [] then ""
    else
      MemberHead(ms[0].key, format, depth) + Text(ms[0].value, format, depth)
      + MemberTail(|ms| > 1, format) + MembersText(ms[1..], format, depth)
  }

  function MemberHead(key: Str, format: bool, depth: nat): Str {
    (if format then Tabs(depth) else "") + Quoted(key) + (if format then ":\t" else ":")
  }

  function MemberTail(more: bool, format: bool): Str {
    (if more then "," else "") + (if format then "\n" else "")
  }

  /** Trees the printer accepts (it refuses Invalid items). */
  predicate Printable(j: Json)
    decreases j
  {
    match j
    case Invalid => false
    case Array(es) => forall e | e in es :: Printable(e)
    case Object(ms, _) => forall m | m in ms :: Printable(m.value)
    case _ => true
  }

  /** Trees whose numbers are 32-bit integers and whose strings are C strings. */
  predicate Plain(j: Json)
    decreases j
  {
    match j
    case Number(d) => IsInt32(d)
    case String(s) => '\0' !in s
    case Raw(s) => '\0' !in s
    case Array(es) => forall e | e in es :: Plain(e)
    case Object(ms, _) => forall m | m in ms :: '\0' !in m.key && Plain(m.value)
    case _ => true
  }

  lemma {:induction false} EscapeNoNul(s: Str)
    requires '\0' !in s
    ensures '\0' !in Escape(s)
  {
    if s != "" { EscapeNoNul(s[1..]); }
  }

  /** No NUL is ever printed, so the text ends at its terminator. */
  lemma {:induction false} TextNoNul(j: Json, format: bool, depth: nat)
    requires Plain(j)
    ensures '\0' !in Text(j, format, depth)
    decreases j
  {
    match j
    case String(s) => EscapeNoNul(s);
    case Array(es) => ElemsNoNul(es, format, depth + 1);
    case Object(ms, _) => MembersNoNul(ms, format, depth + 1);
    case _ =>
  }

  lemma {:induction false} ElemsNoNul(es: seq<Json>, format: bool, depth: nat)
    requires forall e | e in es :: Plain(e)
    ensures '\0' !in ElemsText(es, format, depth)
    decreases es
  {
    if es != [] {
      TextNoNul(es[0], format, depth);
      ElemsNoNul(es[1..], format, depth);
    }
  }

  lemma {:induction false} MembersNoNul(ms: seq<Member<Json>>, format: bool, depth: nat)
    requires forall m | m in ms :: '\0' !in m.key && Plain(m.value)
    ensures '\0' !in MembersText(ms, format, depth)
    decreases ms
  {
    if ms != [] {
      assert ms[0] in ms;
      EscapeNoNul(ms[0].key);
      TextNoNul(ms[0].value, format, depth);
      MembersNoNul(ms[1..], format, depth);
    }
  }
}
