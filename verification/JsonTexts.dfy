/** The texts that the parser accepts, as a grammar with what each text means: white space, separators, escapes and
    numbers. A text is parsed exactly when the grammar derives it, and to what it means there. */
module JsonTexts {
  import opened CStrings
  import opened JsonTrees
  import opened SiblingLinks
  import opened StringLiterals
  import opened Texts
  import opened Grammar
  import opened TextRoundTrip
  import N = Numerals
  import L = LiteralTexts

  // ---------- the grammar ----------

  datatype Syntax =
    | Word(word: Str)
    | Numeral(numeral: N.Numeral)
    | Literal(parts: seq<L.Part>)
    | List(blank: Str, items: seq<Item>)
    | Record(blank: Str, fields: seq<Field>)

  /** A value and the white space around it. */
  datatype Item = Item(before: Str, value: Syntax, after: Str)

  /** A name and the white space around it, and the value behind the colon. */
  datatype Field = Field(before: Str, name: seq<L.Part>, after: Str, item: Item)

  function Spelled(x: Syntax): Str
    decreases x, 0
  {
    match x
    case Word(w) => w
    case Numeral(n) => N.Spelled(n)
    case Literal(ps) => SpelledLiteral(ps)
    case List(blank, items) => "[" + ((if items == [] then blank else SpelledItems(items)) + "]")
    case Record(blank, fields) => "{" + ((if fields == [] then blank else SpelledFields(fields)) + "}")
  }

  function SpelledLiteral(ps: seq<L.Part>): Str {
    "\"" + (L.SpelledParts(ps) + "\"")
  }

  function SpelledItem(it: Item): Str
    decreases it, 1
  {
    it.before + (Spelled(it.value) + it.after)
  }

  function SpelledItems(items: seq<Item>): Str
    decreases items
  {
    if items == [] then ""
    else if |items| == 1 then SpelledItem(items[0])
    else SpelledItem(items[0]) + ("," + SpelledItems(items[1..]))
  }

  function SpelledField(f: Field): Str
    decreases f, 1
  {
    f.before + (SpelledLiteral(f.name) + (f.after + (":" + SpelledItem(f.item))))
  }

  function SpelledFields(fields: seq<Field>): Str
    decreases fields
  {
    if fields == [] then ""
    else if |fields| == 1 then SpelledField(fields[0])
    else SpelledField(fields[0]) + ("," + SpelledFields(fields[1..]))
  }

  predicate IsBlank(s: Str) {
    forall c | c in s :: c as int <= 32
  }

  /** Only the closing quote of a literal is not escaped. */
  ghost predicate ProperLiteral(ps: seq<L.Part>) {
    L.ProperParts(ps) && L.Closes(SpelledLiteral(ps), 1, |L.SpelledParts(ps)| + 1)
  }

  /** A proper text in front of some rest: numbers are not cut short. */
  ghost predicate Proper(x: Syntax, rest: Str)
    decreases x, 0
  {
    match x
    case Word(w) => w == "null" || w == "false" || w == "true"
    case Numeral(n) =>
      N.Longest(n, N.Spelled(n) + rest, 63) && N.Spelled(n)[0] != '+' && N.Spelled(n)[0] != '.'
    case Literal(ps) => ProperLiteral(ps)
    case List(blank, items) => IsBlank(blank) && ProperItems(items, "]" + rest)
    case Record(blank, fields) => IsBlank(blank) && ProperFields(fields, "}" + rest)
  }

  ghost predicate ProperItem(it: Item, rest: Str)
    decreases it, 1
  {
    IsBlank(it.before) && IsBlank(it.after) && Proper(it.value, it.after + rest)
  }

  ghost predicate ProperItems(items: seq<Item>, rest: Str)
    decreases items
  {
    if items == [] then true
    else if |items| == 1 then ProperItem(items[0], rest)
    else ProperItem(items[0], "," + SpelledItems(items[1..]) + rest) && ProperItems(items[1..], rest)
  }

  ghost predicate ProperField(f: Field, rest: Str)
    decreases f, 1
  {
    IsBlank(f.before) && ProperLiteral(f.name) && IsBlank(f.after) && ProperItem(f.item, rest)
  }

  ghost predicate ProperFields(fields: seq<Field>, rest: Str)
    decreases fields
  {
    if fields == [] then true
    else if |fields| == 1 then ProperField(fields[0], rest)
    else ProperField(fields[0], "," + SpelledFields(fields[1..]) + rest) && ProperFields(fields[1..], rest)
  }

  // ---------- what a text means ----------

  /** The bytes of a literal up to the first NUL among them. */
  ghost function MeansText(ps: seq<L.Part>): Str
    requires L.ProperParts(ps)
  {
    CString(L.BytesOfParts(ps))
  }

  ghost predicate Means(x: Syntax, j: Json)
    decreases x, 0
  {
    match x
    case Word(w) => j == (if w == "null" then Null else if w == "true" then True else False)
    case Numeral(n) => N.Proper(n) && j == Number(N.Value(n))
    case Literal(ps) => L.ProperParts(ps) && j == String(MeansText(ps))
    case List(_, items) => j.Array? && MeansItems(items, j.elems)
    case Record(_, fields) => j.Object? && j.link == Right && MeansFields(fields, j.members)
  }

  ghost predicate MeansItems(items: seq<Item>, es: seq<Json>)
    decreases items
  {
    |items| == |es| && (items != [] ==> Means(items[0].value, es[0]) && MeansItems(items[1..], es[1..]))
  }

  ghost predicate MeansFields(fields: seq<Field>, ms: seq<Member<Json>>)
    decreases fields
  {
    |fields| == |ms|
    && (fields != [] ==>
          L.ProperParts(fields[0].name) && ms[0].key == MeansText(fields[0].name)
          && Means(fields[0].item.value, ms[0].value) && MeansFields(fields[1..], ms[1..]))
  }

  /** How many lists and records are nested in a text. */
  function Depth(x: Syntax): nat
    decreases x, 0
  {
    match x
    case List(_, items) => 1 + ItemsDepth(items)
    case Record(_, fields) => 1 + FieldsDepth(fields)
    case _ => 0
  }

  function ItemsDepth(items: seq<Item>): nat
    decreases items
  {
    if items == [] then 0 else Max(Depth(items[0].value), ItemsDepth(items[1..]))
  }

  function FieldsDepth(fields: seq<Field>): nat
    decreases fields
  {
    if fields == [] then 0 else Max(Depth(fields[0].item.value), FieldsDepth(fields[1..]))
  }

  // ---------- texts in a window ----------

  ghost predicate Found(s: Str, o: nat, t: Str, rest: Str) {
    o <= |s| && s[o..] == t + rest
  }

  lemma FoundParts(s: Str, o: nat, a: Str, b: Str, rest: Str)
    requires Found(s, o, a + b, rest)
    ensures o + |a| <= |s| && Found(s, o, a, b + rest) && Found(s, o + |a|, b, rest)
  {
    Assoc(a, b, rest);
    DropPrefix(a, b + rest);
    assert s[o..][|a|..] == s[o + |a|..];
  }

  lemma FoundHere(s: Str, o: nat, t: Str, rest: Str)
    requires Found(s, o, t, rest)
    ensures o + |t| <= |s| && s[o..o + |t|] == t && Reads(s, o, t) && s[o + |t|..] == rest
    ensures t != "" ==> s[o] == t[0]
    ensures rest != "" ==> o + |t| < |s| && s[o + |t|] == rest[0]
  {
    DropPrefix(t, rest);
    assert s[o..][..|t|] == s[o..o + |t|] && s[o..][|t|..] == s[o + |t|..];
    assert t != "" ==> s[o..][0] == s[o];
    assert rest != "" ==> s[o + |t|..][0] == s[o + |t|];
  }

  /** White space in front of something else is skipped. */
  lemma BlankSkipped(s: Str, o: nat, b: Str, rest: Str)
    requires Found(s, o, b, rest) && IsBlank(b) && rest != "" && rest[0] as int > 32
    ensures o + |b| < |s| && SkipWs(s, o) == o + |b| && s[o + |b|] == rest[0]
  {
    FoundHere(s, o, b, rest);
    forall i | o <= i < o + |b| ensures s[i] as int <= 32 { assert s[i] == s[o..o + |b|][i - o] && b[i - o] in b; }
    SkipBlank(s, o, o + |b|);
  }

  // ---------- what the grammar derives is parsed ----------

  lemma ValueBegins(x: Syntax, rest: Str)
    requires Proper(x, rest)
    ensures var t := Spelled(x); t != "" && t[0] as int > 32 && t[0] != ']' && t[0] != '}'
  {
    if x.Numeral? { NumeralBegins(x.numeral); }
  }

  lemma NumeralBegins(n: N.Numeral)
    requires N.Proper(n) && N.Spelled(n)[0] != '+' && N.Spelled(n)[0] != '.'
    ensures N.Spelled(n)[0] == '-' || IsDigit(N.Spelled(n)[0])
  {
    N.NumeralChars(n);
    assert N.Spelled(n)[0] in N.Spelled(n);
    if N.Spelled(n)[0] == 'e' || N.Spelled(n)[0] == 'E' { PowerIsNotFirst(n); }
  }

  lemma PowerIsNotFirst(n: N.Numeral)
    requires N.Proper(n)
    ensures N.Spelled(n)[0] != 'e' && N.Spelled(n)[0] != 'E'
  {
    if n.sign != "" {
      assert N.Spelled(n)[0] == n.sign[0];
    } else if n.whole != "" {
      assert N.Spelled(n)[0] == n.whole[0] && n.whole[0] in n.whole;
    } else {
      assert N.Spelled(n)[0] == '.';
    }
  }

  lemma NumeralParsed(n: N.Numeral, s: Str, o: nat, rest: Str)
    requires Window(s) && o < |s| && Found(s, o, N.Spelled(n), rest) && Proper(Numeral(n), rest)
    ensures s[o] == '-' || IsDigit(s[o])
    ensures ParseNumber(s, o) == Parsed(Number(N.Value(n)), o + |N.Spelled(n)|)
  {
    hide N.Spelled, N.Proper, N.Value, ParseNumber;
    NumeralBegins(n);
    FoundHere(s, o, N.Spelled(n), rest);
    N.NumbersAreNumerals(s, o);
    var p := ParseNumber(s, o);
    if p.Parsed? && p.value.Number? {
      var m :| N.Longest(m, s[o..], 63) && p.value.num == N.Value(m) && p.next == o + |N.Spelled(m)|;
      N.LongestIsUnique(m, n, s[o..], 63);
    }
  }

  lemma LiteralParsed(ps: seq<L.Part>, s: Str, o: nat, rest: Str)
    requires Window(s) && o < |s| && Found(s, o, SpelledLiteral(ps), rest) && ProperLiteral(ps)
    ensures s[o] == '\"' && ParseString(s, o) == Parsed(MeansText(ps), o + |SpelledLiteral(ps)|)
  {
    hide L.SpelledParts, L.ProperParts, L.BytesOfParts, L.Closes, CString, Decode, LiteralEnd;
    var t, n := SpelledLiteral(ps), |L.SpelledParts(ps)|;
    FoundHere(s, o, t, rest);
    var end := o + n + 1;
    L.ClosesMoved(s, o, t, n + 1);
    L.LiteralEndsExactly(s, o + 1, end);
    assert s[o + 1..end] == t[1..n + 1] == L.SpelledParts(ps);
    L.PartsDecoded(ps, s, o + 1, end);
  }

  lemma {:induction false} ValueParsed(x: Syntax, j: Json, s: Str, o: nat, d: nat, rest: Str)
    requires Window(s) && o < |s| && Found(s, o, Spelled(x), rest) && Proper(x, rest) && Means(x, j)
    requires d + Depth(x) <= CJSON_NESTING_LIMIT && rest != ""
    ensures ParseValue(s, o, d) == Parsed(j, o + |Spelled(x)|)
    decreases x, 3
  {
    hide ParseValue, ParseString, ParseNumber, Found, ProperLiteral, MeansText, SpelledLiteral;
    FoundHere(s, o, Spelled(x), rest);
    Dispatch(s, o, d);
    match x {
      case Word(w) =>
      case Numeral(n) => NumeralParsed(n, s, o, rest);
      case Literal(ps) => LiteralParsed(ps, s, o, rest);
      case List(blank, items) => ListParsed(blank, items, j, s, o, d, rest);
      case Record(blank, fields) => RecordParsed(blank, fields, j, s, o, d, rest);
    }
  }

  /** What parse_value makes of a list, from its opening bracket on. */
  lemma ListStep(s: Str, o: nat, d: nat)
    requires Window(s) && o < |s| && s[o] == '[' && d <= CJSON_NESTING_LIMIT
    ensures o < |s| - 1 &&
            var p, first := ParseValue(s, o, d), SkipWs(s, o + 1);
            if d == CJSON_NESTING_LIMIT then p == Failed(o)
            else if s[first] == ']' then p == Parsed(Array([]), first + 1)
            else
              match ParseElems(s, o, d + 1)
              case Failed(at) => p == Failed(at)
              case Parsed(es, e) => p == Parsed(Array(es), e)
  {
    hide ParseValue, ParseElems, SkipWs;
    Dispatch(s, o, d);
    if d < CJSON_NESTING_LIMIT { SkippedElems(s, o, d + 1); }
  }

  lemma {:induction false} ListParsed(blank: Str, items: seq<Item>, j: Json, s: Str, o: nat, d: nat, rest: Str)
    requires Window(s) && o < |s| && Found(s, o, Spelled(List(blank, items)), rest)
    requires IsBlank(blank) && ProperItems(items, "]" + rest) && j.Array? && MeansItems(items, j.elems)
    requires d + 1 + ItemsDepth(items) <= CJSON_NESTING_LIMIT && rest != ""
    ensures ParseValue(s, o, d) == Parsed(j, o + |Spelled(List(blank, items))|)
    decreases items, 6
  {
    hide ParseValue, ParseElems, Found, SpelledItems, ProperItems, MeansItems, ItemsDepth, SkipWs, IsBlank, Window;
    var body := if items == [] then blank else SpelledItems(items);
    ListFound("[", body, "]", s, o, rest);
    ListStep(s, o, d);
    if items == [] {
      BlankSkipped(s, o + 1, blank, "]" + rest);
      NoItems(j.elems);
    } else {
      ItemsBegin(items, s, o + 1, "]" + rest);
      ItemsParsed(items, j.elems, s, o, d + 1, rest);
    }
  }

  lemma ListFound(open: Str, body: Str, close: Str, s: Str, o: nat, rest: Str)
    requires |open| == 1 && |close| == 1 && Found(s, o, open + (body + close), rest)
    ensures o < |s| && s[o] == open[0] && Found(s, o + 1, body, close + rest) && (close + rest)[0] == close[0]
  {
    hide Found;
    FoundParts(s, o, open, body + close, rest);
    FoundHere(s, o, open, body + close + rest);
    FoundParts(s, o + 1, body, close, rest);
  }

  lemma NoItems(es: seq<Json>)
    requires MeansItems([], es)
    ensures es == []
  {
  }

  /** The first thing in a list that is not empty is no closing bracket. */
  lemma ItemsBegin(items: seq<Item>, s: Str, o: nat, rest: Str)
    requires items != [] && Found(s, o, SpelledItems(items), rest) && ProperItems(items, rest)
    ensures o < |s| && SkipWs(s, o) < |s| && s[SkipWs(s, o)] != ']'
  {
    hide Found, Proper, Spelled, SkipWs, IsBlank;
    var it := items[0];
    var more := if |items| == 1 then "" else "," + SpelledItems(items[1..]);
    assert SpelledItems(items) == SpelledItem(it) + more by { assert SpelledItem(it) + "" == SpelledItem(it); }
    assert ProperItem(it, more + rest) by { assert "" + rest == rest; }
    FoundParts(s, o, SpelledItem(it), more, rest);
    ItemBegins(it, s, o, more + rest);
  }

  lemma ItemBegins(it: Item, s: Str, o: nat, rest: Str)
    requires Found(s, o, SpelledItem(it), rest) && ProperItem(it, rest)
    ensures var v := o + |it.before|;
            v < |s| && SkipWs(s, o) == v && s[v] != ']' && s[v] as int > 32
            && Found(s, v, Spelled(it.value), it.after + rest)
  {
    hide Found, Proper, Spelled, SkipWs, IsBlank;
    var value := Spelled(it.value);
    ValueBegins(it.value, it.after + rest);
    FoundParts(s, o, it.before, value + it.after, rest);
    FoundParts(s, o + |it.before|, value, it.after, rest);
    FoundHere(s, o + |it.before|, value, it.after + rest);
    assert (value + it.after + rest)[0] == value[0];
    BlankSkipped(s, o, it.before, value + it.after + rest);
  }

  /** The loop begins at the same item whether white space in front of it is skipped before or not. */
  lemma SkippedElems(s: Str, o: nat, d: nat)
    requires Window(s) && o < |s| - 1 && d <= CJSON_NESTING_LIMIT
    ensures var first := SkipWs(s, o + 1);
            first > 0 && ParseElems(s, first - 1, d) == ParseElems(s, o, d)
            && ParseMembers(s, first - 1, d) == ParseMembers(s, o, d)
  {
    hide ParseValue, ParseString, SkipWs;
    SkippedTwice(s, o + 1);
  }

  lemma SkippedTwice(s: Str, o: nat)
    requires o < |s|
    ensures SkipWs(s, SkipWs(s, o)) == SkipWs(s, o)
  {
    EndOfBlank(s, o);
  }

  lemma {:induction false} EndOfBlank(s: Str, o: nat)
    requires o <= |s|
    ensures var e := WsEnd(s, o);
            (forall i | o <= i < e :: s[i] as int <= 32) && (e < |s| ==> s[e] as int > 32)
    decreases |s| - o
  {
    if o < |s| && s[o] as int <= 32 { EndOfBlank(s, o + 1); }
  }

  /** Where the value of an item is, and what is behind it. */
  lemma ItemFound(it: Item, s: Str, o: nat, rest: Str)
    requires Found(s, o, SpelledItem(it), rest) && ProperItem(it, rest)
    ensures var v, t := o + |it.before|, Spelled(it.value);
            v < |s| && SkipWs(s, o) == v && Found(s, v, t, it.after + rest) && Found(s, v + |t|, it.after, rest)
            && Proper(it.value, it.after + rest) && IsBlank(it.after) && v + |t| <= |s|
            && o + |SpelledItem(it)| == v + |t| + |it.after|
  {
    hide Found, Proper, Spelled, SkipWs, IsBlank;
    ItemBegins(it, s, o, rest);
    FoundParts(s, o, it.before, Spelled(it.value) + it.after, rest);
    FoundParts(s, o + |it.before|, Spelled(it.value), it.after, rest);
  }

  lemma ElemStep(s: Str, o: nat, d: nat, j: Json, n: nat)
    requires Window(s) && o < |s| - 1 && d <= CJSON_NESTING_LIMIT && ParseValue(s, SkipWs(s, o + 1), d) == Parsed(j, n)
    ensures n < |s| && ParseElem(s, o, d) == Parsed(j, SkipWs(s, n))
  {
    hide ParseValue, SkipWs;
  }

  lemma {:induction false} ItemParsed(it: Item, j: Json, s: Str, o: nat, d: nat, rest: Str)
    requires Window(s) && o < |s| - 1 && Found(s, o + 1, SpelledItem(it), rest) && ProperItem(it, rest)
    requires Means(it.value, j) && d + Depth(it.value) <= CJSON_NESTING_LIMIT && rest != "" && rest[0] as int > 32
    ensures ParseElem(s, o, d) == Parsed(j, o + 1 + |SpelledItem(it)|)
    decreases it, 4
  {
    hide Found, Proper, Spelled, SkipWs, IsBlank, ParseValue, Means, Depth, ParseElem, Window, SpelledItem, ProperItem;
    ItemFound(it, s, o + 1, rest);
    var v := o + 1 + |it.before|;
    ValueParsed(it.value, j, s, v, d, it.after + rest);
    ElemStep(s, o, d, j, v + |Spelled(it.value)|);
    BlankSkipped(s, v + |Spelled(it.value)|, it.after, rest);
  }

  lemma ElemsStep(s: Str, o: nat, d: nat)
    requires Window(s) && o < |s| - 1 && d <= CJSON_NESTING_LIMIT
    ensures match ParseElem(s, o, d)
            case Failed(at) => ParseElems(s, o, d) == Failed(at)
            case Parsed(v, e) =>
              ParseElems(s, o, d) == if s[e] == ',' then Behind([v], ParseElems(s, e, d))
                                     else if s[e] == ']' then Parsed([v], e + 1) else Failed(e)
  {
    hide ParseElem;
  }

  lemma OneItem(items: seq<Item>, es: seq<Json>, rest: Str)
    requires |items| == 1 && ProperItems(items, rest) && MeansItems(items, es)
    ensures SpelledItems(items) == SpelledItem(items[0]) && ProperItem(items[0], rest)
    ensures es == [es[0]] && Means(items[0].value, es[0]) && ItemsDepth(items) == Depth(items[0].value)
  {
    hide Means, SpelledItem, ProperItem, Depth;
  }

  lemma MoreItems(items: seq<Item>, es: seq<Json>, rest: Str)
    requires |items| > 1 && ProperItems(items, rest) && MeansItems(items, es)
    ensures var more := SpelledItems(items[1..]);
            SpelledItems(items) == SpelledItem(items[0]) + ("," + more)
            && ProperItem(items[0], "," + more + rest) && ProperItems(items[1..], rest)
    ensures es == [es[0]] + es[1..] && Means(items[0].value, es[0]) && MeansItems(items[1..], es[1..])
    ensures ItemsDepth(items) == Max(Depth(items[0].value), ItemsDepth(items[1..]))
  {
    hide Means, SpelledItem, ProperItem, Depth;
  }

  lemma {:induction false} ItemsParsed(items: seq<Item>, es: seq<Json>, s: Str, o: nat, d: nat, rest: Str)
    requires Window(s) && o < |s| - 1 && items != [] && Found(s, o + 1, SpelledItems(items), "]" + rest)
    requires ProperItems(items, "]" + rest) && MeansItems(items, es) && d + ItemsDepth(items) <= CJSON_NESTING_LIMIT
    ensures ParseElems(s, o, d) == Parsed(es, o + 1 + |SpelledItems(items)| + 1)
    decreases items, 5
  {
    hide Found, ProperItem, SpelledItem, ParseElem, Means, Depth, SpelledItems, ProperItems, MeansItems, ItemsDepth;
    hide ParseElems, Window;
    var it, e := items[0], o + 1 + |SpelledItem(items[0])|;
    ElemsStep(s, o, d);
    if |items| == 1 {
      OneItem(items, es, "]" + rest);
      FoundHere(s, o + 1, SpelledItem(it), "]" + rest);
      ItemParsed(it, es[0], s, o, d, "]" + rest);
    } else {
      MoreItems(items, es, "]" + rest);
      var more := SpelledItems(items[1..]);
      NextFound(SpelledItem(it), more, s, o + 1, "]" + rest);
      ItemParsed(it, es[0], s, o, d, "," + more + ("]" + rest));
      ItemsParsed(items[1..], es[1..], s, e, d, rest);
    }
  }

  /** Behind a comma the rest is found. */
  lemma NextFound(first: Str, more: Str, s: Str, o: nat, rest: Str)
    requires Found(s, o, first + ("," + more), rest) && rest != ""
    ensures var e := o + |first|;
            e + 1 < |s| && s[e] == ',' && Found(s, o, first, "," + more + rest) && Found(s, e + 1, more, rest)
            && ("," + more + rest)[0] == ','
  {
    hide Found;
    FoundParts(s, o, first, "," + more, rest);
    FoundHere(s, o, first, "," + more + rest);
    FoundParts(s, o + |first|, ",", more, rest);
    FoundHere(s, o + |first| + 1, more, rest);
  }

  lemma RecordStep(s: Str, o: nat, d: nat)
    requires Window(s) && o < |s| && s[o] == '{' && d <= CJSON_NESTING_LIMIT
    ensures o < |s| - 1 &&
            var p, first := ParseValue(s, o, d), SkipWs(s, o + 1);
            if d == CJSON_NESTING_LIMIT then p == Failed(o)
            else if s[first] == '}' then p == Parsed(Object([]), first + 1)
            else
              match ParseMembers(s, o, d + 1)
              case Failed(at) => p == Failed(at)
              case Parsed(ms, e) => p == Parsed(Object(ms), e)
  {
    hide ParseValue, ParseMembers, SkipWs;
    Dispatch(s, o, d);
    if d < CJSON_NESTING_LIMIT { SkippedElems(s, o, d + 1); }
  }

  lemma {:induction false} RecordParsed(blank: Str, fields: seq<Field>, j: Json, s: Str, o: nat, d: nat, rest: Str)
    requires Window(s) && o < |s| && Found(s, o, Spelled(Record(blank, fields)), rest)
    requires IsBlank(blank) && ProperFields(fields, "}" + rest) && j.Object? && j.link == Right
    requires MeansFields(fields, j.members)
    requires d + 1 + FieldsDepth(fields) <= CJSON_NESTING_LIMIT && rest != ""
    ensures ParseValue(s, o, d) == Parsed(j, o + |Spelled(Record(blank, fields))|)
    decreases fields, 6
  {
    hide ParseValue, ParseMembers, Found, SpelledFields, ProperFields, MeansFields, FieldsDepth, SkipWs, IsBlank;
    hide Window;
    var body := if fields == [] then blank else SpelledFields(fields);
    ListFound("{", body, "}", s, o, rest);
    RecordStep(s, o, d);
    if fields == [] {
      BlankSkipped(s, o + 1, blank, "}" + rest);
      NoFields(j.members);
    } else {
      FieldsBegin(fields, s, o + 1, "}" + rest);
      FieldsParsed(fields, j.members, s, o, d + 1, rest);
    }
  }

  lemma NoFields(ms: seq<Member<Json>>)
    requires MeansFields([], ms)
    ensures ms == []
  {
  }

  /** The first thing in a record that is not empty is the quote of a name. */
  lemma FieldsBegin(fields: seq<Field>, s: Str, o: nat, rest: Str)
    requires fields != [] && Found(s, o, SpelledFields(fields), rest) && ProperFields(fields, rest)
    ensures o < |s| && SkipWs(s, o) < |s| && s[SkipWs(s, o)] == '\"'
  {
    hide Found, ProperLiteral, SpelledLiteral, SpelledItem, SkipWs, IsBlank;
    var f := fields[0];
    var more := if |fields| == 1 then "" else "," + SpelledFields(fields[1..]);
    assert SpelledFields(fields) == SpelledField(f) + more by { assert SpelledField(f) + "" == SpelledField(f); }
    FoundParts(s, o, SpelledField(f), more, rest);
    FieldBegins(f, s, o, more + rest);
  }

  lemma FieldBegins(f: Field, s: Str, o: nat, rest: Str)
    requires Found(s, o, SpelledField(f), rest) && IsBlank(f.before)
    ensures var n := o + |f.before|;
            var c := n + |SpelledLiteral(f.name)| + |f.after|;
            n < |s| && SkipWs(s, o) == n && s[n] == '\"' && o <= n && c <= |s|
            && Found(s, n, SpelledLiteral(f.name), f.after + (":" + SpelledItem(f.item)) + rest)
            && Found(s, n + |SpelledLiteral(f.name)|, f.after, ":" + SpelledItem(f.item) + rest)
            && Found(s, c, ":", SpelledItem(f.item) + rest) && Found(s, c + 1, SpelledItem(f.item), rest)
  {
    hide Found, SpelledItem, SkipWs, IsBlank, L.SpelledParts;
    var name, item := SpelledLiteral(f.name), SpelledItem(f.item);
    var n := o + |f.before|;
    FoundParts(s, o, f.before, name + (f.after + (":" + item)), rest);
    FoundParts(s, n, name, f.after + (":" + item), rest);
    FoundHere(s, n, name, f.after + (":" + item) + rest);
    FoundParts(s, n + |name|, f.after, ":" + item, rest);
    FoundParts(s, n + |name| + |f.after|, ":", item, rest);
    BlankSkipped(s, o, f.before, name + (f.after + (":" + item)) + rest);
  }

  lemma NameParsed(f: Field, s: Str, o: nat, rest: Str)
    requires Window(s) && o < |s| - 1 && Found(s, o + 1, SpelledField(f), rest)
    requires IsBlank(f.before) && ProperLiteral(f.name) && IsBlank(f.after) && rest != ""
    ensures var c := o + 1 + |f.before| + |SpelledLiteral(f.name)| + |f.after|;
            ParseName(s, o) == Parsed(MeansText(f.name), c) && c < |s| - 1 && Found(s, c + 1, SpelledItem(f.item), rest)
  {
    hide Found, SpelledItem, SkipWs, IsBlank, SpelledLiteral, ProperLiteral, MeansText, ParseString, SpelledField;
    FieldBegins(f, s, o + 1, rest);
    var n := o + 1 + |f.before|;
    LiteralParsed(f.name, s, n, f.after + (":" + SpelledItem(f.item)) + rest);
    BlankSkipped(s, n + |SpelledLiteral(f.name)|, f.after, ":" + SpelledItem(f.item) + rest);
    var c := n + |SpelledLiteral(f.name)| + |f.after|;
    FoundHere(s, c, ":", SpelledItem(f.item) + rest);
  }

  lemma SpelledFieldLength(f: Field)
    ensures |SpelledField(f)|
            == |f.before| + |SpelledLiteral(f.name)| + |f.after| + 1 + |SpelledItem(f.item)|
  {
    hide SpelledLiteral, SpelledItem;
  }

  lemma MemberStep(s: Str, o: nat, d: nat, key: Str, c: nat, j: Json, e: nat)
    requires Window(s) && o < |s| - 1 && d <= CJSON_NESTING_LIMIT && ParseName(s, o) == Parsed(key, c)
    requires c < |s| - 1 && ParseElem(s, c, d) == Parsed(j, e)
    ensures ParseMember(s, o, d) == Parsed(Member(key, j), e)
  {
    hide ParseName, ParseElem;
  }

  lemma {:induction false} FieldParsed(f: Field, m: Member<Json>, s: Str, o: nat, d: nat, rest: Str)
    requires Window(s) && o < |s| - 1 && Found(s, o + 1, SpelledField(f), rest) && ProperField(f, rest)
    requires m.key == MeansText(f.name) && Means(f.item.value, m.value)
    requires d + Depth(f.item.value) <= CJSON_NESTING_LIMIT && rest != "" && rest[0] as int > 32
    ensures ParseMember(s, o, d) == Parsed(m, o + 1 + |SpelledField(f)|)
    decreases f, 4
  {
    hide Found, ProperItem, SpelledItem, SpelledField, IsBlank, ParseName, ParseElem, Means, Depth, SpelledLiteral;
    hide MeansText, ParseMember, Window, ProperLiteral;
    SpelledFieldLength(f);
    NameParsed(f, s, o, rest);
    var c := o + 1 + |f.before| + |SpelledLiteral(f.name)| + |f.after|;
    ItemParsed(f.item, m.value, s, c, d, rest);
    MemberStep(s, o, d, m.key, c, m.value, o + 1 + |SpelledField(f)|);
  }

  lemma MembersStep(s: Str, o: nat, d: nat)
    requires Window(s) && o < |s| - 1 && d <= CJSON_NESTING_LIMIT
    ensures match ParseMember(s, o, d)
            case Failed(at) => ParseMembers(s, o, d) == Failed(at)
            case Parsed(v, e) =>
              ParseMembers(s, o, d) == if s[e] == ',' then Behind([v], ParseMembers(s, e, d))
                                       else if s[e] == '}' then Parsed([v], e + 1) else Failed(e)
  {
    hide ParseMember;
  }

  lemma OneField(fields: seq<Field>, ms: seq<Member<Json>>, rest: Str)
    requires |fields| == 1 && ProperFields(fields, rest) && MeansFields(fields, ms)
    ensures SpelledFields(fields) == SpelledField(fields[0]) && ProperField(fields[0], rest) && ms == [ms[0]]
    ensures ms[0].key == MeansText(fields[0].name) && Means(fields[0].item.value, ms[0].value)
    ensures FieldsDepth(fields) == Depth(fields[0].item.value)
  {
    hide Means, MeansText, SpelledField, Depth, ProperItem;
  }

  lemma MoreFields(fields: seq<Field>, ms: seq<Member<Json>>, rest: Str)
    requires |fields| > 1 && ProperFields(fields, rest) && MeansFields(fields, ms)
    ensures var more := SpelledFields(fields[1..]);
            SpelledFields(fields) == SpelledField(fields[0]) + ("," + more)
            && ProperField(fields[0], "," + more + rest) && ProperFields(fields[1..], rest)
    ensures ms == [ms[0]] + ms[1..] && MeansFields(fields[1..], ms[1..])
    ensures ms[0].key == MeansText(fields[0].name) && Means(fields[0].item.value, ms[0].value)
    ensures FieldsDepth(fields) == Max(Depth(fields[0].item.value), FieldsDepth(fields[1..]))
  {
    hide Means, MeansText, SpelledField, Depth, ProperItem;
  }

  lemma {:induction false} FieldsParsed(fields: seq<Field>, ms: seq<Member<Json>>, s: Str, o: nat, d: nat, rest: Str)
    requires Window(s) && o < |s| - 1 && fields != [] && Found(s, o + 1, SpelledFields(fields), "}" + rest)
    requires ProperFields(fields, "}" + rest) && MeansFields(fields, ms)
    requires d + FieldsDepth(fields) <= CJSON_NESTING_LIMIT
    ensures ParseMembers(s, o, d) == Parsed(ms, o + 1 + |SpelledFields(fields)| + 1)
    decreases fields, 5
  {
    hide Found, SpelledField, ParseMember, Means, MeansText, Depth, SpelledFields, ProperFields, MeansFields;
    hide FieldsDepth;
    hide ParseMembers, Window, ProperItem, ProperField, ProperLiteral;
    var f, e := fields[0], o + 1 + |SpelledField(fields[0])|;
    MembersStep(s, o, d);
    if |fields| == 1 {
      OneField(fields, ms, "}" + rest);
      FoundHere(s, o + 1, SpelledField(f), "}" + rest);
      FieldParsed(f, ms[0], s, o, d, "}" + rest);
    } else {
      MoreFields(fields, ms, "}" + rest);
      var more := SpelledFields(fields[1..]);
      NextFound(SpelledField(f), more, s, o + 1, "}" + rest);
      FieldParsed(f, ms[0], s, o, d, "," + more + ("}" + rest));
      FieldsParsed(fields[1..], ms[1..], s, e, d, rest);
    }
  }

  // ---------- what is parsed the grammar derives ----------

  lemma FoundFrom(s: Str, o: nat, e: nat)
    requires o <= e <= |s|
    ensures Found(s, o, s[o..e], s[e..])
  {
  }

  lemma FoundTogether(s: Str, o: nat, a: Str, b: Str, rest: Str)
    requires Found(s, o, a, b + rest)
    ensures Found(s, o, a + b, rest)
  {
    Assoc(a, b, rest);
  }

  lemma Skipped(s: Str, o: nat)
    requires o < |s|
    ensures IsBlank(s[o..SkipWs(s, o)])
  {
    EndOfBlank(s, o);
  }

  lemma WordDerived(s: Str, o: nat, word: Str)
    requires o <= |s| && Reads(s, o, word)
    ensures o + |word| <= |s| && Found(s, o, word, s[o + |word|..])
  {
    FoundFrom(s, o, o + |word|);
  }

  lemma LiteralDerived(s: Str, o: nat) returns (ps: seq<L.Part>)
    requires Window(s) && o < |s| && ParseString(s, o).Parsed?
    ensures var p := ParseString(s, o);
            Found(s, o, SpelledLiteral(ps), s[p.next..]) && ProperLiteral(ps) && L.ProperParts(ps)
            && p.value == MeansText(ps)
  {
    hide L.SpelledParts, L.ProperParts, L.BytesOfParts, L.Closes, CString, Decode, LiteralEnd;
    var end := LiteralEnd(s, o + 1).value;
    ps := L.DecodedParts(s, o + 1, end);
    var t := SpelledLiteral(ps);
    assert t == s[o..end + 1] by { Quotes(s, o, end); }
    FoundFrom(s, o, end + 1);
    L.LiteralEndsExactly(s, o + 1, end);
    L.ClosesMoved(s, o, t, |L.SpelledParts(ps)| + 1);
  }

  lemma Quotes(s: Str, o: nat, end: nat)
    requires o < end < |s| && s[o] == s[end] == '\"'
    ensures s[o..end + 1] == "\"" + (s[o + 1..end] + "\"")
  {
  }

  lemma NumeralDerived(s: Str, o: nat) returns (n: N.Numeral)
    requires Window(s) && o < |s| && ParseNumber(s, o).Parsed? && (s[o] == '-' || IsDigit(s[o]))
    ensures var p := ParseNumber(s, o);
            Found(s, o, N.Spelled(n), s[p.next..]) && Proper(Numeral(n), s[p.next..]) && Means(Numeral(n), p.value)
  {
    hide N.Spelled, N.Proper, N.Value, ParseNumber;
    N.NumbersAreNumerals(s, o);
    var p := ParseNumber(s, o);
    NumberParsed(s, o);
    n :| N.Longest(n, s[o..], 63) && p.value.num == N.Value(n) && p.next == o + |N.Spelled(n)|;
    NumeralFound(n, s, o);
  }

  lemma NumberParsed(s: Str, o: nat)
    requires Window(s) && o < |s| && ParseNumber(s, o).Parsed?
    ensures ParseNumber(s, o).value.Number?
  {
  }

  lemma NumeralFound(n: N.Numeral, s: Str, o: nat)
    requires o < |s| && N.Longest(n, s[o..], 63) && (s[o] == '-' || IsDigit(s[o]))
    ensures o + |N.Spelled(n)| <= |s|
    ensures Found(s, o, N.Spelled(n), s[o + |N.Spelled(n)|..]) && Proper(Numeral(n), s[o + |N.Spelled(n)|..])
  {
    hide N.Spelled, N.Proper, N.Value;
    var t := N.Spelled(n);
    assert s[o..] == t + s[o + |t|..];
    NumeralNotEmpty(n);
    assert t[0] == s[o..][0] == s[o];
  }

  lemma NumeralNotEmpty(n: N.Numeral)
    requires N.Proper(n)
    ensures N.Spelled(n) != ""
  {
  }

  lemma {:induction false} ValueDerived(s: Str, o: nat, d: nat) returns (x: Syntax)
    requires Window(s) && o < |s| && d <= CJSON_NESTING_LIMIT && ParseValue(s, o, d).Parsed?
    ensures var p := ParseValue(s, o, d);
            Found(s, o, Spelled(x), s[p.next..]) && Proper(x, s[p.next..]) && Means(x, p.value)
            && d + Depth(x) <= CJSON_NESTING_LIMIT
    decreases |s| - o, 4
  {
    hide ParseString, ParseNumber, ParseArray, ParseObject, ProperLiteral, MeansText, SpelledLiteral, Found, Reads;
    if Reads(s, o, "null") {
      WordDerived(s, o, "null");
      x := Word("null");
    } else if Reads(s, o, "false") {
      WordDerived(s, o, "false");
      x := Word("false");
    } else if Reads(s, o, "true") {
      WordDerived(s, o, "true");
      x := Word("true");
    } else if s[o] == '\"' {
      var ps := LiteralDerived(s, o);
      x := Literal(ps);
    } else if s[o] == '-' || IsDigit(s[o]) {
      var n := NumeralDerived(s, o);
      x := Numeral(n);
    } else if s[o] == '[' {
      x := ListDerived(s, o, d);
    } else {
      x := RecordDerived(s, o, d);
    }
  }

  lemma {:induction false} ListDerived(s: Str, o: nat, d: nat) returns (x: Syntax)
    requires Window(s) && o < |s| && s[o] == '[' && d <= CJSON_NESTING_LIMIT && ParseValue(s, o, d).Parsed?
    ensures var p := ParseValue(s, o, d);
            Found(s, o, Spelled(x), s[p.next..]) && Proper(x, s[p.next..]) && Means(x, p.value)
            && d + Depth(x) <= CJSON_NESTING_LIMIT
    decreases |s| - o, 3
  {
    hide ParseValue, ParseElems, Found, SpelledItems, ProperItems, MeansItems, ItemsDepth, SkipWs, IsBlank;
    ListStep(s, o, d);
    var first, e := SkipWs(s, o + 1), ParseValue(s, o, d).next;
    if s[first] == ']' {
      var blank := s[o + 1..first];
      Skipped(s, o + 1);
      FoundFrom(s, o + 1, first);
      assert s[first..] == "]" + s[e..];
      ListAround("[", blank, "]", s, o, s[e..]);
      EmptyList("]" + s[e..]);
      x := List(blank, []);
    } else {
      var items := ElemsDerived(s, o, d + 1);
      ListAround("[", SpelledItems(items), "]", s, o, s[e..]);
      NoBlank();
      x := List("", items);
    }
  }

  lemma NoBlank()
    ensures IsBlank("")
  {
  }

  lemma EmptyList(rest: Str)
    ensures ProperItems([], rest) && MeansItems([], []) && ItemsDepth([]) == 0
    ensures ProperFields([], rest) && MeansFields([], []) && FieldsDepth([]) == 0
  {
  }

  lemma ListAround(open: Str, body: Str, close: Str, s: Str, o: nat, rest: Str)
    requires |open| == 1 && o < |s| && s[o] == open[0] && Found(s, o + 1, body, close + rest)
    ensures Found(s, o, open + (body + close), rest)
  {
    FoundTogether(s, o + 1, body, close, rest);
    assert s[o..] == open + s[o + 1..];
    FoundTogether(s, o, open, body + close, rest);
  }

  lemma {:induction false} ElemDerived(s: Str, o: nat, d: nat) returns (it: Item)
    requires Window(s) && o < |s| - 1 && d <= CJSON_NESTING_LIMIT && ParseElem(s, o, d).Parsed?
    ensures var p := ParseElem(s, o, d);
            Found(s, o + 1, SpelledItem(it), s[p.next..]) && ProperItem(it, s[p.next..]) && Means(it.value, p.value)
            && d + Depth(it.value) <= CJSON_NESTING_LIMIT
    decreases |s| - o, 1
  {
    hide Found, Proper, Spelled, SkipWs, IsBlank, ParseValue, Means, Depth;
    var v, e := SkipWs(s, o + 1), ParseElem(s, o, d).next;
    var x := ValueDerived(s, v, d);
    var n := ParseValue(s, v, d).next;
    Skipped(s, o + 1);
    Skipped(s, n);
    it := Item(s[o + 1..v], x, s[n..e]);
    assert s[n..] == s[n..e] + s[e..];
    FoundTogether(s, v, Spelled(x), s[n..e], s[e..]);
    FoundBefore(s, o + 1, v, Spelled(x) + s[n..e], s[e..]);
  }

  lemma FoundBefore(s: Str, o: nat, v: nat, t: Str, rest: Str)
    requires o <= v && Found(s, v, t, rest)
    ensures v <= |s| && Found(s, o, s[o..v] + t, rest)
  {
    FoundFrom(s, o, v);
    FoundTogether(s, o, s[o..v], t, rest);
  }

  lemma {:induction false} ElemsDerived(s: Str, o: nat, d: nat) returns (items: seq<Item>)
    requires Window(s) && o < |s| - 1 && d <= CJSON_NESTING_LIMIT && ParseElems(s, o, d).Parsed?
    ensures var p := ParseElems(s, o, d);
            items != [] && Found(s, o + 1, SpelledItems(items), "]" + s[p.next..])
            && ProperItems(items, "]" + s[p.next..]) && MeansItems(items, p.value)
            && d + ItemsDepth(items) <= CJSON_NESTING_LIMIT
    decreases |s| - o, 2
  {
    hide Found, ProperItem, SpelledItem, ParseElem, Means, Depth, SpelledItems, ProperItems, MeansItems, ItemsDepth;
    hide ParseElems;
    ElemsStep(s, o, d);
    var it := ElemDerived(s, o, d);
    var v, e := ParseElem(s, o, d).value, ParseElem(s, o, d).next;
    var rest := "]" + s[ParseElems(s, o, d).next..];
    if s[e] == ',' {
      var more := ElemsDerived(s, e, d);
      CommaFound(SpelledItem(it), SpelledItems(more), s, o + 1, e, rest);
      ItemInFront(it, more, v, ParseElems(s, e, d).value, rest);
      items := [it] + more;
    } else {
      assert s[e..] == rest;
      ItemAlone(it, v, rest);
      items := [it];
    }
  }

  lemma CommaFound(first: Str, more: Str, s: Str, o: nat, e: nat, rest: Str)
    requires e < |s| && s[e] == ',' && Found(s, o, first, s[e..]) && Found(s, e + 1, more, rest)
    ensures Found(s, o, first + ("," + more), rest) && s[e..] == "," + more + rest
  {
    assert s[e..] == "," + s[e + 1..];
    Assoc(",", more, rest);
    FoundTogether(s, o, first, "," + more, rest);
  }

  lemma ItemAlone(it: Item, e: Json, rest: Str)
    requires ProperItem(it, rest) && Means(it.value, e)
    ensures SpelledItems([it]) == SpelledItem(it) && ProperItems([it], rest) && MeansItems([it], [e])
    ensures ItemsDepth([it]) == Depth(it.value)
  {
    hide Means, SpelledItem, ProperItem, Depth;
  }

  lemma ItemInFront(it: Item, more: seq<Item>, e: Json, es: seq<Json>, rest: Str)
    requires more != [] && ProperItem(it, "," + SpelledItems(more) + rest) && ProperItems(more, rest)
    requires Means(it.value, e) && MeansItems(more, es)
    ensures SpelledItems([it] + more) == SpelledItem(it) + ("," + SpelledItems(more))
    ensures ProperItems([it] + more, rest) && MeansItems([it] + more, [e] + es)
    ensures ItemsDepth([it] + more) == Max(Depth(it.value), ItemsDepth(more))
  {
    hide Means, SpelledItem, ProperItem, Depth;
    assert ([it] + more)[1..] == more && ([e] + es)[1..] == es;
  }

  lemma {:induction false} RecordDerived(s: Str, o: nat, d: nat) returns (x: Syntax)
    requires Window(s) && o < |s| && s[o] == '{' && d <= CJSON_NESTING_LIMIT && ParseValue(s, o, d).Parsed?
    ensures var p := ParseValue(s, o, d);
            Found(s, o, Spelled(x), s[p.next..]) && Proper(x, s[p.next..]) && Means(x, p.value)
            && d + Depth(x) <= CJSON_NESTING_LIMIT
    decreases |s| - o, 3
  {
    hide ParseValue, ParseMembers, Found, SpelledFields, ProperFields, MeansFields, FieldsDepth, SkipWs, IsBlank;
    RecordStep(s, o, d);
    var first, e := SkipWs(s, o + 1), ParseValue(s, o, d).next;
    if s[first] == '}' {
      var blank := s[o + 1..first];
      Skipped(s, o + 1);
      FoundFrom(s, o + 1, first);
      assert s[first..] == "}" + s[e..];
      ListAround("{", blank, "}", s, o, s[e..]);
      EmptyList("}" + s[e..]);
      x := Record(blank, []);
    } else {
      var fields := MembersDerived(s, o, d + 1);
      ListAround("{", SpelledFields(fields), "}", s, o, s[e..]);
      NoBlank();
      x := Record("", fields);
    }
  }

  lemma {:induction false} MemberDerived(s: Str, o: nat, d: nat) returns (f: Field)
    requires Window(s) && o < |s| - 1 && d <= CJSON_NESTING_LIMIT && ParseMember(s, o, d).Parsed?
    ensures var p := ParseMember(s, o, d);
            Found(s, o + 1, SpelledField(f), s[p.next..]) && ProperField(f, s[p.next..])
            && p.value.key == MeansText(f.name) && Means(f.item.value, p.value.value)
            && d + Depth(f.item.value) <= CJSON_NESTING_LIMIT
    decreases |s| - o, 1
  {
    hide Found, ProperItem, SpelledItem, SkipWs, IsBlank, ParseElem, ParseString, Means, Depth, ProperLiteral;
    hide SpelledLiteral, MeansText;
    var n, c, e := SkipWs(s, o + 1), ParseName(s, o).next, ParseMember(s, o, d).next;
    var name := LiteralDerived(s, n);
    var q := ParseString(s, n).next;
    var it := ElemDerived(s, c, d);
    Skipped(s, o + 1);
    Skipped(s, q);
    f := Field(s[o + 1..n], name, s[q..c], it);
    FieldFound(f, s, o + 1, n, q, c, s[e..]);
  }

  lemma FieldFound(f: Field, s: Str, o: nat, n: nat, q: nat, c: nat, rest: Str)
    requires o <= n <= q <= c < |s| && s[c] == ':' && f.before == s[o..n] && f.after == s[q..c]
    requires Found(s, n, SpelledLiteral(f.name), s[q..]) && Found(s, c + 1, SpelledItem(f.item), rest)
    ensures Found(s, o, SpelledField(f), rest)
  {
    hide SpelledItem, SpelledLiteral, Found;
    var item, name := SpelledItem(f.item), SpelledLiteral(f.name);
    assert s[c..c + 1] == ":";
    FoundBefore(s, c, c + 1, item, rest);
    FoundBefore(s, q, c, ":" + item, rest);
    FoundHere(s, q, f.after + (":" + item), rest) by { }
    assert s[q..] == f.after + (":" + item) + rest by { WholeFound(s, q, f.after + (":" + item), rest); }
    FoundTogether(s, n, name, f.after + (":" + item), rest);
    FoundBefore(s, o, n, name + (f.after + (":" + item)), rest);
  }

  lemma WholeFound(s: Str, o: nat, t: Str, rest: Str)
    requires Found(s, o, t, rest)
    ensures o <= |s| && s[o..] == t + rest
  {
  }

  lemma {:induction false} MembersDerived(s: Str, o: nat, d: nat) returns (fields: seq<Field>)
    requires Window(s) && o < |s| - 1 && d <= CJSON_NESTING_LIMIT && ParseMembers(s, o, d).Parsed?
    ensures var p := ParseMembers(s, o, d);
            fields != [] && Found(s, o + 1, SpelledFields(fields), "}" + s[p.next..])
            && ProperFields(fields, "}" + s[p.next..]) && MeansFields(fields, p.value)
            && d + FieldsDepth(fields) <= CJSON_NESTING_LIMIT
    decreases |s| - o, 2
  {
    hide Found, ProperField, SpelledField, ParseMember, Means, MeansText, Depth, SpelledFields, ProperFields;
    hide MeansFields, FieldsDepth, ParseMembers;
    MembersStep(s, o, d);
    var f := MemberDerived(s, o, d);
    var v, e := ParseMember(s, o, d).value, ParseMember(s, o, d).next;
    var rest := "}" + s[ParseMembers(s, o, d).next..];
    if s[e] == ',' {
      var more := MembersDerived(s, e, d);
      CommaFound(SpelledField(f), SpelledFields(more), s, o + 1, e, rest);
      FieldInFront(f, more, v, ParseMembers(s, e, d).value, rest);
      fields := [f] + more;
    } else {
      assert s[e..] == rest;
      FieldAlone(f, v, rest);
      fields := [f];
    }
  }

  lemma FieldAlone(f: Field, m: Member<Json>, rest: Str)
    requires ProperField(f, rest) && m.key == MeansText(f.name) && Means(f.item.value, m.value)
    ensures SpelledFields([f]) == SpelledField(f) && ProperFields([f], rest) && MeansFields([f], [m])
    ensures FieldsDepth([f]) == Depth(f.item.value)
  {
    hide Means, MeansText, SpelledField, Depth, ProperItem;
  }

  lemma FieldInFront(f: Field, more: seq<Field>, m: Member<Json>, ms: seq<Member<Json>>, rest: Str)
    requires more != [] && ProperField(f, "," + SpelledFields(more) + rest) && ProperFields(more, rest)
    requires m.key == MeansText(f.name) && Means(f.item.value, m.value) && MeansFields(more, ms)
    ensures SpelledFields([f] + more) == SpelledField(f) + ("," + SpelledFields(more))
    ensures ProperFields([f] + more, rest) && MeansFields([f] + more, [m] + ms)
    ensures FieldsDepth([f] + more) == Max(Depth(f.item.value), FieldsDepth(more))
  {
    hide Means, MeansText, SpelledField, Depth, ProperItem;
    assert ([f] + more)[1..] == more && ([m] + ms)[1..] == ms;
  }

  // ---------- exactly the texts of the grammar ----------

  /** A value is parsed, to what it means and up to where it ends, exactly when the grammar derives it and nests it no
      deeper than the limit. Every other text is refused. */
  lemma ParsedExactly(s: Str, o: nat, d: nat, j: Json, e: nat)
    requires Window(s) && o < |s| && d <= CJSON_NESTING_LIMIT
    ensures ParseValue(s, o, d) == Parsed(j, e)
            <==> e < |s| && exists x :: Found(s, o, Spelled(x), s[e..]) && Proper(x, s[e..]) && Means(x, j)
                                        && d + Depth(x) <= CJSON_NESTING_LIMIT
  {
    hide ParseValue, Found, Spelled, Proper, Means, Depth;
    if ParseValue(s, o, d) == Parsed(j, e) {
      var x := ValueDerived(s, o, d);
    }
    if e < |s| {
      forall x | Found(s, o, Spelled(x), s[e..]) && Proper(x, s[e..]) && Means(x, j)
                 && d + Depth(x) <= CJSON_NESTING_LIMIT
        ensures ParseValue(s, o, d) == Parsed(j, e)
      {
        ValueParsed(x, j, s, o, d, s[e..]);
        SameEnd(s, o, Spelled(x), e);
      }
    }
  }

  lemma SameEnd(s: Str, o: nat, t: Str, e: nat)
    requires e <= |s| && Found(s, o, t, s[e..])
    ensures o + |t| == e
  {
  }

  /** A byte order mark or none, and white space. */
  predicate IsLead(lead: Str) {
    IsBlank(lead) || (|lead| >= 3 && lead[..3] == BOM && IsBlank(lead[3..]))
  }

  /** The text up to e is a lead and a value of the grammar that means j. */
  ghost predicate Derives(text: Str, e: nat, lead: Str, x: Syntax, j: Json) {
    e <= |text| && text[..e] == lead + Spelled(x) && IsLead(lead) && Proper(x, text[e..] + "\0") && Means(x, j)
    && Depth(x) <= CJSON_NESTING_LIMIT
  }

  lemma NoMark(s: Str)
    requires Window(s) && s[0] as int < 128
    ensures AfterBom(s) == 0
  {
    if |s| > 4 { assert s[..3][0] == s[0]; }
  }

  lemma LeadSkipped(text: Str, e: nat, lead: Str, t: Str)
    requires '\0' !in text && e <= |text| && text[..e] == lead + t && IsLead(lead) && t != "" && t[0] as int > 32
    requires t[0] as int < 128
    ensures var s := text + "\0"; SkipWs(s, AfterBom(s)) == |lead| && Found(s, |lead|, t, s[e..])
  {
    var s := text + "\0";
    var marked := |lead| >= 3 && lead[..3] == BOM;
    assert s == lead + (t + s[e..]);
    if marked {
      assert lead[0] == lead[..3][0] && lead[0] in lead;
      assert lead == BOM + lead[3..] && s[..3] == BOM;
      assert s[3..] == lead[3..] + (t + s[e..]);
      BlankSkipped(s, 3, lead[3..], t + s[e..]);
    } else {
      if lead == "" { assert s[0] == t[0]; } else { assert s[0] == lead[0] && lead[0] in lead; }
      NoMark(s);
      BlankSkipped(s, 0, lead, t + s[e..]);
    }
  }

  lemma ValueBeginsAscii(x: Syntax, rest: Str)
    requires Proper(x, rest)
    ensures Spelled(x) != "" && 32 < Spelled(x)[0] as int < 128
  {
    if x.Numeral? { NumeralBegins(x.numeral); }
  }

  /** cJSON_Parse: a text is parsed to j with its end at e exactly when the grammar derives the text up to e. */
  lemma TextsParsedExactly(text: Str, j: Json, e: nat)
    requires '\0' !in text
    ensures ParseText(text, false) == Parsed(j, e) <==> exists lead, x :: Derives(text, e, lead, x, j)
  {
    hide ParseText, Derives;
    if ParseText(text, false) == Parsed(j, e) {
      var lead, x := TextDerived(text, j, e);
    }
    forall lead, x | Derives(text, e, lead, x, j) ensures ParseText(text, false) == Parsed(j, e) {
      DerivedParsed(text, e, lead, x, j);
    }
  }

  lemma TextDerived(text: Str, j: Json, e: nat) returns (lead: Str, x: Syntax)
    requires '\0' !in text && ParseText(text, false) == Parsed(j, e)
    ensures Derives(text, e, lead, x, j)
  {
    hide ParseValue, Spelled, Proper, Means, Depth, SkipWs, IsLead, Found;
    var s := text + "\0";
    lead := s[..SkipWs(s, AfterBom(s))];
    x := ValueDerived(s, |lead|, 0);
    LeadIsLead(text);
    SameEnd(s, |lead|, Spelled(x), e);
    FoundHere(s, |lead|, Spelled(x), s[e..]);
    assert s[e..] == text[e..] + "\0";
    assert text[..e] == s[..e] == lead + Spelled(x);
  }

  lemma DerivedParsed(text: Str, e: nat, lead: Str, x: Syntax, j: Json)
    requires '\0' !in text && Derives(text, e, lead, x, j)
    ensures ParseText(text, false) == Parsed(j, e)
  {
    hide ParseValue, Spelled, Proper, Means, Depth, SkipWs, IsLead, Found;
    var s := text + "\0";
    ValueBeginsAscii(x, text[e..] + "\0");
    LeadSkipped(text, e, lead, Spelled(x));
    assert s[e..] == text[e..] + "\0";
    ValueParsed(x, j, s, |lead|, 0, s[e..]);
    SameEnd(s, |lead|, Spelled(x), e);
  }

  lemma LeadIsLead(text: Str)
    ensures var s := text + "\0"; IsLead(s[..SkipWs(s, AfterBom(s))])
  {
    hide SkipWs;
    var s := text + "\0";
    var o := AfterBom(s);
    Skipped(s, o);
    if o == 3 {
      assert s[..SkipWs(s, o)][..3] == s[..3] && s[..SkipWs(s, o)][3..] == s[3..SkipWs(s, o)];
    }
  }

  // ---------- what may stand behind the value ----------

  /** The first character of a text above the space. */
  ghost predicate FirstVisible(g: Str, k: nat) {
    k < |g| && g[k] as int > 32 && forall i | 0 <= i < k :: g[i] as int <= 32
  }

  /** With require_null_terminated the value must be the last thing but white space; the error is the first
      character that is more than that. */
  lemma EndRequired(text: Str)
    requires '\0' !in text
    ensures match ParseText(text, false)
            case Failed(at) => ParseText(text, true) == Failed(at)
            case Parsed(j, e) =>
              (IsBlank(text[e..]) ==> ParseText(text, true) == Parsed(j, |text|))
              && forall k: nat :: FirstVisible(text[e..], k) ==> ParseText(text, true) == Failed(e + k)
  {
    hide ParseValue, AfterBom;
    var s := text + "\0";
    var p := ParseWhole(s, false);
    if p.Parsed? {
      var e := p.next;
      EndOfBlank(s, e);
      var g := text[e..];
      if IsBlank(g) {
        forall i | e <= i < |s|
            ensures s[i] as int <= 32 { if i < |text| { assert s[i] == g[i - e] && g[i - e] in g; } }
        assert SkipWs(s, e) == |text|;
      }
      forall k: nat | FirstVisible(g, k) ensures ParseText(text, true) == Failed(e + k) {
        assert s[e + k] == g[k] && s[e + k] != '\0' by { assert g[k] in text; }
        forall i | e <= i < e + k ensures s[i] as int <= 32 { assert s[i] == g[i - e]; }
        assert SkipWs(s, e) == e + k;
      }
    }
  }

  /** A printed text with something behind it: without require_null_terminated the tree is parsed and the end is where
      the printed text ends; with it also, at the end of everything, when only white space is behind it, and
      otherwise the first other character is the error. */
  lemma PrintedWithTail(j: Json, format: bool, g: Str)
    requires Textual(j) && Nesting(j) <= CJSON_NESTING_LIMIT && '\0' !in g
    requires j.Number? && g != "" ==> !IsNumberChar(g[0])
    ensures var t := Text(j, format, 0);
            ParseText(t + g, false) == Parsed(Relinked(j), |t|)
            && (IsBlank(g) ==> ParseText(t + g, true) == Parsed(Relinked(j), |t + g|))
            && forall k: nat :: FirstVisible(g, k) ==> ParseText(t + g, true) == Failed(|t| + k)
  {
    hide Text, ParseValue, Textual, Nesting, SkipWs, Relinked, ParseText, FirstVisible;
    var t := Text(j, format, 0);
    TextualPrints(j);
    TextNoNul(j, format, 0);
    ParsedInFront(j, format, g);
    EndRequired(t + g);
    assert (t + g)[|t|..] == g;
  }

  lemma ParsedInFront(j: Json, format: bool, g: Str)
    requires Textual(j) && Nesting(j) <= CJSON_NESTING_LIMIT && '\0' !in g
    requires j.Number? && g != "" ==> !IsNumberChar(g[0])
    ensures var t := Text(j, format, 0); ParseText(t + g, false) == Parsed(Relinked(j), |t|)
  {
    hide Text, ParseValue, Textual, Nesting, SkipWs, Relinked;
    var t := Text(j, format, 0);
    var s := t + g + "\0";
    TextBegins(j, format, 0);
    assert s[0] == t[0];
    assert |s| > 4 ==> s[..3][0] != BOM[0];
    SkipBlank(s, 0, 0);
    assert s[0..|t|] == t && s[|t|] == (if g == "" then '\0' else g[0]);
    TextReads(j, format, 0, s, 0, 0);
  }
}
