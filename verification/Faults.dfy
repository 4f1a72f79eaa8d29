/** Where an error is reported: the complete items, names and separators in front of it, and what is wrong there. */
module Faults {
  import opened CStrings
  import opened JsonTrees
  import opened SiblingLinks
  import opened StringLiterals
  import opened Grammar
  import opened TextRoundTrip
  import opened JsonTexts
  import N = Numerals
  import L = LiteralTexts

  /** The way from the beginning of a value to a fault: which lists and records are open, and what of them is
      complete. */
  datatype Trail =
    | AtValue
    | InList(items: seq<Item>, before: Str, inner: Trail)
    | BehindItem(items: seq<Item>)
    | AtName(fields: seq<Field>, before: Str)
    | BehindName(fields: seq<Field>, before: Str, name: seq<L.Part>, after: Str)
    | InRecord(fields: seq<Field>, before: Str, name: seq<L.Part>, after: Str, space: Str, inner: Trail)
    | BehindField(fields: seq<Field>)

  function Items(items: seq<Item>): Str {
    if items == [] then "" else SpelledItems(items) + ","
  }

  function Fields(fields: seq<Field>): Str {
    if fields == [] then "" else SpelledFields(fields) + ","
  }

  function SpelledName(before: Str, name: seq<L.Part>, after: Str): Str {
    before + (SpelledLiteral(name) + after)
  }

  /** What stands behind the complete items or members of the innermost open list or record that has any. */
  function Tail(t: Trail): Str
    decreases t, 0
  {
    match t
    case InList(_, before, inner) => before + SpelledTrail(inner)
    case AtName(_, before) => before
    case BehindName(_, before, name, after) => SpelledName(before, name, after)
    case InRecord(_, before, name, after, space, inner) =>
      SpelledName(before, name, after) + (":" + (space + SpelledTrail(inner)))
    case _ => ""
  }

  /** The text behind the outermost bracket. */
  function Body(t: Trail): Str
    decreases t, 1
  {
    match t
    case AtValue => ""
    case InList(items, _, _) => Items(items) + Tail(t)
    case BehindItem(items) => SpelledItems(items)
    case BehindField(fields) => SpelledFields(fields)
    case AtName(fields, _) => Fields(fields) + Tail(t)
    case BehindName(fields, _, _, _) => Fields(fields) + Tail(t)
    case InRecord(fields, _, _, _, _, _) => Fields(fields) + Tail(t)
  }

  predicate IsList(t: Trail) {
    t.InList? || t.BehindItem?
  }

  /** The text up to the fault. */
  function SpelledTrail(t: Trail): Str
    decreases t, 2
  {
    if t.AtValue? then "" else (if IsList(t) then "[" else "{") + Body(t)
  }

  /** Everything in front of the fault is proper. */
  ghost predicate ProperTrail(t: Trail, rest: Str)
    decreases t
  {
    match t
    case AtValue => true
    case InList(items, before, inner) =>
      ProperItems(items, "," + Tail(t) + rest) && IsBlank(before) && ProperTrail(inner, rest)
    case BehindItem(items) => items != [] && ProperItems(items, rest)
    case AtName(fields, before) => ProperFields(fields, "," + Tail(t) + rest) && IsBlank(before)
    case BehindName(fields, before, name, after) =>
      ProperFields(fields, "," + Tail(t) + rest) && ProperName(before, name, after)
    case InRecord(fields, before, name, after, space, inner) =>
      ProperFields(fields, "," + Tail(t) + rest) && ProperName(before, name, after) && IsBlank(space)
      && ProperTrail(inner, rest)
    case BehindField(fields) => fields != [] && ProperFields(fields, rest)
  }

  ghost predicate ProperName(before: Str, name: seq<L.Part>, after: Str) {
    IsBlank(before) && ProperLiteral(name) && IsBlank(after)
  }

  /** No value begins here. A list or a record does not when as many are open as may be. */
  ghost predicate NoValue(s: Str, q: nat, d: nat)
    requires q < |s|
  {
    !Reads(s, q, "null") && !Reads(s, q, "false") && !Reads(s, q, "true") && s[q] != '\"'
    && (s[q] == '-' || IsDigit(s[q]) ==> forall n | N.Proper(n) && |N.Spelled(n)| <= 63 :: !(N.Spelled(n) <= s[q..]))
    && (s[q] == '[' || s[q] == '{' ==> d == CJSON_NESTING_LIMIT)
  }

  /** What is wrong with a string: it has no opening quote or no closing one, which is reported behind the first
      character, or there is an escape that means nothing behind proper parts, which is reported there. */
  ghost predicate StringFault(s: Str, q: nat, at: nat)
    requires q < |s|
  {
    if s[q] != '\"' || NeverCloses(s, q + 1) then at == q + 1
    else
      exists end, ps: seq<L.Part> ::
        L.Closes(s, q + 1, end) && q + 1 <= at < end && (forall p | p in ps :: L.ProperPart(p, false))
        && s[q + 1..at] == L.SpelledParts(ps) && NoPart(s, at, end)
  }

  predicate NeverCloses(s: Str, start: nat)
    requires start <= |s|
  {
    forall i | start <= i < |s| && s[i] == '\"' :: L.Escaped(s, start, i)
  }

  ghost predicate PartAt(p: L.Part, s: Str, at: nat, end: nat)
    requires at <= end <= |s|
  {
    var n := |L.SpelledPart(p)|;
    at + n <= end && s[at..at + n] == L.SpelledPart(p) && L.ProperPart(p, at + n == end)
  }

  ghost predicate NoPart(s: Str, at: nat, end: nat)
    requires at <= end <= |s|
  {
    forall p :: !PartAt(p, s, at, end)
  }

  /** The fault that a trail leads to. */
  ghost predicate Fault(t: Trail, s: Str, q: nat, d: nat, at: nat)
    requires q < |s|
    decreases t
  {
    match t
    case AtValue => if s[q] == '\"' then StringFault(s, q, at) else NoValue(s, q, d) && at == q
    case InList(_, _, inner) => Fault(inner, s, q, d + 1, at)
    case BehindItem(_) => s[q] != ',' && s[q] != ']' && at == q
    case AtName(_, _) => StringFault(s, q, at)
    case BehindName(_, _, _, _) => s[q] != ':' && at == q
    case InRecord(_, _, _, _, _, inner) => Fault(inner, s, q, d + 1, at)
    case BehindField(_) => s[q] != ',' && s[q] != '}' && at == q
  }

  // ---------- strings ----------

  lemma {:induction false} RefusedAt(s: Str, at: nat, end: nat) returns (ps: seq<L.Part>)
    requires at <= end < |s| && s[end] == '\"' && Decode(s, at, end).Refused?
    ensures var p := Decode(s, at, end).at;
            at <= p < end && (forall x | x in ps :: L.ProperPart(x, false)) && s[at..p] == L.SpelledParts(ps)
            && NoPart(s, p, end)
    decreases end - at
  {
    hide L.ProperPart, L.SpelledPart, L.BytesOf, Next, NoPart;
    if Next(s, at, end).BadPiece? {
      ps := [];
      BadPieceIsNoPart(s, at, end);
      assert s[at..at] == "";
    } else {
      var part := L.TakenPart(s, at, end);
      var n := |L.SpelledPart(part)|;
      L.PartLength(part, at + n == end);
      L.DecodeStep(s, at, end, Next(s, at, end), n);
      var more := RefusedAt(s, at + n, end);
      var p := Decode(s, at, end).at;
      assert s[at..p] == s[at..at + n] + s[at + n..p];
      ps := [part] + more;
      assert ps[1..] == more;
    }
  }

  lemma BadPieceIsNoPart(s: Str, at: nat, end: nat)
    requires at < end < |s| && s[end] == '\"' && Next(s, at, end).BadPiece?
    ensures NoPart(s, at, end)
  {
    hide L.ProperPart, L.SpelledPart, L.BytesOf, Next;
    forall p ensures !PartAt(p, s, at, end) {
      if PartAt(p, s, at, end) { L.PartTaken(p, s, at, end, at + |L.SpelledPart(p)| == end); }
    }
  }

  lemma StringFails(s: Str, q: nat)
    requires Window(s) && q < |s| && ParseString(s, q).Failed?
    ensures StringFault(s, q, ParseString(s, q).at)
  {
    hide L.Closes, L.Escaped, Decode, LiteralEnd, NoPart, L.ProperPart, L.SpelledParts;
    if s[q] == '\"' {
      L.NoneInFront(s, q + 1);
      L.EndFound(s, q + 1, q + 1);
      var end := LiteralEnd(s, q + 1);
      if end.Some? {
        ClosingQuote(s, q + 1, end.value);
        var ps := RefusedAt(s, q + 1, end.value);
      }
    }
  }

  lemma ClosingQuote(s: Str, start: nat, end: nat)
    requires L.Closes(s, start, end)
    ensures start <= end < |s| && s[end] == '\"' && !NeverCloses(s, start)
  {
  }

  // ---------- lists and records ----------

  /** With one complete item more in front. */
  function ItemFirst(it: Item, t: Trail): Trail
    requires IsList(t)
  {
    match t
    case InList(items, before, inner) => InList([it] + items, before, inner)
    case BehindItem(items) => BehindItem([it] + items)
  }

  function FieldFirst(f: Field, t: Trail): Trail
    requires !IsList(t) && !t.AtValue?
  {
    match t
    case AtName(fields, before) => AtName([f] + fields, before)
    case BehindName(fields, before, name, after) => BehindName([f] + fields, before, name, after)
    case InRecord(fields, before, name, after, space, inner) =>
      InRecord([f] + fields, before, name, after, space, inner)
    case BehindField(fields) => BehindField([f] + fields)
  }

  lemma ItemsMore(it: Item, items: seq<Item>, tail: Str, rest: Str)
    requires ProperItem(it, "," + (Items(items) + tail) + rest) && ProperItems(items, "," + tail + rest)
    ensures ProperItems([it] + items, "," + tail + rest)
    ensures Items([it] + items) + tail == SpelledItem(it) + ("," + (Items(items) + tail))
  {
    hide SpelledItem, ProperItem;
    assert ([it] + items)[1..] == items;
    if items != [] {
      CommasMoved(SpelledItem(it), SpelledItems(items), tail, rest);
    } else {
      assert Items(items) + tail == tail;
      Assoc(SpelledItem(it), ",", tail);
    }
  }

  lemma CommasMoved(first: Str, more: Str, tail: Str, rest: Str)
    ensures "," + (more + "," + tail) + rest == "," + more + ("," + tail + rest)
    ensures first + ("," + more) + "," + tail == first + ("," + (more + "," + tail))
  {
  }

  lemma FieldsMore(f: Field, fields: seq<Field>, tail: Str, rest: Str)
    requires ProperField(f, "," + (Fields(fields) + tail) + rest) && ProperFields(fields, "," + tail + rest)
    ensures ProperFields([f] + fields, "," + tail + rest)
    ensures Fields([f] + fields) + tail == SpelledField(f) + ("," + (Fields(fields) + tail))
  {
    hide SpelledField, ProperField;
    assert ([f] + fields)[1..] == fields;
    if fields != [] {
      CommasMoved(SpelledField(f), SpelledFields(fields), tail, rest);
    } else {
      assert Fields(fields) + tail == tail;
      Assoc(SpelledField(f), ",", tail);
    }
  }

  lemma ItemBefore(it: Item, t: Trail, s: Str, q: nat, d: nat, at: nat)
    requires IsList(t) && q < |s| && ProperTrail(t, s[q..]) && Fault(t, s, q, d, at)
    requires ProperItem(it, "," + Body(t) + s[q..])
    ensures Body(ItemFirst(it, t)) == SpelledItem(it) + ("," + Body(t))
    ensures ProperTrail(ItemFirst(it, t), s[q..]) && Fault(ItemFirst(it, t), s, q, d, at)
  {
    hide SpelledItem, ProperItem, Items, SpelledTrail, NoValue, StringFault;
    match t
    case InList(items, before, inner) => ItemsMore(it, items, Tail(t), s[q..]);
    case BehindItem(items) => assert ([it] + items)[1..] == items;
  }

  lemma FieldBefore(f: Field, t: Trail, s: Str, q: nat, d: nat, at: nat)
    requires !IsList(t) && !t.AtValue? && q < |s| && ProperTrail(t, s[q..]) && Fault(t, s, q, d, at)
    requires ProperField(f, "," + Body(t) + s[q..])
    ensures Body(FieldFirst(f, t)) == SpelledField(f) + ("," + Body(t))
    ensures ProperTrail(FieldFirst(f, t), s[q..]) && Fault(FieldFirst(f, t), s, q, d, at)
  {
    hide SpelledField, ProperField, Fields, SpelledTrail, NoValue, StringFault, ProperName;
    match t
    case BehindField(fields) => assert ([f] + fields)[1..] == fields;
    case AtName(fields, _) => FieldsMore(f, fields, Tail(t), s[q..]);
    case BehindName(fields, _, _, _) => FieldsMore(f, fields, Tail(t), s[q..]);
    case InRecord(fields, _, _, _, _, _) => FieldsMore(f, fields, Tail(t), s[q..]);
  }

  lemma {:induction false} ValueFails(s: Str, o: nat, d: nat) returns (t: Trail, q: nat)
    requires Window(s) && o < |s| && d <= CJSON_NESTING_LIMIT && ParseValue(s, o, d).Failed?
    ensures q < |s| && Found(s, o, SpelledTrail(t), s[q..]) && ProperTrail(t, s[q..])
    ensures Fault(t, s, q, d, ParseValue(s, o, d).at)
    decreases |s| - o, 4
  {
    hide ParseString, ParseNumber, ParseArray, ParseObject, Found, StringFault, NoValue, ProperItems, ProperFields;
    t, q := AtValue, o;
    NothingFound(s, o);
    if s[o] == '\"' {
      StringFails(s, o);
    } else if s[o] == '-' || IsDigit(s[o]) {
      NumberFails(s, o, d);
    } else if (s[o] == '[' || s[o] == '{') && d < CJSON_NESTING_LIMIT {
      t, q := OpenFails(s, o, d);
    } else {
      OtherFails(s, o, d);
    }
  }

  lemma NothingFound(s: Str, o: nat)
    requires o <= |s|
    ensures Found(s, o, "", s[o..])
  {
  }

  lemma NumberFails(s: Str, o: nat, d: nat)
    requires Window(s) && o < |s| && d <= CJSON_NESTING_LIMIT && ParseValue(s, o, d).Failed?
    requires s[o] == '-' || IsDigit(s[o])
    ensures NoValue(s, o, d) && ParseValue(s, o, d).at == o
  {
    hide N.Proper, N.Spelled, N.Value;
    N.NumbersAreNumerals(s, o);
  }

  lemma OtherFails(s: Str, o: nat, d: nat)
    requires Window(s) && o < |s| && d <= CJSON_NESTING_LIMIT && ParseValue(s, o, d).Failed?
    requires s[o] != '\"' && s[o] != '-' && !IsDigit(s[o]) && (s[o] == '[' || s[o] == '{' ==> d == CJSON_NESTING_LIMIT)
    ensures NoValue(s, o, d) && ParseValue(s, o, d).at == o
  {
  }

  lemma {:induction false} OpenFails(s: Str, o: nat, d: nat) returns (t: Trail, q: nat)
    requires Window(s) && o < |s| && d < CJSON_NESTING_LIMIT && ParseValue(s, o, d).Failed?
    requires s[o] == '[' || s[o] == '{'
    ensures q < |s| && Found(s, o, SpelledTrail(t), s[q..]) && ProperTrail(t, s[q..])
    ensures Fault(t, s, q, d, ParseValue(s, o, d).at)
    decreases |s| - o, 3
  {
    hide ParseValue, ParseElems, ParseMembers, Found, ProperTrail, Fault, SkipWs;
    if s[o] == '[' {
      ListStep(s, o, d);
      t, q := ElemsFail(s, o, d + 1);
      BracketFound("[", Body(t), s, o, s[q..]);
    } else {
      RecordStep(s, o, d);
      t, q := MembersFail(s, o, d + 1);
      BracketFound("{", Body(t), s, o, s[q..]);
    }
  }

  lemma BracketFound(open: Str, body: Str, s: Str, o: nat, rest: Str)
    requires |open| == 1 && o < |s| && s[o] == open[0] && Found(s, o + 1, body, rest)
    ensures Found(s, o, open + body, rest)
  {
    assert s[o..] == open + s[o + 1..];
    Assoc(open, body, rest);
  }

  lemma {:induction false} ElemsFail(s: Str, o: nat, d: nat) returns (t: Trail, q: nat)
    requires Window(s) && o < |s| - 1 && 0 < d <= CJSON_NESTING_LIMIT && ParseElems(s, o, d).Failed?
    ensures q < |s| && IsList(t) && Found(s, o + 1, Body(t), s[q..]) && ProperTrail(t, s[q..])
    ensures Fault(t, s, q, d - 1, ParseElems(s, o, d).at)
    decreases |s| - o, 2
  {
    hide ParseElem, ParseElems, Found, Fault, ProperTrail, Body, SpelledItem, ProperItem;
    ElemsStep(s, o, d);
    if ParseElem(s, o, d).Failed? {
      t, q := ElemFails(s, o, d);
    } else {
      var it := ElemDerived(s, o, d);
      var e := ParseElem(s, o, d).next;
      if s[e] == ',' {
        var t';
        t', q := ElemsFail(s, e, d);
        CommaFound(SpelledItem(it), Body(t'), s, o + 1, e, s[q..]);
        ItemBefore(it, t', s, q, d - 1, ParseElems(s, o, d).at);
        t := ItemFirst(it, t');
      } else {
        t, q := BehindItem([it]), e;
        ItemStops(it, s, q, d - 1);
      }
    }
  }

  lemma ItemStops(it: Item, s: Str, q: nat, d: nat)
    requires q < |s| && s[q] != ',' && s[q] != ']' && ProperItem(it, s[q..])
    ensures var t := BehindItem([it]); Body(t) == SpelledItem(it) && ProperTrail(t, s[q..]) && Fault(t, s, q, d, q)
  {
    hide SpelledItem, ProperItem;
  }

  lemma {:induction false} ElemFails(s: Str, o: nat, d: nat) returns (t: Trail, q: nat)
    requires Window(s) && o < |s| - 1 && 0 < d <= CJSON_NESTING_LIMIT && ParseElem(s, o, d).Failed?
    ensures q < |s| && IsList(t) && Found(s, o + 1, Body(t), s[q..]) && ProperTrail(t, s[q..])
    ensures Fault(t, s, q, d - 1, ParseElem(s, o, d).at)
    decreases |s| - o, 1
  {
    hide ParseValue, Found, SkipWs, SpelledTrail, IsBlank;
    var v, inner := SkipWs(s, o + 1), AtValue;
    inner, q := ValueFails(s, v, d);
    Skipped(s, o + 1);
    FoundBefore(s, o + 1, v, SpelledTrail(inner), s[q..]);
    t := InList([], s[o + 1..v], inner);
    assert "" + Tail(t) == Tail(t);
  }

  lemma {:induction false} MembersFail(s: Str, o: nat, d: nat) returns (t: Trail, q: nat)
    requires Window(s) && o < |s| - 1 && 0 < d <= CJSON_NESTING_LIMIT && ParseMembers(s, o, d).Failed?
    ensures q < |s| && !IsList(t) && !t.AtValue? && Found(s, o + 1, Body(t), s[q..]) && ProperTrail(t, s[q..])
    ensures Fault(t, s, q, d - 1, ParseMembers(s, o, d).at)
    decreases |s| - o, 2
  {
    hide ParseMember, ParseMembers, Found, Fault, ProperTrail, Body, SpelledField, ProperField;
    MembersStep(s, o, d);
    if ParseMember(s, o, d).Failed? {
      t, q := MemberFails(s, o, d);
    } else {
      var f := MemberDerived(s, o, d);
      var e := ParseMember(s, o, d).next;
      if s[e] == ',' {
        var t';
        t', q := MembersFail(s, e, d);
        CommaFound(SpelledField(f), Body(t'), s, o + 1, e, s[q..]);
        FieldBefore(f, t', s, q, d - 1, ParseMembers(s, o, d).at);
        t := FieldFirst(f, t');
      } else {
        t, q := BehindField([f]), e;
        FieldStops(f, s, q, d - 1);
      }
    }
  }

  lemma FieldStops(f: Field, s: Str, q: nat, d: nat)
    requires q < |s| && s[q] != ',' && s[q] != '}' && ProperField(f, s[q..])
    ensures var t := BehindField([f]); Body(t) == SpelledField(f) && ProperTrail(t, s[q..]) && Fault(t, s, q, d, q)
  {
    hide SpelledField, ProperField;
  }

  lemma {:induction false} MemberFails(s: Str, o: nat, d: nat) returns (t: Trail, q: nat)
    requires Window(s) && o < |s| - 1 && 0 < d <= CJSON_NESTING_LIMIT && ParseMember(s, o, d).Failed?
    ensures q < |s| && !IsList(t) && !t.AtValue? && Found(s, o + 1, Body(t), s[q..]) && ProperTrail(t, s[q..])
    ensures Fault(t, s, q, d - 1, ParseMember(s, o, d).at)
    decreases |s| - o, 1
  {
    hide ParseValue, ParseString, Found, SkipWs, SpelledTrail, IsBlank, SpelledName, ProperName, StringFault;
    var n := SkipWs(s, o + 1);
    Skipped(s, o + 1);
    if ParseString(s, n).Failed? {
      StringFails(s, n);
      FoundFrom(s, o + 1, n);
      t, q := AtName([], s[o + 1..n]), n;
    } else {
      t, q := BehindNameFails(s, o, d);
    }
    assert "" + Tail(t) == Tail(t);
  }

  /** The name of a member is there, and what follows is not. */
  lemma {:induction false} BehindNameFails(s: Str, o: nat, d: nat) returns (t: Trail, q: nat)
    requires Window(s) && o < |s| - 1 && 0 < d <= CJSON_NESTING_LIMIT && ParseMember(s, o, d).Failed?
    requires ParseString(s, SkipWs(s, o + 1)).Parsed?
    ensures q < |s| && (t.BehindName? || t.InRecord?) && t.fields == [] && Found(s, o + 1, Tail(t), s[q..])
    ensures ProperTrail(t, s[q..]) && Fault(t, s, q, d - 1, ParseMember(s, o, d).at)
    decreases |s| - o, 0
  {
    hide ParseValue, ParseMember, ParseString, Found, SkipWs, SpelledTrail, IsBlank, SpelledName, ProperName, Fault;
    hide ProperTrail, Tail, ProperLiteral;
    var n := SkipWs(s, o + 1);
    var e := ParseString(s, n).next;
    var c := SkipWs(s, e);
    Skipped(s, o + 1);
    var name := LiteralDerived(s, n);
    NameFound(s, o + 1, n, name, e, c);
    MemberFailure(s, o, d);
    if s[c] != ':' {
      t, q := BehindName([], s[o + 1..n], name, s[e..c]), c;
      NoColon(s[o + 1..n], name, s[e..c], s, c, d - 1);
    } else {
      var v, inner := SkipWs(s, c + 1), AtValue;
      inner, q := ValueFails(s, v, d);
      Skipped(s, c + 1);
      ColonFound(s, o + 1, SpelledName(s[o + 1..n], name, s[e..c]), c, v, SpelledTrail(inner), s[q..]);
      t := InRecord([], s[o + 1..n], name, s[e..c], s[c + 1..v], inner);
      BehindColon(s[o + 1..n], name, s[e..c], s[c + 1..v], inner, s, q, d - 1, ParseMember(s, o, d).at);
    }
  }

  lemma MemberFailure(s: Str, o: nat, d: nat)
    requires Window(s) && o < |s| - 1 && d <= CJSON_NESTING_LIMIT && ParseMember(s, o, d).Failed?
    requires ParseString(s, SkipWs(s, o + 1)).Parsed?
    ensures var c := SkipWs(s, ParseString(s, SkipWs(s, o + 1)).next);
            c < |s| &&
            if s[c] != ':' then ParseMember(s, o, d).at == c
            else c < |s| - 1 && ParseValue(s, SkipWs(s, c + 1), d) == Failed(ParseMember(s, o, d).at)
  {
    hide ParseValue, ParseString, SkipWs;
  }

  lemma NoColon(before: Str, name: seq<L.Part>, after: Str, s: Str, q: nat, d: nat)
    requires q < |s| && s[q] != ':' && ProperName(before, name, after)
    ensures var t := BehindName([], before, name, after);
            Tail(t) == SpelledName(before, name, after) && ProperTrail(t, s[q..]) && Fault(t, s, q, d, q)
  {
    hide ProperName, SpelledName;
  }

  lemma BehindColon(before: Str, name: seq<L.Part>, after: Str, space: Str, inner: Trail, s: Str, q: nat, d: nat,
                    at: nat)
    requires q < |s| && ProperName(before, name, after) && IsBlank(space)
    requires ProperTrail(inner, s[q..]) && Fault(inner, s, q, d + 1, at)
    ensures var t := InRecord([], before, name, after, space, inner);
            Tail(t) == SpelledName(before, name, after) + (":" + (space + SpelledTrail(inner)))
            && ProperTrail(t, s[q..]) && Fault(t, s, q, d, at)
  {
    hide ProperName, SpelledName, SpelledTrail, IsBlank;
  }

  lemma NameFound(s: Str, o: nat, n: nat, name: seq<L.Part>, e: nat, c: nat)
    requires o <= n <= e < |s| && Found(s, n, SpelledLiteral(name), s[e..]) && ProperLiteral(name)
    requires c == SkipWs(s, e) && IsBlank(s[o..n])
    ensures e <= c < |s| && ProperName(s[o..n], name, s[e..c])
            && Found(s, o, SpelledName(s[o..n], name, s[e..c]), s[c..])
  {
    hide SkipWs, IsBlank, SpelledLiteral, ProperLiteral, Found;
    Skipped(s, e);
    assert s[e..] == s[e..c] + s[c..];
    FoundTogether(s, n, SpelledLiteral(name), s[e..c], s[c..]);
    FoundBefore(s, o, n, SpelledLiteral(name) + s[e..c], s[c..]);
  }

  lemma ColonFound(s: Str, o: nat, front: Str, c: nat, v: nat, t: Str, rest: Str)
    requires o <= c < v <= |s| && s[c] == ':' && Found(s, o, front, s[c..]) && Found(s, v, t, rest)
    ensures Found(s, o, front + (":" + (s[c + 1..v] + t)), rest)
  {
    hide Found;
    FoundBefore(s, c + 1, v, t, rest);
    BracketFound(":", s[c + 1..v] + t, s, c, rest);
    WholeFound(s, c, ":" + (s[c + 1..v] + t), rest);
    FoundTogether(s, o, front, ":" + (s[c + 1..v] + t), rest);
  }

  // ---------- whole texts ----------

  /** In this text the error is at `at`: behind a lead and everything that is complete, the fault is at q. */
  ghost predicate IsError(text: Str, lead: Str, t: Trail, q: nat, at: nat) {
    var s := text + "\0";
    q < |s| && s[..q] == lead + SpelledTrail(t) && IsLead(lead) && ProperTrail(t, s[q..]) && Fault(t, s, q, 0, at)
  }

  /** A text that is refused has its error where a fault is, inside the text or at its end. */
  lemma ErrorsAreFaults(text: Str)
    requires '\0' !in text && ParseText(text, false).Failed?
    ensures exists lead, t, q, at: nat ::
              IsError(text, lead, t, q, at) && ParseText(text, false).at == if at < |text| then at else |text|
  {
    hide ParseValue, SpelledTrail, ProperTrail, Fault, SkipWs, IsLead, Found;
    var s := text + "\0";
    var o := SkipWs(s, AfterBom(s));
    var t, q := ValueFails(s, o, 0);
    LeadIsLead(text);
    FoundHere(s, o, SpelledTrail(t), s[q..]);
    SameEnd(s, o, SpelledTrail(t), q);
    assert s[..q] == s[..o] + SpelledTrail(t);
    assert IsError(text, s[..o], t, q, ParseValue(s, o, 0).at);
  }
}
