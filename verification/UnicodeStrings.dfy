/** Accepted string literals mean what Unicode says they mean: the decoded text is the UTF-8 encoding
    (section 3 of RFC 3629) of the code points the literal denotes, with surrogate pairs joined as in
    section 2.2 of RFC 2781. */
module UnicodeStrings {
  import opened CStrings
  import opened StringLiterals

  predicate IsScalar(point: int) {
    0 <= point <= MAX_CODE_POINT && !(0xD800 <= point <= 0xDFFF)
  }

  type Scalar = p: int | 0 <= p <= MAX_CODE_POINT && !(0xD800 <= p <= 0xDFFF)

  function Byte(b: nat): char
    requires b < 0x100
  {
    b as char
  }

  /** The table of section 3 of RFC 3629. */
  function StandardUtf8(point: nat): (bytes: Str)
    requires point <= MAX_CODE_POINT
    ensures 1 <= |bytes| <= 4
  {
    if point <= 0x7F then [Byte(point)]
    else if point <= 0x7FF then [Byte(0xC0 + point / 0x40), Byte(0x80 + point % 0x40)]
    else if point <= 0xFFFF then
      [Byte(0xE0 + point / 0x1000), Byte(0x80 + point / 0x40 % 0x40), Byte(0x80 + point % 0x40)]
    else
      [Byte(0xF0 + point / 0x40000), Byte(0x80 + point / 0x1000 % 0x40), Byte(0x80 + point / 0x40 % 0x40),
       Byte(0x80 + point % 0x40)]
  }

  /** The conversion loop produces the table's bytes. */
  lemma Utf8IsStandard(point: nat)
    requires point <= MAX_CODE_POINT
    ensures Utf8(point) == StandardUtf8(point)
  {
    ShiftedBound(point);
    assert Trail(point, 1) == Trail(point / 64, 0) + [Byte(0x80 + point % 64)];
    assert Trail(point, 2) == Trail(point / 64, 1) + [Byte(0x80 + point % 64)];
    assert Trail(point, 3) == Trail(point / 64, 2) + [Byte(0x80 + point % 64)];
    assert Trail(point / 64, 1) == Trail(point / 4096, 0) + [Byte(0x80 + point / 64 % 64)];
    assert Trail(point / 64, 2) == Trail(point / 4096, 1) + [Byte(0x80 + point / 64 % 64)];
    assert Trail(point / 4096, 1) == Trail(point / 262144, 0) + [Byte(0x80 + point / 4096 % 64)];
  }

  /** A character at the head of a byte string, by the grammar of section 4 of RFC 3629; width 0 when malformed. */
  datatype Head = Head(point: nat, width: nat)

  predicate IsTail(s: Str, i: nat) {
    i < |s| && 0x80 <= s[i] as int <= 0xBF
  }

  function Six(s: Str, i: nat): (v: nat)
    requires IsTail(s, i)
    ensures v < 0x40
  {
    s[i] as int - 0x80
  }

  predicate HeadsTwo(s: Str) {
    s != "" && 0xC2 <= s[0] as int <= 0xDF && IsTail(s, 1)
  }

  predicate HeadsThree(s: Str) {
    s != "" && 0xE0 <= s[0] as int <= 0xEF && IsTail(s, 1) && IsTail(s, 2)
    && (s[0] as int == 0xE0 ==> s[1] as int >= 0xA0) && (s[0] as int == 0xED ==> s[1] as int <= 0x9F)
  }

  predicate HeadsFour(s: Str) {
    s != "" && 0xF0 <= s[0] as int <= 0xF4 && IsTail(s, 1) && IsTail(s, 2) && IsTail(s, 3)
    && (s[0] as int == 0xF0 ==> s[1] as int >= 0x90) && (s[0] as int == 0xF4 ==> s[1] as int <= 0x8F)
  }

  function ReadHead(s: Str): (h: Head)
    ensures h.width <= |s|
  {
    if s != "" && s[0] as int <= 0x7F then Head(s[0] as int, 1)
    else if HeadsTwo(s) then Head((s[0] as int - 0xC0) * 0x40 + Six(s, 1), 2)
    else if HeadsThree(s) then Head((s[0] as int - 0xE0) * 0x1000 + Six(s, 1) * 0x40 + Six(s, 2), 3)
    else if HeadsFour(s)
    then Head((s[0] as int - 0xF0) * 0x40000 + Six(s, 1) * 0x1000 + Six(s, 2) * 0x40 + Six(s, 3), 4)
    else Head(0, 0)
  }

  // The grammar accepts exactly the table's encodings of scalar values.

  lemma HeadIsStandard(s: Str)
    requires ReadHead(s).width > 0
    ensures IsScalar(ReadHead(s).point) && s[..ReadHead(s).width] == StandardUtf8(ReadHead(s).point)
  {
    hide HeadsThree, HeadsFour, IsTail, Six, StandardUtf8;
    if s[0] as int <= 0x7F {
      OneIsStandard(s);
    } else if HeadsTwo(s) {
      TwoIsStandard(s);
    } else if HeadsThree(s) {
      ThreeIsStandard(s);
    } else {
      FourIsStandard(s);
    }
  }

  lemma OneIsStandard(s: Str)
    requires s != "" && s[0] as int <= 0x7F
    ensures s[..1] == StandardUtf8(s[0] as int)
  {
  }

  lemma TwoIsStandard(s: Str)
    requires HeadsTwo(s)
    ensures var p := (s[0] as int - 0xC0) * 0x40 + Six(s, 1);
            0x80 <= p < 0x800 && s[..2] == StandardUtf8(p)
  {
    var a, b := s[0] as int - 0xC0, Six(s, 1);
    assert (a * 0x40 + b) / 0x40 == a && (a * 0x40 + b) % 0x40 == b;
  }

  lemma ThreeIsStandard(s: Str)
    requires HeadsThree(s)
    ensures var p := (s[0] as int - 0xE0) * 0x1000 + Six(s, 1) * 0x40 + Six(s, 2);
            0x800 <= p < 0x10000 && IsScalar(p) && s[..3] == StandardUtf8(p)
  {
    SplitThree(s[0] as int - 0xE0, Six(s, 1), Six(s, 2));
  }

  lemma FourIsStandard(s: Str)
    requires HeadsFour(s)
    ensures var p := (s[0] as int - 0xF0) * 0x40000 + Six(s, 1) * 0x1000 + Six(s, 2) * 0x40 + Six(s, 3);
            0x10000 <= p <= MAX_CODE_POINT && s[..4] == StandardUtf8(p)
  {
    SplitFour(s[0] as int - 0xF0, Six(s, 1), Six(s, 2), Six(s, 3));
  }

  lemma SplitThree(a: nat, b: nat, c: nat)
    requires b < 0x40 && c < 0x40
    ensures var p := a * 0x1000 + b * 0x40 + c;
            p / 0x1000 == a && p / 0x40 % 0x40 == b && p % 0x40 == c
  {
    var p := a * 0x1000 + b * 0x40 + c;
    assert p / 0x40 == a * 0x40 + b;
  }

  lemma SplitFour(a: nat, b: nat, c: nat, d: nat)
    requires b < 0x40 && c < 0x40 && d < 0x40
    ensures var p := a * 0x40000 + b * 0x1000 + c * 0x40 + d;
            p / 0x40000 == a && p / 0x1000 % 0x40 == b && p / 0x40 % 0x40 == c && p % 0x40 == d
  {
    var p := a * 0x40000 + b * 0x1000 + c * 0x40 + d;
    assert p / 0x40 == a * 0x1000 + b * 0x40 + c;
    assert p / 0x1000 == a * 0x40 + b;
  }

  lemma StandardIsHead(point: nat, rest: Str)
    requires IsScalar(point)
    ensures ReadHead(StandardUtf8(point) + rest) == Head(point, |StandardUtf8(point)|)
  {
    hide HeadsTwo, HeadsThree, HeadsFour, IsTail, Six;
    var s := StandardUtf8(point) + rest;
    assert s[0] == StandardUtf8(point)[0];
    if point > 0xFFFF {
      StandardFour(s, point);
    } else if point > 0x7FF {
      StandardThree(s, point);
    } else if point > 0x7F {
      StandardTwo(s, point);
    }
  }

  lemma StandardTwo(s: Str, point: nat)
    requires 0x7F < point <= 0x7FF && StandardUtf8(point) <= s
    ensures HeadsTwo(s) && (s[0] as int - 0xC0) * 0x40 + Six(s, 1) == point
  {
    var t := StandardUtf8(point);
    assert s[0] == t[0] && s[1] == t[1];
  }

  lemma StandardThree(s: Str, point: nat)
    requires 0x7FF < point <= 0xFFFF && IsScalar(point) && StandardUtf8(point) <= s
    ensures !HeadsTwo(s)
    ensures HeadsThree(s) && (s[0] as int - 0xE0) * 0x1000 + Six(s, 1) * 0x40 + Six(s, 2) == point
  {
    var t := StandardUtf8(point);
    assert s[0] == t[0] && s[1] == t[1] && s[2] == t[2];
    assert point / 0x40 == point / 0x1000 * 0x40 + point / 0x40 % 0x40;
  }

  lemma StandardFour(s: Str, point: nat)
    requires 0xFFFF < point <= MAX_CODE_POINT && StandardUtf8(point) <= s
    ensures !HeadsTwo(s) && !HeadsThree(s)
    ensures HeadsFour(s)
            && (s[0] as int - 0xF0) * 0x40000 + Six(s, 1) * 0x1000 + Six(s, 2) * 0x40 + Six(s, 3) == point
  {
    var t := StandardUtf8(point);
    assert s[0] == t[0] && s[1] == t[1] && s[2] == t[2] && s[3] == t[3];
    FourGroups(point);
  }

  lemma FourGroups(point: nat)
    ensures point / 0x40 == point / 0x1000 * 0x40 + point / 0x40 % 0x40
    ensures point / 0x1000 == point / 0x40000 * 0x40 + point / 0x1000 % 0x40
  {
  }

  function Utf8Text(points: seq<Scalar>): Str
  {
    if points == [] then "" else StandardUtf8(points[0]) + Utf8Text(points[1..])
  }

  /** Reading a byte string as UTF-8. */
  function ReadAll(s: Str): Option<seq<nat>>
    decreases |s|
  {
    if s == "" then Some([]) else
    var h := ReadHead(s);
    if h.width == 0 then None else
    var rest := ReadAll(s[h.width..]);
    if rest.None? then None else Some([h.point] + rest.value)
  }

  /** Encodings of scalar values are well-formed and read back. */
  lemma {:induction false} EncodingsAreWellFormed(points: seq<Scalar>)
    ensures ReadAll(Utf8Text(points)) == Some(points)
  {
    if points != [] {
      var head, rest := StandardUtf8(points[0]), Utf8Text(points[1..]);
      StandardIsHead(points[0], rest);
      DropPrefix(head, rest);
      EncodingsAreWellFormed(points[1..]);
      assert Utf8Text(points) == head + rest && [points[0]] + points[1..] == points;
    }
  }

  // ----- What a literal denotes -----

  /** Malformed: the bytes outside the escapes are not UTF-8.
      Meaningless: an unknown escape, one that is cut short, or half a surrogate pair. */
  datatype Reading = Malformed | Meaningless | Points(points: seq<Scalar>)

  function Follow(point: Scalar, r: Reading): Reading {
    if r.Points? then Points([point] + r.points) else r
  }

  /** What a literal denotes. Two liberties of this parser are part of it: an escape with a bad hexadecimal
      digit denotes U+0000, and it may take the first of two backslashes along; the second is then left alone
      before the closing quote, and the two denote a quote. */
  function Denotes(lit: Str): (r: Reading)
    decreases |lit|
  {
    if lit == "" then Points([])
    else if lit[0] != '\\' then
      var h := ReadHead(lit);
      if h.width == 0 then Malformed else HeadIsStandard(lit); Follow(h.point, Denotes(lit[h.width..]))
    else if |lit| < 2 then Points(['\"' as int])
    else if lit[1] != 'u' then
      var c := Unescape(lit[1]);
      if c.None? then Meaningless else Follow(c.value as int, Denotes(lit[2..]))
    else
      match DenotesUnits(lit)
      case Unpaired => Meaningless
      case Point(point, width) => Follow(point, Denotes(lit[width..]))
  }

  datatype Units = Unpaired | Point(point: Scalar, width: nat)

  /** One escaped UTF-16 code unit, or a surrogate pair of them. Bad digits are zero in the first unit, and
      leave a high surrogate without its second. */
  function DenotesUnits(lit: Str): (u: Units)
    requires |lit| >= 2
    ensures u.Point? ==> 0 < u.width <= |lit|
  {
    if |lit| < 6 then Unpaired
    else if !IsHex4(lit, 2) then Point(0, 6) else
    var first := Hex4(lit, 2);
    if 0xDC00 <= first <= 0xDFFF then Unpaired
    else if 0xD800 <= first <= 0xDBFF then
      if |lit| < 12 || lit[6] != '\\' || lit[7] != 'u' || !IsHex4(lit, 8) then Unpaired else
      var second := Hex4(lit, 8);
      if 0xDC00 <= second <= 0xDFFF then Point(Joined(first, second), 12) else Unpaired
    else Point(first, 6)
  }

  /** Section 2.2 of RFC 2781. */
  function Joined(first: nat, second: nat): (point: nat)
    requires 0xD800 <= first <= 0xDBFF && 0xDC00 <= second <= 0xDFFF
    ensures 0x10000 <= point <= MAX_CODE_POINT
  {
    (first - 0xD800) * 0x400 + (second - 0xDC00) + 0x10000
  }

  lemma UnitsDecode(s: Str, p: nat, end: nat)
    requires p + 2 <= end <= |s|
    ensures DenotesUnits(s[p..end]).Point? ==>
              var u := DenotesUnits(s[p..end]);
              Utf16Literal(s, p, end) == Code(u.point, u.width)
    ensures DenotesUnits(s[p..end]).Unpaired? ==> Utf16Literal(s, p, end).NoCode?
  {
    hide IsHex4;
    var lit := s[p..end];
    if |lit| >= 6 { Hex4Within(s, p, end, 2); }
    if |lit| >= 12 { Hex4Within(s, p, end, 8); }
  }

  lemma Hex4Within(s: Str, p: nat, end: nat, i: nat)
    requires p <= end <= |s| && p + i + 4 <= end
    ensures Hex4(s[p..end], i) == Hex4(s, p + i)
  {
    var lit := s[p..end];
    assert lit[i] == s[p + i] && lit[i + 1] == s[p + i + 1] && lit[i + 2] == s[p + i + 2] && lit[i + 3] == s[p + i + 3];
  }

  lemma {:induction false} PlainCopied(s: Str, p: nat, n: nat, end: nat)
    requires p + n <= end < |s| && forall i | p <= i < p + n :: s[i] != '\\'
    ensures Decode(s, p, end) == Prepend(s[p..p + n], Decode(s, p + n, end))
    decreases n
  {
    hide Decode, Prepend;
    if n == 0 {
      NothingCopied(s[p..p], Decode(s, p, end));
    } else {
      PlainCopied(s, p + 1, n - 1, end);
      OneCopied(s, p, end);
      assert s[p..p + n] == [s[p]] + s[p + 1..p + n];
      Prepended([s[p]], s[p + 1..p + n], Decode(s, p + n, end));
    }
  }

  lemma OneCopied(s: Str, p: nat, end: nat)
    requires p < end < |s| && s[p] != '\\'
    ensures Decode(s, p, end) == Prepend([s[p]], Decode(s, p + 1, end))
  {
  }

  lemma NothingCopied(t: Str, d: Decoded)
    requires t == ""
    ensures Prepend(t, d) == d
  {
    if d.Accepted? { assert t + d.text == d.text; }
  }

  lemma Prepended(a: Str, b: Str, d: Decoded)
    ensures Prepend(a, Prepend(b, d)) == Prepend(a + b, d)
  {
    if d.Accepted? { Assoc(a, b, d.text); }
  }

  /** The bytes of a multi-byte character are copied one by one. */
  lemma HeadCopied(s: Str, p: nat, end: nat)
    requires p < end < |s| && s[p] != '\\'
    ensures var n := ReadHead(s[p..end]).width;
            Decode(s, p, end) == Prepend(s[p..end][..n], Decode(s, p + n, end))
  {
    var lit := s[p..end];
    var n := ReadHead(lit).width;
    forall i | p <= i < p + n ensures s[i] != '\\' {
      assert s[i] == lit[i - p];
    }
    PlainCopied(s, p, n, end);
    assert lit[..n] == s[p..p + n];
  }

  lemma DecodeEscape(s: Str, p: nat, end: nat)
    requires p + 2 <= end < |s| && s[p] == '\\' && s[p + 1] == 'u'
    ensures var u := Utf16Literal(s, p, end);
            Decode(s, p, end) == if u.NoCode? then Refused(p)
                                 else Prepend(StandardUtf8(u.point), Decode(s, p + u.length, end))
  {
    hide Utf16Literal, Utf8, StandardUtf8;
    var u := Utf16Literal(s, p, end);
    if u.Code? { Utf8IsStandard(u.point); }
  }

  lemma EncodeFollow(point: Scalar, r: Reading)
    requires r.Points?
    ensures Utf8Text(Follow(point, r).points) == StandardUtf8(point) + Utf8Text(r.points)
  {
    assert ([point] + r.points)[1..] == r.points;
  }

  /** The text of a literal is decoded as it denotes. */
  lemma {:induction false} DecodesAsDenoted(s: Str, p: nat, end: nat)
    requires p <= end < |s| && s[end] == '\"'
    ensures Denotes(s[p..end]).Points? ==> Decode(s, p, end) == Accepted(Utf8Text(Denotes(s[p..end]).points))
    ensures Denotes(s[p..end]).Meaningless? ==> Decode(s, p, end).Refused?
    decreases end - p
  {
    if p < end {
      var lit := s[p..end];
      if s[p] != '\\' {
        RawDecoded(s, p, end);
      } else if |lit| >= 2 {
        if lit[1] != 'u' {
          SimpleDecoded(s, p, end);
        } else {
          UnitsDecoded(s, p, end);
        }
      } else {
        QuoteDecoded(s, p);
      }
    }
  }

  /** A backslash left alone takes the closing quote along. */
  lemma QuoteDecoded(s: Str, p: nat)
    requires p + 1 < |s| && s[p] == '\\' && s[p + 1] == '\"'
    ensures Denotes(s[p..p + 1]) == Points(['\"' as int])
    ensures Decode(s, p, p + 1) == Accepted(Utf8Text(['\"' as int]))
  {
    assert Decode(s, p + 2, p + 1) == Accepted("");
    assert Utf8Text(['\"' as int]) == StandardUtf8('\"' as int) + Utf8Text([]) == "\"";
    assert Decode(s, p, p + 1) == Prepend("\"", Accepted(""));
    assert "\"" + "" == "\"";
  }

  lemma DenotesRaw(lit: Str)
    requires lit != "" && lit[0] != '\\'
    ensures var h := ReadHead(lit);
            if h.width == 0 then Denotes(lit).Malformed?
            else IsScalar(h.point) && Denotes(lit) == Follow(h.point, Denotes(lit[h.width..]))
  {
    hide ReadHead;
    if ReadHead(lit).width > 0 { HeadIsStandard(lit); }
  }

  lemma {:induction false} RawDecoded(s: Str, p: nat, end: nat)
    requires p < end < |s| && s[end] == '\"' && s[p] != '\\'
    ensures Denotes(s[p..end]).Points? ==> Decode(s, p, end) == Accepted(Utf8Text(Denotes(s[p..end]).points))
    ensures Denotes(s[p..end]).Meaningless? ==> Decode(s, p, end).Refused?
    decreases end - p, 0
  {
    hide ReadHead, StandardUtf8, Utf8Text, Denotes, Decode;
    var lit := s[p..end];
    var h := ReadHead(lit);
    DenotesRaw(lit);
    if h.width > 0 {
      assert lit[h.width..] == s[p + h.width..end];
      var rest := Denotes(lit[h.width..]);
      DecodesAsDenoted(s, p + h.width, end);
      HeadIsStandard(lit);
      HeadCopied(s, p, end);
      if rest.Points? { EncodeFollow(h.point, rest); }
    }
  }

  lemma {:induction false} SimpleDecoded(s: Str, p: nat, end: nat)
    requires p + 2 <= end < |s| && s[end] == '\"' && s[p] == '\\' && s[p + 1] != 'u'
    ensures Denotes(s[p..end]).Points? ==> Decode(s, p, end) == Accepted(Utf8Text(Denotes(s[p..end]).points))
    ensures Denotes(s[p..end]).Meaningless? ==> Decode(s, p, end).Refused?
    decreases end - p, 0
  {
    hide ReadHead, Utf8Text;
    var lit := s[p..end];
    assert lit[2..] == s[p + 2..end];
    var rest := Denotes(lit[2..]);
    DecodesAsDenoted(s, p + 2, end);
    var c := Unescape(lit[1]);
    if c.Some? && rest.Points? { EncodeFollow(c.value as int, rest); }
  }

  lemma {:induction false} UnitsDecoded(s: Str, p: nat, end: nat)
    requires p + 2 <= end < |s| && s[end] == '\"' && s[p] == '\\' && s[p + 1] == 'u'
    ensures Denotes(s[p..end]).Points? ==> Decode(s, p, end) == Accepted(Utf8Text(Denotes(s[p..end]).points))
    ensures Denotes(s[p..end]).Meaningless? ==> Decode(s, p, end).Refused?
    decreases end - p, 0
  {
    hide ReadHead, StandardUtf8, Utf8Text, DenotesUnits, Utf16Literal;
    var lit := s[p..end];
    UnitsDecode(s, p, end);
    DecodeEscape(s, p, end);
    var u := DenotesUnits(lit);
    if u.Point? {
      assert lit[u.width..] == s[p + u.width..end];
      var rest := Denotes(lit[u.width..]);
      DecodesAsDenoted(s, p + u.width, end);
      if rest.Points? { EncodeFollow(u.point, rest); }
    }
  }

  /** Every literal whose raw bytes are UTF-8 is refused exactly when it means nothing, and otherwise decoded
      to well-formed UTF-8 for the code points it denotes. */
  lemma LiteralsDecodeToUtf8(s: Str, start: nat)
    requires start <= |s| && LiteralEnd(s, start).Some?
    ensures var end := LiteralEnd(s, start).value;
            var reading := Denotes(s[start..end]);
            !reading.Malformed? ==>
              (Decode(s, start, end).Accepted? <==> reading.Points?)
              && (reading.Points? ==> ReadAll(Decode(s, start, end).text) == Some(reading.points))
  {
    var end := LiteralEnd(s, start).value;
    var reading := Denotes(s[start..end]);
    DecodesAsDenoted(s, start, end);
    if reading.Points? { EncodingsAreWellFormed(reading.points); }
  }

  /** A bad digit in the first unit is no error: the escape is read as U+0000, and what follows it is read as
      well. In the second unit it is: the literal is refused there. */
  lemma BadDigitsRead(s: Str, p: nat, end: nat)
    requires p + 6 <= end < |s| && s[p] == '\\' && s[p + 1] == 'u'
    ensures !IsHex4(s, p + 2) ==> Decode(s, p, end) == Prepend("\0", Decode(s, p + 6, end))
    ensures 0xD800 <= Hex4(s, p + 2) <= 0xDBFF ==>
              (Decode(s, p, end) == Refused(p)
               <==> (end < p + 12 || s[p + 6] != '\\' || s[p + 7] != 'u' || !IsHex4(s, p + 8)
                     || !(0xDC00 <= Hex4(s, p + 8) <= 0xDFFF)))
  {
    DecodeEscape(s, p, end);
    assert StandardUtf8(0) == "\0";
  }
}
