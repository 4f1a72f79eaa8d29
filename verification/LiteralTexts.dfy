/** String literals, said without reading them from left to right: which quote closes a literal, and the pieces that
    its text is made of. */
module LiteralTexts {
  import opened CStrings
  import opened StringLiterals
  import opened UnicodeStrings

  // ---------- the closing quote ----------

  /** How many backslashes stand directly in front of a position, from `start` on. */
  function Backslashes(s: Str, start: nat, i: nat): (n: nat)
    requires start <= i <= |s|
  {
    if i == start || s[i - 1] != '\\' then 0 else 1 + Backslashes(s, start, i - 1)
  }

  predicate Escaped(s: Str, start: nat, i: nat)
    requires start <= i <= |s|
  {
    Backslashes(s, start, i) % 2 == 1
  }

  /** The closing quote is the first one with an even number of backslashes in front of it. */
  ghost predicate Closes(s: Str, start: nat, end: nat) {
    start <= end < |s| && s[end] == '\"' && !Escaped(s, start, end)
    && forall i | start <= i < end && s[i] == '\"' :: Escaped(s, start, i)
  }

  lemma {:induction false} EndFound(s: Str, start: nat, p: nat)
    requires start <= p <= |s| && !Escaped(s, start, p)
    requires forall i | start <= i < p && s[i] == '\"' :: Escaped(s, start, i)
    ensures match LiteralEnd(s, p)
            case Some(end) => Closes(s, start, end)
            case None => forall i | start <= i < |s| && s[i] == '\"' :: Escaped(s, start, i)
    decreases |s| - p
  {
    if p < |s| && s[p] == '\\' {
      assert Backslashes(s, start, p + 1) == 1 + Backslashes(s, start, p);
      if p + 1 < |s| {
        assert s[p + 1] == '\\' ==> Backslashes(s, start, p + 2) == 1 + Backslashes(s, start, p + 1);
        EndFound(s, start, p + 2);
      }
    } else if p < |s| && s[p] != '\"' {
      EndFound(s, start, p + 1);
    }
  }

  /** The first pass finds exactly the closing quote. */
  lemma LiteralEndsExactly(s: Str, start: nat, end: nat)
    requires start <= |s|
    ensures LiteralEnd(s, start) == Some(end) <==> Closes(s, start, end)
  {
    hide LiteralEnd, Backslashes;
    NoneInFront(s, start);
    EndFound(s, start, start);
  }

  lemma NoneInFront(s: Str, start: nat)
    requires start <= |s|
    ensures !Escaped(s, start, start)
  {
  }

  lemma {:induction false} BackslashesMoved(s: Str, o: nat, t: Str, i: nat)
    requires o + |t| <= |s| && s[o..o + |t|] == t && 1 <= i <= |t|
    ensures Backslashes(s, o + 1, o + i) == Backslashes(t, 1, i)
  {
    if i > 1 {
      assert s[o..o + |t|][i - 1] == s[o + i - 1];
      BackslashesMoved(s, o, t, i - 1);
    }
  }

  /** Where a quoted text stands makes no difference to its closing quote. */
  lemma ClosesMoved(s: Str, o: nat, t: Str, end: nat)
    requires o + |t| <= |s| && s[o..o + |t|] == t && 1 <= end < |t|
    ensures Closes(s, o + 1, o + end) <==> Closes(t, 1, end)
  {
    hide Backslashes;
    forall i | 1 <= i < |t| ensures s[o + i] == t[i] && Escaped(s, o + 1, o + i) == Escaped(t, 1, i) {
      assert s[o..o + |t|][i] == s[o + i];
      BackslashesMoved(s, o, t, i);
    }
    if Closes(t, 1, end) {
      forall i | o + 1 <= i < o + end && s[i] == '\"' ensures Escaped(s, o + 1, i) {
        assert s[o + (i - o)] == t[i - o] && Escaped(s, o + 1, o + (i - o)) == Escaped(t, 1, i - o);
      }
    }
    if Closes(s, o + 1, o + end) {
      forall i | 1 <= i < end && t[i] == '\"' ensures Escaped(t, 1, i) {
        assert s[o + i] == t[i] && Escaped(s, o + 1, o + i) == Escaped(t, 1, i);
      }
    }
  }

  // ---------- hexadecimal digits ----------

  predicate HexIs(c: char, v: nat)
    requires v < 16
  {
    c == "0123456789abcdef"[v] || c == "0123456789ABCDEF"[v]
  }

  /** Four digits of either case. */
  predicate HexSpells(digits: Str, value: nat) {
    |digits| == 4 && value < 0x10000 && HexIs(digits[0], value / 0x1000) && HexIs(digits[1], value / 0x100 % 16)
    && HexIs(digits[2], value / 0x10 % 16) && HexIs(digits[3], value % 16)
  }

  lemma HexDigitIs(c: char, v: nat)
    requires v < 16
    ensures HexValue(c) == v <==> HexIs(c, v)
  {
    var low, up := "0123456789abcdef", "0123456789ABCDEF";
    assert v < 10 ==> low[v] == ('0' as int + v) as char && up[v] == ('0' as int + v) as char;
    assert v >= 10 ==> low[v] == ('a' as int + v - 10) as char && up[v] == ('A' as int + v - 10) as char;
  }

  lemma FourDigits(a: nat, b: nat, c: nat, d: nat)
    requires a < 16 && b < 16 && c < 16 && d < 16
    ensures var v := a * 0x1000 + b * 0x100 + c * 0x10 + d;
            v < 0x10000 && v / 0x1000 == a && v / 0x100 % 16 == b && v / 0x10 % 16 == c && v % 16 == d
  {
    var v := a * 0x1000 + b * 0x100 + c * 0x10 + d;
    assert v / 0x10 == a * 0x100 + b * 0x10 + c && v / 0x100 == a * 0x10 + b;
  }

  lemma DigitsOfValue(v: nat)
    requires v < 0x10000
    ensures v / 0x1000 * 0x1000 + v / 0x100 % 16 * 0x100 + v / 0x10 % 16 * 0x10 + v % 16 == v
  {
    assert v / 0x10 == v / 0x100 * 0x10 + v / 0x10 % 16 && v / 0x100 == v / 0x1000 * 0x10 + v / 0x100 % 16;
  }

  /** parse_hex4 reads four digits at what they spell. */
  lemma Hex4Exactly(s: Str, i: nat, value: nat)
    requires i + 4 <= |s|
    ensures IsHex4(s, i) && Hex4(s, i) == value <==> HexSpells(s[i..i + 4], value)
  {
    hide HexValue, HexIs;
    var t := s[i..i + 4];
    assert t[0] == s[i] && t[1] == s[i + 1] && t[2] == s[i + 2] && t[3] == s[i + 3];
    if IsHex4(s, i) && Hex4(s, i) == value {
      FourDigits(HexValue(s[i]), HexValue(s[i + 1]), HexValue(s[i + 2]), HexValue(s[i + 3]));
      HexDigitIs(s[i], HexValue(s[i]));
      HexDigitIs(s[i + 1], HexValue(s[i + 1]));
      HexDigitIs(s[i + 2], HexValue(s[i + 2]));
      HexDigitIs(s[i + 3], HexValue(s[i + 3]));
    }
    if HexSpells(t, value) {
      DigitsOfValue(value);
      HexDigitIs(s[i], value / 0x1000);
      HexDigitIs(s[i + 1], value / 0x100 % 16);
      HexDigitIs(s[i + 2], value / 0x10 % 16);
      HexDigitIs(s[i + 3], value % 16);
    }
  }

  // ---------- the pieces of a literal ----------

  const LETTERS: Str := "\"\\/bfnrt"
  const MEANT: Str := "\"\\/\U{0008}\U{000C}\n\r\t"

  /** A character of its own, an escape with one of eight letters, one escaped code unit, four characters that are not
      all digits behind \u, a pair of surrogates, or a backslash that is left alone in front of the closing quote. */
  datatype Part =
    | Own(c: char)
    | Letter(which: nat)
    | Unit(value: nat, digits: Str)
    | NoUnit(four: Str)
    | Surrogates(high: nat, highDigits: Str, low: nat, lowDigits: Str)
    | Lone

  ghost predicate ProperPart(p: Part, last: bool) {
    match p
    case Own(c) => c != '\\'
    case Letter(i) => i < 8
    case Unit(v, digits) => HexSpells(digits, v) && !(0xD800 <= v <= 0xDFFF)
    case NoUnit(four) => |four| == 4 && forall v :: !HexSpells(four, v)
    case Surrogates(high, highDigits, low, lowDigits) =>
      HexSpells(highDigits, high) && 0xD800 <= high <= 0xDBFF && HexSpells(lowDigits, low) && 0xDC00 <= low <= 0xDFFF
    case Lone => last
  }

  function SpelledPart(p: Part): Str {
    match p
    case Own(c) => [c]
    case Letter(i) => ['\\', if i < 8 then LETTERS[i] else '\0']
    case Unit(_, digits) => "\\u" + digits
    case NoUnit(four) => "\\u" + four
    case Surrogates(_, high, _, low) => "\\u" + high + ("\\u" + low)
    case Lone => "\\"
  }

  /** Section 2.2 of RFC 2781 for surrogates, section 3 of RFC 3629 for the bytes of a code point. */
  ghost function BytesOf(p: Part): Str
    requires exists last :: ProperPart(p, last)
  {
    match p
    case Own(c) => [c]
    case Letter(i) => [MEANT[i]]
    case Unit(v, _) => StandardUtf8(v)
    case NoUnit(_) => "\0"
    case Surrogates(high, _, low, _) => StandardUtf8(Joined(high, low))
    case Lone => "\""
  }

  ghost predicate ProperParts(ps: seq<Part>) {
    forall i | 0 <= i < |ps| :: ProperPart(ps[i], i == |ps| - 1)
  }

  function SpelledParts(ps: seq<Part>): Str {
    if ps == [] then "" else SpelledPart(ps[0]) + SpelledParts(ps[1..])
  }

  ghost function BytesOfParts(ps: seq<Part>): Str
    requires ProperParts(ps)
  {
    if ps == [] then ""
    else
      assert ProperPart(ps[0], 0 == |ps| - 1);
      assert forall i | 0 <= i < |ps[1..]| :: ps[1..][i] == ps[i + 1];
      BytesOf(ps[0]) + BytesOfParts(ps[1..])
  }

  // ---------- one piece ----------

  /** The second pass takes a proper piece, and writes its bytes. */
  lemma PartTaken(p: Part, s: Str, at: nat, end: nat, last: bool)
    requires ProperPart(p, last) && end < |s| && s[end] == '\"' && at + |SpelledPart(p)| <= end
    requires s[at..at + |SpelledPart(p)|] == SpelledPart(p) && (last ==> at + |SpelledPart(p)| == end)
    ensures Next(s, at, end) == Piece(BytesOf(p), if p.Lone? then 2 else |SpelledPart(p)|)
  {
    hide Hex4, IsHex4, HexIs, StandardUtf8, Utf8, Next;
    var t := SpelledPart(p);
    match p {
      case Unit(v, digits) => UnitTaken(v, digits, s, at, end);
      case NoUnit(four) => NoUnitTaken(four, s, at, end);
      case Surrogates(high, h, low, l) => SurrogatesTaken(high, h, low, l, s, at, end);
      case _ => SimpleTaken(p, s, at, end, last);
    }
  }

  lemma SimpleTaken(p: Part, s: Str, at: nat, end: nat, last: bool)
    requires (p.Own? || p.Letter? || p.Lone?) && ProperPart(p, last) && end < |s| && s[end] == '\"'
    requires at + |SpelledPart(p)| <= end && s[at..at + |SpelledPart(p)|] == SpelledPart(p)
    requires last ==> at + |SpelledPart(p)| == end
    ensures Next(s, at, end) == Piece(BytesOf(p), if p.Lone? then 2 else |SpelledPart(p)|)
  {
    var t := s[at..at + |SpelledPart(p)|];
    assert s[at] == t[0];
    if p.Letter? {
      assert s[at + 1] == t[1];
      LetterMeans(p.which);
    }
  }

  lemma LetterMeans(i: nat)
    requires i < 8
    ensures LETTERS[i] != 'u' && Unescape(LETTERS[i]) == Some(MEANT[i])
  {
  }

  lemma UnitTaken(v: nat, digits: Str, s: Str, at: nat, end: nat)
    requires HexSpells(digits, v) && !(0xD800 <= v <= 0xDFFF) && end < |s|
    requires at + 6 <= end && s[at..at + 6] == "\\u" + digits
    ensures Next(s, at, end) == Piece(StandardUtf8(v), 6)
  {
    hide Hex4, IsHex4, HexIs, StandardUtf8, Utf8;
    assert s[at + 2..at + 6] == s[at..at + 6][2..] == digits;
    assert s[at] == s[at..at + 6][0] && s[at + 1] == s[at..at + 6][1];
    Hex4Exactly(s, at + 2, v);
    Utf8IsStandard(v);
  }

  lemma NoUnitTaken(four: Str, s: Str, at: nat, end: nat)
    requires |four| == 4 && (forall v :: !HexSpells(four, v)) && end < |s|
    requires at + 6 <= end && s[at..at + 6] == "\\u" + four
    ensures Next(s, at, end) == Piece("\0", 6)
  {
    hide HexSpells, StandardUtf8, Utf8;
    assert s[at + 2..at + 6] == s[at..at + 6][2..] == four;
    assert s[at] == s[at..at + 6][0] && s[at + 1] == s[at..at + 6][1];
    Hex4Exactly(s, at + 2, Hex4(s, at + 2));
    Utf8IsStandard(0);
    assert StandardUtf8(0) == "\0" by { ZeroByte(); }
  }

  lemma ZeroByte()
    ensures StandardUtf8(0) == "\0"
  {
  }

  lemma SurrogatesTaken(high: nat, h: Str, low: nat, l: Str, s: Str, at: nat, end: nat)
    requires HexSpells(h, high) && 0xD800 <= high <= 0xDBFF && HexSpells(l, low) && 0xDC00 <= low <= 0xDFFF && end < |s|
    requires at + 12 <= end && s[at..at + 12] == "\\u" + h + ("\\u" + l)
    ensures Next(s, at, end) == Piece(StandardUtf8(Joined(high, low)), 12)
  {
    hide Hex4, IsHex4, HexIs, StandardUtf8, Utf8;
    var t := s[at..at + 12];
    TwoUnits(t, h, l);
    SliceOfSlice(s, at, 12, 2, 6);
    SliceOfSlice(s, at, 12, 8, 12);
    assert s[at] == t[0] && s[at + 1] == t[1] && s[at + 6] == t[6] && s[at + 7] == t[7];
    Hex4Exactly(s, at + 2, high);
    Hex4Exactly(s, at + 8, low);
    Utf8IsStandard(Joined(high, low));
  }

  lemma SliceOfSlice(s: Str, a: nat, n: nat, i: nat, k: nat)
    requires i <= k <= n && a + n <= |s|
    ensures s[a..a + n][i..k] == s[a + i..a + k]
  {
    assert s[a..a + n] == s[a..a + i] + s[a + i..a + k] + s[a + k..a + n];
  }

  lemma TwoUnits(t: Str, h: Str, l: Str)
    requires |h| == 4 && |l| == 4 && t == "\\u" + h + ("\\u" + l)
    ensures |t| == 12 && t[2..6] == h && t[8..] == l
    ensures t[0] == t[6] == '\\' && t[1] == t[7] == 'u'
  {
  }

  /** What the second pass takes is a proper piece. */
  lemma TakenPart(s: Str, at: nat, end: nat) returns (p: Part)
    requires at < end < |s| && s[end] == '\"' && Next(s, at, end).Piece?
    ensures var n := |SpelledPart(p)|;
            n > 0 && at + n <= end && s[at..at + n] == SpelledPart(p) && ProperPart(p, at + n == end)
            && Next(s, at, end) == Piece(BytesOf(p), if p.Lone? then 2 else n)
  {
    hide Hex4, IsHex4, HexSpells, StandardUtf8, Utf8;
    if s[at] != '\\' {
      p := Own(s[at]);
    } else if at + 1 == end {
      p := Lone;
    } else if s[at + 1] == 'u' {
      p := TakenUnits(s, at, end);
    } else {
      p := TakenLetter(s, at, end);
    }
  }

  lemma TakenLetter(s: Str, at: nat, end: nat) returns (p: Part)
    requires at + 1 < end < |s| && s[at] == '\\' && s[at + 1] != 'u' && Next(s, at, end).Piece?
    ensures p.Letter? && p.which < 8 && s[at..at + 2] == SpelledPart(p)
    ensures Next(s, at, end) == Piece([MEANT[p.which]], 2)
  {
    var c := s[at + 1];
    var i := if c == '\"' then 0 else if c == '\\' then 1 else if c == '/' then 2 else if c == 'b' then 3
             else if c == 'f' then 4 else if c == 'n' then 5 else if c == 'r' then 6 else 7;
    assert LETTERS[i] == c;
    p := Letter(i);
  }

  lemma TakenUnits(s: Str, at: nat, end: nat) returns (p: Part)
    requires at + 1 < end < |s| && s[at] == '\\' && s[at + 1] == 'u' && Next(s, at, end).Piece?
    ensures var n := |SpelledPart(p)|;
            !p.Lone? && at + n <= end && s[at..at + n] == SpelledPart(p) && ProperPart(p, at + n == end)
            && Next(s, at, end) == Piece(BytesOf(p), n)
  {
    hide Hex4, IsHex4, HexSpells, StandardUtf8, Utf8;
    var four := s[at + 2..at + 6];
    var first := Hex4(s, at + 2);
    Hex4Exactly(s, at + 2, first);
    assert s[at..at + 6] == "\\u" + four;
    if !IsHex4(s, at + 2) {
      forall v ensures !HexSpells(four, v) { Hex4Exactly(s, at + 2, v); }
      p := NoUnit(four);
      NoUnitTaken(four, s, at, end);
    } else if 0xD800 <= first <= 0xDBFF {
      p := TakenPair(s, at, end);
    } else {
      p := Unit(first, four);
      UnitTaken(first, four, s, at, end);
    }
  }

  lemma TakenPair(s: Str, at: nat, end: nat) returns (p: Part)
    requires at + 6 <= end < |s| && s[at] == '\\' && s[at + 1] == 'u' && Next(s, at, end).Piece?
    requires IsHex4(s, at + 2) && 0xD800 <= Hex4(s, at + 2) <= 0xDBFF
    ensures p.Surrogates? && ProperPart(p, false) && |SpelledPart(p)| == 12 && at + 12 <= end
    ensures s[at..at + 12] == SpelledPart(p) && Next(s, at, end) == Piece(BytesOf(p), 12)
  {
    hide Hex4, IsHex4, HexSpells, StandardUtf8, Utf8;
    var high, low := Hex4(s, at + 2), Hex4(s, at + 8);
    var h, l := s[at + 2..at + 6], s[at + 8..at + 12];
    Hex4Exactly(s, at + 2, high);
    Hex4Exactly(s, at + 8, low);
    assert IsHex4(s, at + 8) by { BadIsZero(s, at + 8); }
    p := Surrogates(high, h, low, l);
    assert |h| == 4 && |l| == 4 && s[at..at + 12] == "\\u" + h + ("\\u" + l);
    SurrogatesTaken(high, h, low, l, s, at, end);
  }

  lemma BadIsZero(s: Str, i: nat)
    requires i + 4 <= |s|
    ensures !IsHex4(s, i) ==> Hex4(s, i) == 0
  {
  }

  // ---------- all pieces ----------

  lemma PartsBehind(ps: seq<Part>)
    requires ps != [] && ProperParts(ps)
    ensures ProperPart(ps[0], |ps| == 1) && ProperParts(ps[1..])
    ensures SpelledParts(ps) == SpelledPart(ps[0]) + SpelledParts(ps[1..])
    ensures BytesOfParts(ps) == BytesOf(ps[0]) + BytesOfParts(ps[1..])
  {
    hide ProperPart, SpelledPart, BytesOf;
    assert forall i | 0 <= i < |ps[1..]| :: ps[1..][i] == ps[i + 1];
  }

  lemma PartsInFront(p: Part, ps: seq<Part>)
    requires ProperPart(p, ps == []) && ProperParts(ps)
    ensures ProperParts([p] + ps) && SpelledParts([p] + ps) == SpelledPart(p) + SpelledParts(ps)
    ensures BytesOfParts([p] + ps) == BytesOf(p) + BytesOfParts(ps)
  {
    hide ProperPart, SpelledPart, BytesOf;
    var qs := [p] + ps;
    forall i | 0 <= i < |qs| ensures ProperPart(qs[i], i == |qs| - 1) {
      if i > 0 { assert qs[i] == ps[i - 1]; }
    }
    assert qs[1..] == ps;
  }

  /** The second pass behind one piece; behind a backslash left alone it has nothing more to read. */
  lemma DecodeStep(s: Str, at: nat, end: nat, piece: Piece, n: nat)
    requires at < end < |s| && Next(s, at, end) == piece && piece.Piece? && at + n <= end
    requires piece.width == n || (at + n == end && piece.width > n)
    ensures Decode(s, at, end) == Prepend(piece.bytes, Decode(s, at + n, end))
  {
    hide Next;
  }

  lemma {:induction false} PartsDecoded(ps: seq<Part>, s: Str, at: nat, end: nat)
    requires ProperParts(ps) && at <= end < |s| && s[end] == '\"' && s[at..end] == SpelledParts(ps)
    ensures Decode(s, at, end) == Accepted(BytesOfParts(ps))
    decreases |ps|
  {
    if ps == [] {
      NoParts();
    } else {
      hide ProperPart, ProperParts, SpelledPart, SpelledParts, BytesOf, BytesOfParts, Next, Decode, Prepend;
      PartsBehind(ps);
      FirstDecoded(ps, s, at, end);
      PartsDecoded(ps[1..], s, at + |SpelledPart(ps[0])|, end);
      PrependAccepted(BytesOf(ps[0]), BytesOfParts(ps[1..]));
    }
  }

  lemma PrependAccepted(a: Str, b: Str)
    ensures Prepend(a, Accepted(b)) == Accepted(a + b)
  {
  }

  lemma FirstDecoded(ps: seq<Part>, s: Str, at: nat, end: nat)
    requires ps != [] && ProperPart(ps[0], |ps| == 1) && at <= end < |s| && s[end] == '\"'
    requires s[at..end] == SpelledPart(ps[0]) + SpelledParts(ps[1..])
    ensures var next := at + |SpelledPart(ps[0])|;
            next <= end && s[next..end] == SpelledParts(ps[1..])
            && Decode(s, at, end) == Prepend(BytesOf(ps[0]), Decode(s, next, end))
  {
    hide ProperPart, ProperParts, SpelledPart, BytesOf, Next, Decode, Prepend;
    if |ps| == 1 { assert SpelledParts(ps[1..]) == ""; }
    hide SpelledParts;
    SplitHere(s, at, end, SpelledPart(ps[0]), SpelledParts(ps[1..]));
    PartTaken(ps[0], s, at, end, |ps| == 1);
    PartLength(ps[0], |ps| == 1);
    DecodeStep(s, at, end, Next(s, at, end), |SpelledPart(ps[0])|);
  }

  lemma SplitHere(s: Str, at: nat, end: nat, a: Str, b: Str)
    requires at <= end <= |s| && s[at..end] == a + b
    ensures at + |a| <= end && s[at..at + |a|] == a && s[at + |a|..end] == b
  {
    DropPrefix(a, b);
    assert s[at..end][..|a|] == s[at..at + |a|] && s[at..end][|a|..] == s[at + |a|..end];
  }

  lemma NoParts()
    ensures SpelledParts([]) == "" && ProperParts([]) && BytesOfParts([]) == ""
  {
  }

  lemma PartLength(p: Part, last: bool)
    requires ProperPart(p, last)
    ensures SpelledPart(p) != "" && (p.Lone? ==> last && SpelledPart(p) == "\\")
  {
  }

  lemma {:induction false} DecodedParts(s: Str, at: nat, end: nat) returns (ps: seq<Part>)
    requires at <= end < |s| && s[end] == '\"' && Decode(s, at, end).Accepted?
    ensures ProperParts(ps) && s[at..end] == SpelledParts(ps) && BytesOfParts(ps) == Decode(s, at, end).text
    decreases end - at
  {
    hide ProperPart, ProperParts, SpelledPart, SpelledParts, BytesOf, BytesOfParts, Next;
    NoParts();
    if at == end {
      ps := [];
      assert s[at..end] == "";
    } else {
      var p := TakenPart(s, at, end);
      var n := |SpelledPart(p)|;
      PartLength(p, at + n == end);
      DecodeStep(s, at, end, Next(s, at, end), n);
      var rest := DecodedParts(s, at + n, end);
      if at + n == end { rest := []; }
      assert s[at..end] == s[at..at + n] + s[at + n..end];
      PartsInFront(p, rest);
      ps := [p] + rest;
    }
  }
}
