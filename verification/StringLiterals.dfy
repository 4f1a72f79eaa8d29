/** JSON string literals: the two passes of the string parser, and the escapes of UTF-16 code units. */
module StringLiterals {
  import opened CStrings

  // ----- Code points and their bytes -----

  /** The value of a hexadecimal digit, if it is one. */
  function HexValue(c: char): (v: int)
    ensures -1 <= v < 16
  {
    if '0' <= c <= '9' then c as int - '0' as int
    else if 'A' <= c <= 'F' then 10 + c as int - 'A' as int
    else if 'a' <= c <= 'f' then 10 + c as int - 'a' as int
    else -1
  }

  predicate IsHex4(s: Str, i: nat)
    requires i + 4 <= |s|
  {
    HexValue(s[i]) >= 0 && HexValue(s[i + 1]) >= 0 && HexValue(s[i + 2]) >= 0 && HexValue(s[i + 3]) >= 0
  }

  /** Four digits; a bad digit makes them count as zero. */
  function Hex4(s: Str, i: nat): (h: nat)
    requires i + 4 <= |s|
    ensures h < 0x10000
  {
    if IsHex4(s, i)
    then HexValue(s[i]) * 0x1000 + HexValue(s[i + 1]) * 0x100 + HexValue(s[i + 2]) * 0x10 + HexValue(s[i + 3])
    else 0
  }

  /** parse_hex4. */
  method ParseHex4(s: Str, i: nat) returns (h: nat)
    requires i + 4 <= |s|
    ensures h == Hex4(s, i)
  {
    h := 0;
    var k := 0;
    while k < 4
      invariant k <= 4
      invariant forall n | i <= n < i + k :: HexValue(s[n]) >= 0
      invariant k == 0 ==> h == 0
      invariant k == 1 ==> h == HexValue(s[i]) * 0x10
      invariant k == 2 ==> h == HexValue(s[i]) * 0x100 + HexValue(s[i + 1]) * 0x10
      invariant k == 3 ==> h == HexValue(s[i]) * 0x1000 + HexValue(s[i + 1]) * 0x100 + HexValue(s[i + 2]) * 0x10
      invariant k == 4 ==> h == Hex4(s, i)
    {
      var v := HexValue(s[i + k]);
      if v < 0 { return 0; }
      h := h + v;
      if k < 3 { h := h * 16; }
      k := k + 1;
    }
  }

  const MAX_CODE_POINT := 0x10FFFF

  /** How many continuation bytes a code point takes. */
  function Continuations(point: nat): nat {
    if point < 0x80 then 0 else if point < 0x800 then 1 else if point < 0x10000 then 2 else 3
  }

  /** The mark of the first byte before n continuation bytes. */
  function Mark(n: nat): nat {
    if n == 0 then 0 else if n == 1 then 0xC0 else if n == 2 then 0xE0 else 0xF0
  }

  /** A code point without its last n groups of six bits. */
  function Shifted(point: nat, n: nat): nat {
    if n == 0 then point else Shifted(point / 64, n - 1)
  }

  /** The last n groups of six bits, each in a continuation byte. */
  function Trail(point: nat, n: nat): (t: Str)
    ensures |t| == n
  {
    if n == 0 then "" else Trail(point / 64, n - 1) + [(0x80 + point % 64) as char]
  }

  lemma ShiftedBound(point: nat)
    requires point <= MAX_CODE_POINT
    ensures Mark(Continuations(point)) + Shifted(point, Continuations(point)) < 0xF8
    ensures Continuations(point) == 0 ==> Shifted(point, 0) == point
    ensures Continuations(point) == 1 ==> Shifted(point, 1) == point / 64
    ensures Continuations(point) == 2 ==> Shifted(point, 2) == point / 4096
    ensures Continuations(point) == 3 ==> Shifted(point, 3) == point / 262144
  {
    assert Shifted(point, 1) == Shifted(point / 64, 0) == point / 64;
    assert Shifted(point, 2) == Shifted(point / 64, 1) == Shifted(point / 64 / 64, 0) == point / 4096;
    assert Shifted(point, 3) == Shifted(point / 64, 2) == Shifted(point / 64 / 64, 1)
        == Shifted(point / 64 / 64 / 64, 0) == point / 262144;
  }

  /** The bytes of a code point, as the conversion loop produces them. */
  function Utf8(point: nat): (bytes: Str)
    requires point <= MAX_CODE_POINT
    ensures |bytes| == 1 + Continuations(point)
  {
    ShiftedBound(point);
    var n := Continuations(point);
    [(Mark(n) + Shifted(point, n)) as char] + Trail(point, n)
  }

  datatype Utf16 = NoCode | Code(point: nat, length: nat)

  /** One or two escaped UTF-16 code units at p. */
  function Utf16Literal(s: Str, p: nat, end: nat): (u: Utf16)
    requires p <= end <= |s|
    ensures u.Code? ==> u.point <= MAX_CODE_POINT && p + u.length <= end
    ensures u.Code? ==> u.length == (if u.point < 0x10000 then 6 else 12)
  {
    if end - p < 6 then NoCode else
    var first := Hex4(s, p + 2);
    if 0xDC00 <= first <= 0xDFFF then NoCode
    else if 0xD800 <= first <= 0xDBFF then
      if end - (p + 6) < 6 || s[p + 6] != '\\' || s[p + 7] != 'u' then NoCode else
      var second := Hex4(s, p + 8);
      if second < 0xDC00 || second > 0xDFFF then NoCode
      else Code(0x10000 + (first - 0xD800) * 0x400 + (second - 0xDC00), 12)
    else Code(first, 6)
  }

  /** utf16_literal_to_utf8; masks and shifts are written as remainders and divisions. */
  method Utf16LiteralToUtf8(s: Str, p: nat, end: nat, output: array<char>, at: nat)
    returns (sequenceLength: nat, next: nat)
    requires p <= end <= |s| && at <= output.Length
    requires var u := Utf16Literal(s, p, end); u.Code? ==> at + |Utf8(u.point)| <= output.Length
    modifies output
    ensures var u := Utf16Literal(s, p, end);
            if u.NoCode? then sequenceLength == 0
            else sequenceLength == u.length && next == at + |Utf8(u.point)|
                 && output[..next] == old(output[..at]) + Utf8(u.point)
  {
    hide Hex4, Utf8;
    next := at;
    if end - p < 6 { return 0, at; }
    var firstCode := ParseHex4(s, p + 2);
    if 0xDC00 <= firstCode <= 0xDFFF { return 0, at; }
    var codepoint;
    if 0xD800 <= firstCode <= 0xDBFF {
      sequenceLength := 12;
      if end - (p + 6) < 6 { return 0, at; }
      if s[p + 6] != '\\' || s[p + 7] != 'u' { return 0, at; }
      var secondCode := ParseHex4(s, p + 8);
      if secondCode < 0xDC00 || secondCode > 0xDFFF { return 0, at; }
      codepoint := 0x10000 + (firstCode % 0x400) * 0x400 + secondCode % 0x400;
    } else {
      sequenceLength := 6;
      codepoint := firstCode;
    }
    next := EncodeUtf8(codepoint, output, at);
  }

  /** The continuation bytes from the last to the first, then the first byte. */
  method EncodeUtf8(point: nat, output: array<char>, at: nat) returns (next: nat)
    requires point <= MAX_CODE_POINT && at + |Utf8(point)| <= output.Length
    modifies output
    ensures next == at + |Utf8(point)| && output[..next] == old(output[..at]) + Utf8(point)
  {
    hide Shifted, Trail;
    ghost var before := output[..at];
    var n := Continuations(point);
    ShiftedBound(point);
    var codepoint := EncodeTrail(point, n, output, at + 1);
    output[at] := (Mark(n) + codepoint) as char;
    next := at + 1 + n;
    assert output[..at] == before && output[at + 1..next] == Trail(point, n);
    assert output[..next] == output[..at] + ([output[at]] + output[at + 1..next]);
  }

  /** The encoding loop. */
  method EncodeTrail(point: nat, n: nat, output: array<char>, at: nat) returns (codepoint: nat)
    requires at + n <= output.Length
    modifies output
    ensures codepoint == Shifted(point, n) && output[at..at + n] == Trail(point, n)
    ensures forall i | 0 <= i < at :: output[i] == old(output[i])
  {
    codepoint := point;
    var position := n;
    assert output[at + n..at + n] == "" && Trail(codepoint, n) + "" == Trail(codepoint, n);
    while position > 0
      invariant 0 <= position <= n && Shifted(codepoint, position) == Shifted(point, n)
      invariant Trail(codepoint, position) + output[at + position..at + n] == Trail(point, n)
      invariant forall i | 0 <= i < at :: output[i] == old(output[i])
    {
      ghost var done := output[at + position..at + n];
      position := position - 1;
      output[at + position] := (0x80 + codepoint % 64) as char;
      assert output[at + position..at + n] == [output[at + position]] + done;
      Assoc(Trail(codepoint / 64, position), [output[at + position]], done);
      codepoint := codepoint / 64;
    }
    assert "" + output[at..at + n] == output[at..at + n];
  }

  // ----- The first pass: where the literal ends, and how much room its text needs -----

  /** The closing quote at or behind i, stepping over escaped characters; None when the window ends first. */
  function LiteralEnd(s: Str, i: nat): (end: Option<nat>)
    requires i <= |s|
    ensures end.Some? ==> i <= end.value < |s| && s[end.value] == '\"'
    decreases |s| - i
  {
    if i == |s| then None
    else if s[i] == '\"' then Some(i)
    else if s[i] == '\\' then (if i + 1 == |s| then None else LiteralEnd(s, i + 2))
    else LiteralEnd(s, i + 1)
  }

  /** How many escape pairs the first pass, coming to i, finds to begin before p. */
  function Pairs(s: Str, i: nat, p: nat): nat
    requires p <= |s|
    decreases p - i
  {
    if i >= p then 0
    else if s[i] == '\\' then 1 + Pairs(s, i + 2, p)
    else Pairs(s, i + 1, p)
  }

  lemma PairsInTwo(s: Str, p: nat)
    requires p + 2 <= |s|
    ensures Pairs(s, p, p + 1) <= Pairs(s, p, p + 2) <= 1
    ensures Pairs(s, p + 1, p + 2) <= 1
  {
    assert Pairs(s, p + 2, p + 1) == Pairs(s, p + 2, p + 2) == Pairs(s, p + 1, p + 1) == Pairs(s, p + 3, p + 2) == 0;
  }

  /** Two neighbours hold at most one beginning. */
  lemma {:induction false} PairsApart(s: Str, i: nat, p: nat)
    requires p + 2 <= |s|
    ensures Pairs(s, i, p) <= Pairs(s, i, p + 1) <= Pairs(s, i, p + 2) <= Pairs(s, i, p) + 1
    decreases p + 2 - i
  {
    if i < p {
      PairsApart(s, if s[i] == '\\' then i + 2 else i + 1, p);
    } else {
      PairsInTwo(s, p);
    }
  }

  lemma {:induction false} PairsPlain(s: Str, i: nat, p: nat)
    requires p < |s| && s[p] != '\\'
    ensures Pairs(s, i, p + 1) == Pairs(s, i, p)
    decreases p + 1 - i
  {
    if i < p { PairsPlain(s, if s[i] == '\\' then i + 2 else i + 1, p); }
  }

  /** Over n pairs of neighbours at most n beginnings. */
  lemma {:induction false} PairsSpread(s: Str, i: nat, p: nat, n: nat)
    requires p + 2 * n <= |s|
    ensures Pairs(s, i, p + 2 * n) <= Pairs(s, i, p) + n
  {
    if n > 0 {
      PairsSpread(s, i, p, n - 1);
      PairsApart(s, i, p + 2 * n - 2);
    }
  }

  // ----- The second pass: what the literal says -----

  datatype Decoded = Refused(at: nat) | Accepted(text: Str)

  function Prepend(t: Str, d: Decoded): Decoded {
    if d.Accepted? then Accepted(t + d.text) else d
  }

  /** What a two-character escape stands for. */
  function Unescape(c: char): Option<char> {
    match c
    case 'b' => Some('\U{0008}')
    case 'f' => Some('\U{000C}')
    case 'n' => Some('\n')
    case 'r' => Some('\r')
    case 't' => Some('\t')
    case '\"' => Some('\"')
    case '\\' => Some('\\')
    case '/' => Some('/')
    case _ => None
  }

  datatype Piece = BadPiece | Piece(bytes: Str, width: nat)

  /** What the second pass takes at p, and writes for it. */
  function Next(s: Str, p: nat, end: nat): (piece: Piece)
    requires p < end < |s|
    ensures piece.Piece? ==> piece.bytes != "" && 0 < piece.width && p + piece.width <= end + 1
  {
    if s[p] != '\\' then Piece([s[p]], 1)
    else if s[p + 1] == 'u' then
      var u := Utf16Literal(s, p, end);
      if u.NoCode? then BadPiece else Piece(Utf8(u.point), u.length)
    else
      var c := Unescape(s[p + 1]);
      if c.None? then BadPiece else Piece([c.value], 2)
  }

  /** The text of the literal from p to the closing quote at `end`. */
  function Decode(s: Str, p: nat, end: nat): (d: Decoded)
    requires end < |s|
    ensures d.Refused? ==> p <= d.at < end
    decreases end - p
  {
    if p >= end then Accepted("") else
    var piece := Next(s, p, end);
    if piece.BadPiece? then Refused(p) else Prepend(piece.bytes, Decode(s, p + piece.width, end))
  }

  /** A piece is no longer than what it is taken from, less the escapes the first pass found there. */
  lemma PieceFits(s: Str, start: nat, p: nat, end: nat)
    requires p < end < |s| && Next(s, p, end).Piece?
    ensures var piece := Next(s, p, end);
            |piece.bytes| + Pairs(s, start, p + piece.width) <= piece.width + Pairs(s, start, p)
  {
    if s[p] != '\\' {
      PairsPlain(s, start, p);
    } else if s[p + 1] == 'u' {
      var u := Utf16Literal(s, p, end);
      PairsSpread(s, start, p, u.length / 2);
    } else {
      PairsSpread(s, start, p, 1);
    }
  }

  /** Room only grows along the literal. */
  lemma {:induction false} RoomGrows(s: Str, start: nat, p: nat, q: nat)
    requires p <= q <= |s|
    ensures Pairs(s, start, q) <= Pairs(s, start, p) + (q - p)
    decreases q
  {
    if p < q {
      RoomGrows(s, start, p, q - 1);
      OneMorePair(s, start, q - 1);
    }
  }

  lemma {:induction false} OneMorePair(s: Str, i: nat, p: nat)
    requires p < |s|
    ensures Pairs(s, i, p + 1) <= Pairs(s, i, p) + 1
    decreases p + 1 - i
  {
    if i < p {
      OneMorePair(s, if s[i] == '\\' then i + 2 else i + 1, p);
    } else if i == p {
      assert Pairs(s, p + 2, p + 1) == Pairs(s, p + 1, p + 1) == 0;
    }
  }

  // ----- The two loops -----

  /** The first pass of parse_string: finds the closing quote and counts the escape pairs. */
  method MeasureLiteral(s: Str, start: nat) returns (ok: bool, end: nat, skipped: nat)
    requires start <= |s|
    ensures ok <==> LiteralEnd(s, start).Some?
    ensures ok ==> LiteralEnd(s, start) == Some(end) && skipped == Pairs(s, start, end)
  {
    end, skipped := start, 0;
    ghost var closing := LiteralEnd(s, start);
    while end < |s| && s[end] != '\"'
      invariant start <= end <= |s| && LiteralEnd(s, end) == closing
      invariant closing.Some? ==> skipped + Pairs(s, end, closing.value) == Pairs(s, start, closing.value)
    {
      if s[end] == '\\' {
        if end + 1 >= |s| { return false, end, skipped; }
        skipped := skipped + 1;
        end := end + 1;
      }
      end := end + 1;
    }
    ok := end < |s|;
  }

  /** The second pass of parse_string, into exactly the memory that was asked for: it never writes past it,
      also when malformed escapes make the two passes split the backslashes differently. */
  method DecodeLiteral(s: Str, start: nat, end: nat, output: array<char>) returns (ok: bool, at: nat, written: nat)
    requires start <= |s| && LiteralEnd(s, start) == Some(end)
    requires output.Length == end - (start - 1) - Pairs(s, start, end) + 1
    modifies output
    ensures ok <==> Decode(s, start, end).Accepted?
    ensures ok ==> written < output.Length && output[..written] == Decode(s, start, end).text && output[written] == '\0'
    ensures !ok ==> at == Decode(s, start, end).at
  {
    hide Next, LiteralEnd, Pairs;
    at, written := start, 0;
    ghost var whole := Decode(s, start, end);
    RoomGrows(s, start, start, end);
    NoPairs(s, start);
    assert output[..0] == "" && Prepend("", whole) == whole;
    while at < end
      invariant start <= at <= end + 1 && written + Pairs(s, start, at) <= at - start
      invariant written < output.Length && Prepend(output[..written], Decode(s, at, end)) == whole
    {
      ghost var piece, before := Next(s, at, end), output[..written];
      if piece.Piece? {
        PieceFits(s, start, at, end);
        RoomGrows(s, start, at + piece.width, end + 1);
        LastPair(s, start, end);
        Assoc(before, piece.bytes,
              if Decode(s, at + piece.width, end).Accepted? then Decode(s, at + piece.width, end).text else "");
      }
      var width, next := DecodePiece(s, at, end, output, written);
      if width == 0 { return false, at, written; }
      at, written := at + width, next;
    }
    output[written] := '\0';
    assert output[..written] + "" == output[..written];
    ok := true;
  }

  lemma NoPairs(s: Str, start: nat)
    requires start <= |s|
    ensures Pairs(s, start, start) == 0
  {
  }

  lemma LastPair(s: Str, start: nat, end: nat)
    requires end < |s| && s[end] == '\"'
    ensures Pairs(s, start, end + 1) == Pairs(s, start, end)
  {
    PairsPlain(s, start, end);
  }

  /** One round of the second pass; the width is zero when the escape is refused. */
  method DecodePiece(s: Str, at: nat, end: nat, output: array<char>, written: nat) returns (width: nat, next: nat)
    requires at < end < |s| && written < output.Length
    requires var piece := Next(s, at, end); piece.Piece? ==> written + |piece.bytes| <= output.Length
    modifies output
    ensures var piece := Next(s, at, end);
            if piece.BadPiece? then width == 0
            else width == piece.width && next == written + |piece.bytes|
                 && output[..next] == old(output[..written]) + piece.bytes
  {
    hide Utf16Literal, Utf8;
    next := written + 1;
    if s[at] != '\\' {
      output[written] := s[at];
      return 1, next;
    }
    width := 2;
    match s[at + 1] {
      case 'b' => output[written] := '\U{0008}';
      case 'f' => output[written] := '\U{000C}';
      case 'n' => output[written] := '\n';
      case 'r' => output[written] := '\r';
      case 't' => output[written] := '\t';
      case '\"' | '\\' | '/' => output[written] := s[at + 1];
      case 'u' =>
        width, next := Utf16LiteralToUtf8(s, at, end, output, written);
      case _ => width := 0;
    }
  }
}
