/** What the minifier makes of every text, piece by piece: white space, comments, string literals and other
    characters. The pieces are said without the minifier, and every text is made of them. */
module MinifiedPieces {
  import opened CStrings
  import opened Minifying

  /** A piece of a text. A line comment has its line end, or is the last piece; a block comment and a string are
      closed, or are the last piece. */
  datatype Piece =
    | Space(c: char)
    | Line(text: Str)
    | LastLine(text: Str)
    | Block(text: Str)
    | OpenBlock(text: Str)
    | Slash
    | Literal(text: Str)
    | OpenLiteral(text: Str)
    | Other(c: char)

  function Spelled(p: Piece): Str {
    match p
    case Space(c) => [c]
    case Line(t) => "//" + (t + "\n")
    case LastLine(t) => "//" + t
    case Block(t) => "/*" + (t + "*/")
    case OpenBlock(t) => "/*" + t
    case Slash => "/"
    case Literal(t) => "\"" + (t + "\"")
    case OpenLiteral(t) => "\"" + t
    case Other(c) => [c]
  }

  /** Strings and other characters are kept, the rest is dropped. */
  function Kept(p: Piece): Str {
    match p
    case Literal(_) | OpenLiteral(_) | Other(_) => Spelled(p)
    case _ => ""
  }

  predicate ClosesAt(t: Str, i: nat) {
    i + 1 < |t| && t[i] == '*' && t[i + 1] == '/'
  }

  /** Every quote in it has a backslash in front of it. */
  predicate QuotesEscaped(t: Str) {
    forall i | 0 <= i < |t| && t[i] == '\"' :: i > 0 && t[i - 1] == '\\'
  }

  /** A proper piece, in front of some rest of the text. */
  predicate Proper(p: Piece, rest: Str) {
    match p
    case Space(c) => c == ' ' || c == '\t' || c == '\r' || c == '\n'
    case Line(t) => '\n' !in t
    case LastLine(t) => '\n' !in t && rest == ""
    case Block(t) => forall i | 0 <= i < |t| :: !ClosesAt(t + "*/", i)
    case OpenBlock(t) => (forall i | 0 <= i < |t| :: !ClosesAt(t, i)) && rest == ""
    case Slash => rest == "" || (rest[0] != '/' && rest[0] != '*')
    case Literal(t) => QuotesEscaped(t) && (t == "" || t[|t| - 1] != '\\')
    case OpenLiteral(t) => QuotesEscaped(t) && rest == ""
    case Other(c) => c != ' ' && c != '\t' && c != '\r' && c != '\n' && c != '/' && c != '\"'
  }

  function SpelledAll(ps: seq<Piece>): Str {
    if ps == [] then "" else Spelled(ps[0]) + SpelledAll(ps[1..])
  }

  function KeptAll(ps: seq<Piece>): Str {
    if ps == [] then "" else Kept(ps[0]) + KeptAll(ps[1..])
  }

  predicate ProperAll(ps: seq<Piece>, rest: Str) {
    ps == [] || (Proper(ps[0], SpelledAll(ps[1..]) + rest) && ProperAll(ps[1..], rest))
  }

  // ---------- comments and literals ----------

  lemma {:induction false} LineSkipped(t: Str, r: Str)
    requires '\n' !in t
    ensures BehindLine(t + "\n" + r) == r
  {
    var s := t + "\n" + r;
    if t == "" {
      assert s[0] == '\n' && s[1..] == r;
    } else {
      assert s[0] == t[0] && t[0] in t && s[1..] == t[1..] + "\n" + r;
      LineSkipped(t[1..], r);
    }
  }

  lemma {:induction false} LastLineSkipped(t: Str)
    requires '\n' !in t
    ensures BehindLine(t) == ""
  {
    if t != "" {
      assert t[0] in t;
      LastLineSkipped(t[1..]);
    }
  }

  lemma {:induction false} BlockSkipped(t: Str, r: Str)
    requires forall i | 0 <= i < |t| :: !ClosesAt(t + "*/", i)
    ensures BehindComment(t + "*/" + r) == r
  {
    var s, u := t + "*/" + r, t + "*/";
    if t == "" {
      assert s[0] == '*' && s[1] == '/' && s[2..] == r;
    } else {
      assert s[0] == u[0] && s[1] == u[1] && !ClosesAt(u, 0);
      assert s[1..] == t[1..] + "*/" + r && u[1..] == t[1..] + "*/";
      forall i | 0 <= i < |t[1..]| ensures !ClosesAt(u[1..], i) { assert !ClosesAt(u, i + 1); }
      BlockSkipped(t[1..], r);
    }
  }

  lemma {:induction false} OpenBlockSkipped(t: Str)
    requires forall i | 0 <= i < |t| :: !ClosesAt(t, i)
    ensures BehindComment(t) == ""
  {
    if t != "" {
      assert !ClosesAt(t, 0);
      forall i | 0 <= i < |t[1..]| ensures !ClosesAt(t[1..], i) { assert !ClosesAt(t, i + 1); }
      OpenBlockSkipped(t[1..]);
    }
  }

  /** A literal is copied up to the first quote without a backslash in front of it. */
  lemma {:induction false} LiteralKept(before: Str, t: Str, r: Str)
    requires QuotesEscaped(before + t) && (t == "" ==> before == "" || before[|before| - 1] != '\\')
    requires t != "" ==> t[0] != '\"' && t[|t| - 1] != '\\'
    ensures LiteralLength(t + "\"" + r) == |t| + 1
    decreases |t|
  {
    var s, all := t + "\"" + r, before + t;
    if t == "" {
      assert s[0] == '\"';
    } else {
      assert s[0] == t[0] && s[1..] == t[1..] + "\"" + r;
      if t[0] == '\\' && |t| > 1 && t[1] == '\"' {
        assert s[1] == '\"' && s[2..] == t[2..] + "\"" + r && before + t[..2] + t[2..] == all;
        assert |t| > 2 ==> all[|before| + 2] == t[2] && all[|before| + 1] == t[1];
        LiteralKept(before + t[..2], t[2..], r);
      } else {
        if |t| > 1 {
          assert all[|before|] == t[0] && all[|before| + 1] == t[1];
        } else {
          assert s[1] == '\"';
        }
        assert before + t[..1] + t[1..] == all;
        LiteralKept(before + t[..1], t[1..], r);
      }
    }
  }

  lemma {:induction false} OpenLiteralKept(before: Str, t: Str)
    requires QuotesEscaped(before + t) && (t != "" ==> t[0] != '\"')
    ensures LiteralLength(t) == |t|
    decreases |t|
  {
    var all := before + t;
    if t != "" {
      if t[0] == '\\' && |t| > 1 && t[1] == '\"' {
        assert before + t[..2] + t[2..] == all;
        assert |t| > 2 ==> all[|before| + 2] == t[2] && all[|before| + 1] == t[1];
        OpenLiteralKept(before + t[..2], t[2..]);
      } else {
        if |t| > 1 { assert all[|before|] == t[0] && all[|before| + 1] == t[1]; }
        assert before + t[..1] + t[1..] == all;
        OpenLiteralKept(before + t[..1], t[1..]);
      }
    }
  }

  // ---------- one piece ----------

  /** A proper piece is kept or dropped, and the minifier goes on behind it. */
  lemma PieceMinified(p: Piece, r: Str)
    requires Proper(p, r)
    ensures Minified(Spelled(p) + r) == Kept(p) + Minified(r)
  {
    hide Minified, BehindLine, BehindComment, LiteralLength;
    var s := Spelled(p) + r;
    match p {
      case Space(c) =>
        SpaceDropped([c], r);
      case Line(t) =>
        assert s == "//" + (t + "\n" + r);
        LineSkipped(t, r);
        CommentMinified(t + "\n" + r, '/');
      case LastLine(t) =>
        assert s == "//" + t;
        LastLineSkipped(t);
        CommentMinified(t, '/');
      case Block(t) =>
        assert s == "/*" + (t + "*/" + r);
        BlockSkipped(t, r);
        CommentMinified(t + "*/" + r, '*');
      case OpenBlock(t) =>
        assert s == "/*" + t;
        OpenBlockSkipped(t);
        CommentMinified(t, '*');
      case Slash =>
        SlashMinified(r);
      case Literal(t) =>
        LiteralMinified(t, r);
      case OpenLiteral(t) =>
        OpenLiteralMinified(t);
        assert s == Spelled(p) && Kept(p) + "" == Kept(p);
        NothingLeft();
      case Other(c) =>
        OrdinaryKept([c], r);
    }
    assert "" + Minified(r) == Minified(r);
  }

  lemma CommentMinified(t: Str, second: char)
    requires second == '/' || second == '*'
    ensures Minified(['/', second] + t) == Minified(if second == '/' then BehindLine(t) else BehindComment(t))
  {
    hide BehindLine, BehindComment, LiteralLength;
    var s := ['/', second] + t;
    assert s[2..] == t;
  }

  lemma SlashMinified(r: Str)
    requires r == "" || (r[0] != '/' && r[0] != '*')
    ensures Minified("/" + r) == Minified(r)
  {
    hide BehindLine, BehindComment, LiteralLength;
    var s := "/" + r;
    assert s[1..] == r;
    if r != "" { assert s[1] == r[0]; }
  }

  lemma LiteralMinified(t: Str, r: Str)
    requires QuotesEscaped(t) && (t == "" || t[|t| - 1] != '\\')
    ensures Minified("\"" + (t + "\"") + r) == "\"" + (t + "\"") + Minified(r)
  {
    hide Minified, LiteralLength;
    var s, n := "\"" + (t + "\"") + r, |t| + 2;
    assert "" + t == t;
    LiteralKept("", t, r);
    assert s[1..] == t + "\"" + r;
    MinifiedQuote(s);
    assert s[..n] == "\"" + (t + "\"") && s[n..] == r;
  }

  lemma OpenLiteralMinified(t: Str)
    requires QuotesEscaped(t)
    ensures Minified("\"" + t) == "\"" + t
  {
    hide Minified, LiteralLength;
    var s := "\"" + t;
    assert "" + t == t;
    OpenLiteralKept("", t);
    assert s[1..] == t;
    MinifiedQuote(s);
    NothingLeft();
    assert s[..|s|] == s && s[|s|..] == "" && s + "" == s;
  }

  // ---------- every text ----------

  /** The minified text is made of the pieces that are kept, in front of whatever follows. */
  lemma {:induction false} PiecesMinified(ps: seq<Piece>, r: Str)
    requires ProperAll(ps, r)
    ensures Minified(SpelledAll(ps) + r) == KeptAll(ps) + Minified(r)
    decreases |ps|
  {
    hide Minified, Spelled, Kept, Proper;
    if ps == [] {
      assert "" + r == r && "" + Minified(r) == Minified(r);
    } else {
      var rest := SpelledAll(ps[1..]);
      PiecesMinified(ps[1..], r);
      PieceMinified(ps[0], rest + r);
      Assoc(Spelled(ps[0]), rest, r);
      Assoc(Kept(ps[0]), KeptAll(ps[1..]), Minified(r));
    }
  }

  /** A line comment behind whole pieces is dropped with its line end, whatever follows. */
  lemma LineCommentDropped(ps: seq<Piece>, comment: Str, r: Str)
    requires ProperAll(ps, "//" + (comment + "\n") + r) && '\n' !in comment
    ensures Minified(SpelledAll(ps) + ("//" + (comment + "\n") + r)) == KeptAll(ps) + Minified(r)
  {
    hide Minified;
    PiecesMinified(ps, "//" + (comment + "\n") + r);
    PieceMinified(Line(comment), r);
    assert "" + Minified(r) == Minified(r);
  }

  /** So is a block comment, up to the first place where it is closed. */
  lemma BlockCommentDropped(ps: seq<Piece>, comment: Str, r: Str)
    requires ProperAll(ps, "/*" + (comment + "*/") + r)
    requires forall i | 0 <= i < |comment| :: !ClosesAt(comment + "*/", i)
    ensures Minified(SpelledAll(ps) + ("/*" + (comment + "*/") + r)) == KeptAll(ps) + Minified(r)
  {
    hide Minified;
    PiecesMinified(ps, "/*" + (comment + "*/") + r);
    PieceMinified(Block(comment), r);
    assert "" + Minified(r) == Minified(r);
  }

  /** A comment that the text ends in is dropped as well. */
  lemma OpenCommentDropped(ps: seq<Piece>, comment: Str)
    ensures ProperAll(ps, "//" + comment) && '\n' !in comment ==>
              Minified(SpelledAll(ps) + ("//" + comment)) == KeptAll(ps)
    ensures ProperAll(ps, "/*" + comment) && (forall i | 0 <= i < |comment| :: !ClosesAt(comment, i)) ==>
              Minified(SpelledAll(ps) + ("/*" + comment)) == KeptAll(ps)
  {
    hide Minified, ProperAll, SpelledAll, KeptAll;
    NothingLeft();
    assert KeptAll(ps) + "" == KeptAll(ps) && "" + Minified("") == "";
    if ProperAll(ps, "//" + comment) && '\n' !in comment {
      PiecesMinified(ps, "//" + comment);
      PieceMinified(LastLine(comment), "");
      assert "//" + comment + "" == "//" + comment;
    }
    if ProperAll(ps, "/*" + comment) && forall i | 0 <= i < |comment| :: !ClosesAt(comment, i) {
      PiecesMinified(ps, "/*" + comment);
      PieceMinified(OpenBlock(comment), "");
      assert "/*" + comment + "" == "/*" + comment;
    }
  }

  // ---------- every text has pieces ----------

  /** A text up to its first line end. */
  lemma {:induction false} SplitLine(s: Str) returns (t: Str, closed: bool, r: Str)
    ensures '\n' !in t && if closed then s == t + "\n" + r else s == t && r == ""
  {
    if s == "" {
      t, closed, r := "", false, "";
    } else if s[0] == '\n' {
      t, closed, r := "", true, s[1..];
    } else {
      t, closed, r := SplitLine(s[1..]);
      assert s == [s[0]] + s[1..];
      t := [s[0]] + t;
    }
  }

  lemma {:induction false} SplitBlock(s: Str) returns (t: Str, closed: bool, r: Str)
    ensures if closed then s == t + "*/" + r && forall i | 0 <= i < |t| :: !ClosesAt(t + "*/", i)
            else s == t && r == "" && forall i | 0 <= i < |t| :: !ClosesAt(t, i)
  {
    if s == "" {
      t, closed, r := "", false, "";
    } else if ClosesAt(s, 0) {
      t, closed, r := "", true, s[2..];
    } else {
      t, closed, r := SplitBlock(s[1..]);
      var u := [s[0]] + t;
      assert s == [s[0]] + s[1..];
      if closed {
        assert s == u + "*/" + r;
        BlockGrows(s[0], t + "*/");
        assert u + "*/" == [s[0]] + (t + "*/");
        assert forall i | 0 <= i < 2 && i < |u + "*/"| :: s[i] == (u + "*/")[i];
      } else {
        BlockGrows(s[0], t);
      }
      t := u;
    }
  }

  lemma BlockGrows(c: char, t: Str)
    ensures forall i | 1 <= i <= |t| :: ClosesAt([c] + t, i) <==> ClosesAt(t, i - 1)
  {
    var u := [c] + t;
    assert forall i | 1 <= i < |u| :: u[i] == t[i - 1];
  }

  /** A text up to the first quote without a backslash in front of it; `before` is in front of the text. */
  lemma {:induction false} SplitLiteral(before: char, s: Str) returns (t: Str, closed: bool, r: Str)
    ensures s == if closed then t + "\"" + r else t
    ensures !closed ==> r == ""
    ensures forall i | 0 <= i < |t| && t[i] == '\"' :: ([before] + t)[i] == '\\'
    ensures closed ==> ([before] + t)[|t|] != '\\'
    decreases |s|
  {
    if s == "" {
      t, closed, r := "", false, "";
    } else if s[0] == '\"' && before != '\\' {
      t, closed, r := "", true, s[1..];
    } else {
      var rest;
      rest, closed, r := SplitLiteral(s[0], s[1..]);
      assert s == [s[0]] + s[1..];
      t := [s[0]] + rest;
      forall i | 0 <= i < |t| && t[i] == '\"' ensures ([before] + t)[i] == '\\' {
        if i > 0 { assert t[i] == rest[i - 1] && ([before] + t)[i] == t[i - 1]; }
      }
    }
  }

  lemma FirstPiece(s: Str) returns (p: Piece, r: Str)
    requires s != ""
    ensures s == Spelled(p) + r && Proper(p, r) && |r| < |s|
  {
    assert s == [s[0]] + s[1..];
    if s[0] == '\"' {
      p, r := FirstLiteral(s[1..]);
    } else if s[0] == '/' && |s| > 1 && (s[1] == '/' || s[1] == '*') {
      assert s == ['/', s[1]] + s[2..];
      p, r := FirstComment(s[1], s[2..]);
    } else {
      p := if s[0] == ' ' || s[0] == '\t' || s[0] == '\r' || s[0] == '\n' then Space(s[0])
           else if s[0] == '/' then Slash else Other(s[0]);
      r := s[1..];
    }
  }

  lemma FirstLiteral(s: Str) returns (p: Piece, r: Str)
    ensures "\"" + s == Spelled(p) + r && Proper(p, r) && |r| <= |s|
  {
    var t, closed;
    t, closed, r := SplitLiteral(' ', s);
    p := if closed then Literal(t) else OpenLiteral(t);
    assert "\"" + s == Spelled(p) + r;
    forall i | 0 <= i < |t| && t[i] == '\"' ensures i > 0 && t[i - 1] == '\\' {
      assert ([' '] + t)[i] == '\\';
    }
    assert closed && t != "" ==> ([' '] + t)[|t|] == t[|t| - 1];
  }

  lemma FirstComment(second: char, s: Str) returns (p: Piece, r: Str)
    requires second == '/' || second == '*'
    ensures ['/', second] + s == Spelled(p) + r && Proper(p, r) && |r| <= |s|
  {
    var t, closed;
    if second == '/' {
      t, closed, r := SplitLine(s);
      p := if closed then Line(t) else LastLine(t);
    } else {
      t, closed, r := SplitBlock(s);
      p := if closed then Block(t) else OpenBlock(t);
    }
    assert ['/', second] + s == Spelled(p) + r;
  }

  lemma {:induction false} TextPieces(s: Str) returns (ps: seq<Piece>)
    ensures SpelledAll(ps) == s && ProperAll(ps, "")
    decreases |s|
  {
    if s == "" {
      ps := [];
    } else {
      hide Spelled, Proper;
      var p, r := FirstPiece(s);
      var rest := TextPieces(r);
      ps := [p] + rest;
      assert ps[1..] == rest && r + "" == r;
    }
  }

  /** Every text is made of proper pieces, and its minified form of those that are kept. */
  lemma EveryTextMinified(s: Str)
    ensures exists ps :: ProperAll(ps, "") && SpelledAll(ps) == s && Minified(s) == KeptAll(ps)
  {
    hide Minified, ProperAll, SpelledAll, KeptAll;
    var ps := TextPieces(s);
    PiecesMinified(ps, "");
    NothingLeft();
    assert s + "" == s && KeptAll(ps) + "" == KeptAll(ps);
  }
}
