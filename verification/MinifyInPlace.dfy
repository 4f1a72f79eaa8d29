/** The minifier's loops over a C string in memory: the write position never passes the read position,
    and what is left is the minified text. */
module MinifyInPlace {
  import opened CStrings
  import opened Minifying

  /** From r on the memory still holds the text and its terminator. */
  ghost predicate Unread(json: array<char>, s: Str, r: nat)
    reads json
  {
    r <= |s| < json.Length && json[|s|] == '\0' && '\0' !in s && forall i | r <= i < |s| :: json[i] == s[i]
  }

  lemma NoNulAt(s: Str, i: nat)
    requires i < |s| && '\0' !in s
    ensures s[i] != '\0' && s[i..] != "" && s[i..][0] == s[i] && s[i..][1..] == s[i + 1..]
  {
  }

  /** skip_oneline_comment. */
  method SkipOnelineComment(json: array<char>, ghost s: Str, input: nat) returns (next: nat)
    requires Unread(json, s, input) && input + 2 <= |s|
    ensures input < next <= |s| && s[next..] == BehindLine(s[input + 2..])
  {
    next := input + 2;
    while json[next] != '\0'
      invariant input < next <= |s| && BehindLine(s[next..]) == BehindLine(s[input + 2..])
      decreases |s| - next
    {
      NoNulAt(s, next);
      if json[next] == '\n' {
        next := next + 1;
        return;
      }
      next := next + 1;
    }
    AtEnd(json, s, input, next);
  }

  lemma AtEnd(json: array<char>, s: Str, r: nat, next: nat)
    requires Unread(json, s, r) && r <= next <= |s| && json[next] == '\0'
    ensures next == |s| && s[next..] == ""
  {
  }

  /** skip_multiline_comment. */
  method SkipMultilineComment(json: array<char>, ghost s: Str, input: nat) returns (next: nat)
    requires Unread(json, s, input) && input + 2 <= |s|
    ensures input < next <= |s| && s[next..] == BehindComment(s[input + 2..])
  {
    next := input + 2;
    while json[next] != '\0'
      invariant input < next <= |s| && BehindComment(s[next..]) == BehindComment(s[input + 2..])
      decreases |s| - next
    {
      NoNulAt(s, next);
      if json[next] == '*' && json[next + 1] == '/' {
        assert s[next..][2..] == s[next + 2..] && s[next..][1] == s[next + 1];
        next := next + 2;
        return;
      }
      assert next + 1 < |s| ==> s[next..][1] == s[next + 1];
      next := next + 1;
    }
    AtEnd(json, s, input, next);
  }

  /** minify_string: the literal is copied down, character by character. */
  method MinifyString(json: array<char>, ghost s: Str, input: nat, output: nat) returns (next: nat, into: nat)
    requires Unread(json, s, input) && output <= input < |s| && s[input] == '\"'
    modifies json
    ensures next == input + 1 + LiteralLength(s[input + 1..]) && into - output == next - input
    ensures Unread(json, s, next) && json[..into] == old(json[..output]) + s[input..next]
    ensures forall i | into <= i < json.Length :: json[i] == old(json[i])
  {
    hide LiteralLength;
    ghost var before, length := json[..output], LiteralLength(s[input + 1..]);
    Move(json, s, input, output);
    next, into := input + 1, output + 1;
    assert [s[input]] == s[input..next];
    while json[next] != '\0'
      invariant input < next <= |s| && into - output == next - input
      invariant 1 + length == next - input + LiteralLength(s[next..])
      invariant Unread(json, s, next) && json[..into] == before + s[input..next]
      invariant forall i | into <= i < json.Length :: json[i] == old(json[i])
      decreases |s| - next
    {
      ghost var at := next;
      var closed;
      closed, next, into := CopyNext(json, s, next, into);
      CopiedOn(before, s, input, at, next);
      if closed { return; }
    }
    AtEnd(json, s, next, next);
    NothingLeft();
  }

  /** One round of its loop: a character, or an escaped quote. */
  method CopyNext(json: array<char>, ghost s: Str, at: nat, to: nat) returns (closed: bool, next: nat, into: nat)
    requires Unread(json, s, at) && to <= at < |s|
    modifies json
    ensures at < next <= |s| && into - to == next - at && (closed <==> s[at] == '\"')
    ensures LiteralLength(s[at..]) == if closed then 1 else next - at + LiteralLength(s[next..])
    ensures closed ==> next == at + 1
    ensures Unread(json, s, next) && json[..into] == old(json[..to]) + s[at..next]
    ensures forall i | into <= i < json.Length :: json[i] == old(json[i])
  {
    hide LiteralLength;
    LiteralStep(s, at);
    var c := json[at];
    Move(json, s, at, to);
    closed, next, into := c == '\"', at + 1, to + 1;
    assert [s[at]] == s[at..next];
    if c == '\\' && json[next] == '\"' {
      Move(json, s, next, into);
      next, into := next + 1, into + 1;
      Assoc(old(json[..to]), [s[at]], [s[at + 1]]);
      assert [s[at]] + [s[at + 1]] == s[at..next];
    }
  }

  /** One character is moved down. */
  method Move(json: array<char>, ghost s: Str, from: nat, to: nat)
    requires Unread(json, s, from) && to <= from < |s|
    modifies json
    ensures Unread(json, s, from + 1) && json[..to + 1] == old(json[..to]) + [s[from]]
    ensures forall i | to < i < json.Length :: json[i] == old(json[i])
  {
    ghost var before := json[..to];
    json[to] := json[from];
    assert json[..to] == before;
  }

  lemma LiteralStep(s: Str, i: nat)
    requires i < |s|
    ensures LiteralLength(s[i..]) ==
            if s[i] == '\"' then 1
            else if s[i] == '\\' && i + 1 < |s| && s[i + 1] == '\"' then 2 + LiteralLength(s[i + 2..])
            else 1 + LiteralLength(s[i + 1..])
  {
    var t := s[i..];
    assert t[0] == s[i] && t[1..] == s[i + 1..];
    if i + 1 < |s| { assert t[1] == s[i + 1] && t[2..] == s[i + 2..]; }
  }

  lemma CopiedOn(before: Str, s: Str, input: nat, at: nat, next: nat)
    requires input <= at <= next <= |s|
    ensures (before + s[input..at]) + s[at..next] == before + s[input..next]
  {
  }

  /** What the literal at the read position contributes. */
  lemma LiteralAhead(s: Str, at: nat)
    requires at < |s| && s[at] == '\"'
    ensures var next := at + 1 + LiteralLength(s[at + 1..]);
            next <= |s| && Minified(s[at..]) == s[at..next] + Minified(s[next..])
  {
    hide Minified, LiteralLength;
    var t := s[at..];
    assert t[1..] == s[at + 1..];
    MinifiedQuote(t);
    var n := 1 + LiteralLength(t[1..]);
    assert t[..n] == s[at..at + n] && t[n..] == s[at + n..];
  }

  /** What white space and other characters contribute. */
  lemma CharacterAhead(s: Str, at: nat)
    requires at < |s|
    ensures IsSpace(s[at]) ==> Minified(s[at..]) == Minified(s[at + 1..])
    ensures !IsSpace(s[at]) && s[at] != '/' && s[at] != '\"' ==> Minified(s[at..]) == [s[at]] + Minified(s[at + 1..])
  {
    var t := s[at..];
    assert t[0] == s[at] && t[1..] == s[at + 1..];
  }

  /** A slash begins a comment, or is dropped. */
  method SkipSlash(json: array<char>, ghost s: Str, at: nat) returns (next: nat)
    requires Unread(json, s, at) && at < |s| && s[at] == '/'
    ensures at < next <= |s| && Minified(s[next..]) == Minified(s[at..])
  {
    hide BehindLine, BehindComment;
    NoNulAt(s, at);
    assert at + 1 < |s| ==> s[at..][1] == s[at + 1] && s[at..][2..] == s[at + 2..];
    if json[at + 1] == '/' {
      next := SkipOnelineComment(json, s, at);
    } else if json[at + 1] == '*' {
      next := SkipMultilineComment(json, s, at);
    } else {
      next := at + 1;
    }
  }

  /** One round of the minifier: white space, a comment, a literal or another character. */
  method MinifyNext(json: array<char>, ghost s: Str, from: nat, to: nat) returns (at: nat, into: nat)
    requires Unread(json, s, from) && to <= from < |s|
    modifies json
    ensures from < at <= |s| && into <= at && Unread(json, s, at)
    ensures json[..into] + Minified(s[at..]) == old(json[..to]) + Minified(s[from..])
    ensures forall i | |s| < i < json.Length :: json[i] == old(json[i])
  {
    hide LiteralLength, Minified;
    at, into := from, to;
    NoNulAt(s, at);
    CharacterAhead(s, at);
    match json[at] {
      case ' ' | '\t' | '\r' | '\n' =>
        at := at + 1;
      case '/' =>
        at := SkipSlash(json, s, at);
      case '\"' =>
        LiteralAhead(s, at);
        ghost var end := at + 1 + LiteralLength(s[at + 1..]);
        Assoc(json[..into], s[at..end], Minified(s[end..]));
        at, into := MinifyString(json, s, at, into);
      case _ =>
        Assoc(json[..into], [s[at]], Minified(s[at + 1..]));
        Move(json, s, at, into);
        at, into := at + 1, into + 1;
    }
  }

  /** cJSON_Minify on a C string in memory. */
  method Minify(json: array<char>, ghost s: Str)
    requires Unread(json, s, 0)
    modifies json
    ensures |Minified(s)| <= |s| && json[..|Minified(s)|] == Minified(s) && json[|Minified(s)|] == '\0'
    ensures forall i | |s| < i < json.Length :: json[i] == old(json[i])
  {
    var at: nat, into: nat := 0, 0;
    assert s[0..] == s;
    while json[at] != '\0'
      invariant into <= at <= |s| && Unread(json, s, at)
      invariant json[..into] + Minified(s[at..]) == Minified(s)
      invariant forall i | |s| < i < json.Length :: json[i] == old(json[i])
      decreases |s| - at
    {
      at, into := MinifyNext(json, s, at, into);
    }
    AtEnd(json, s, at, at);
    assert json[..into] + "" == json[..into];
    json[into] := '\0';
  }
}
