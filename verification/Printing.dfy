/** The printer over a growable buffer: at any capacity and reallocation pattern it either writes
    exactly the text of the tree and a NUL, or reports failure; and it fails only for want of room. */
module Printing {
  import opened CStrings
  import opened JsonTrees
  import opened Texts

  class PrintBuffer {
    var buffer: array?<char>
    var length: nat
    var offset: nat
    var depth: nat
    const noalloc: bool
    const format: bool
    /** Whether the n-th reallocation is granted. */
    const grants: nat -> bool
    var allocations: nat
    /** What is printed and accounted for. */
    ghost var out: Str

    constructor (buffer: array<char>, noalloc: bool, format: bool, grants: nat -> bool)
      requires buffer.Length <= INT_MAX
      ensures this.buffer == buffer && this.noalloc == noalloc && this.format == format && this.grants == grants
      ensures depth == 0 && length == buffer.Length && Valid() && out == ""
    {
      this.buffer, this.length, this.offset, this.depth := buffer, buffer.Length, 0, 0;
      this.noalloc, this.format, this.grants, this.allocations := noalloc, format, grants, 0;
      this.out := "";
    }

    /** The memory this printer may write. */
    ghost function Cells(): set<object>
      reads this`buffer
    {
      if buffer == null then {} else {buffer}
    }

    ghost predicate Valid()
      reads this`buffer, this`length, this`offset, this`out, Cells()
    {
      |out| == offset
      && (buffer != null ==>
            length == buffer.Length <= INT_MAX && (offset < length || offset == length == 0)
            && buffer[..offset] == out)
    }

    /** How much a printer can hold: a fixed buffer its length, a growing one as much as an int counts. */
    ghost function Capacity(): int
      reads this`length
    {
      if noalloc then length else INT_MAX
    }

    /** No allocation will fail. */
    ghost predicate Reliable() {
      noalloc || forall n: nat :: grants(n)
    }

    /** `s` is in the buffer, with its NUL; what is not yet accounted for has no NUL inside. */
    ghost predicate Ended(s: Str)
      reads this`buffer, this`length, this`offset, this`out, Cells()
    {
      Valid() && buffer != null && offset <= |s| < length && buffer[..|s|] == s && buffer[|s|] == '\0'
      && forall i | offset <= i < |s| :: s[i] != '\0'
    }

    /** There is room for n more characters and a NUL. */
    ghost predicate Room(n: nat)
      reads this`buffer, this`length, this`offset, this`out, Cells()
    {
      Valid() && buffer != null && offset + n < length
    }

    /** What no call changes: a fixed buffer stays the same, memory is never taken from elsewhere. */
    twostate predicate Kept()
      reads this`buffer, this`length
    {
      (noalloc ==> buffer == old(buffer)) && Capacity() == old(Capacity())
      && fresh(Cells() - old(Cells()))
    }

    /** ensure: room for `needed` more bytes, counting the NUL that will follow them. */
    method Ensure(needed: nat) returns (ok: bool)
      requires Valid() && buffer != null
      modifies this`buffer, this`length, this`allocations
      ensures Valid() && Kept() && (ok ==> Room(needed) && (buffer == old(buffer) || fresh(buffer)))
      ensures Reliable() ==> buffer != null && (ok <==> |out| + needed + 1 <= Capacity())
    {
      if buffer == null { return false; }
      if length > 0 && offset >= length { return false; }
      if needed > INT_MAX { return false; }
      var total := needed + offset + 1;
      if total <= length { return true; }
      if noalloc { return false; }
      var newSize := 0;
      if total > INT_MAX / 2 {
        if total <= INT_MAX {
          newSize := INT_MAX;
        } else {
          return false;
        }
      } else {
        newSize := total * 2;
      }
      allocations := allocations + 1;
      if !grants(allocations) {
        buffer, length := null, 0;
        return false;
      }
      var newBuffer := new char[newSize];
      forall i | 0 <= i < offset { newBuffer[i] := buffer[i]; }
      assert newBuffer[..offset] == buffer[..offset];
      buffer, length := newBuffer, newSize;
      return true;
    }

    /** Store characters from `at` on, behind what is stored already. */
    method Store(at: nat, s: Str)
      requires buffer != null && at + |s| <= buffer.Length
      modifies buffer
      ensures buffer[..at + |s|] == old(buffer[..at]) + s
    {
      ghost var before := buffer[..at];
      forall i | 0 <= i < |s| { buffer[at + i] := s[i]; }
      assert buffer[..at] == before && buffer[at..at + |s|] == s;
      assert buffer[..at + |s|] == buffer[..at] + buffer[at..at + |s|];
    }

    /** Store a text at the offset and end it with a NUL. */
    method Write(s: Str)
      requires Room(|s|) && '\0' !in s
      modifies buffer
      ensures Ended(out + s)
    {
      ghost var whole := out + s;
      Store(offset, s);
      buffer[offset + |s|] := '\0';
      assert buffer[..|whole|] == whole;
      assert buffer[..offset] == whole[..offset];
    }

    /** Store characters at the offset and account for them. */
    method Advance(s: Str)
      requires Room(|s|)
      modifies this`offset, this`out, buffer
      ensures Valid() && out == old(out) + s
    {
      Store(offset, s);
      offset := offset + |s|;
      out := out + s;
    }

    /** update_offset: account for everything up to the NUL. */
    method UpdateOffset(ghost s: Str)
      requires Ended(s)
      modifies this`offset, this`out
      ensures Valid() && out == s
    {
      assert forall i | offset <= i < |s| :: buffer[i] == buffer[..|s|][i];
      var n := 0;
      while buffer[offset + n] != '\0'
        invariant offset + n <= |s|
        decreases |s| - n
      {
        n := n + 1;
      }
      offset := offset + n;
      out := s;
    }

    /** print_string_ptr: one pass counts, the other copies. */
    method PrintStringPtr(s: Str) returns (ok: bool)
      requires Valid() && buffer != null && '\0' !in s
      modifies this`buffer, this`length, this`allocations, Cells()
      ensures Valid() && Kept() && (ok ==> Ended(out + Quoted(s)))
      ensures Reliable() ==> buffer != null && (ok <==> |out| + |Quoted(s)| + 2 <= Capacity())
    {
      var escapeCharacters := CountEscapes(s);
      var outputLength := |s| + escapeCharacters;
      ok := Ensure(outputLength + 3);
      if !ok { return; }
      EscapeNoNul(s);
      if escapeCharacters == 0 {
        NothingEscaped(s);
        Write("\"" + s + "\"");
      } else {
        CopyEscaped(s);
      }
    }

    /** The copying loop, behind the first quote. */
    method CopyEscaped(s: Str)
      requires Room(|Quoted(s)| + 1) && '\0' !in Escape(s)
      modifies buffer
      ensures Ended(out + Quoted(s))
    {
      hide EscapeChar, Ended;
      ghost var before := out;
      Store(offset, "\"");
      var at := offset + 1;
      var i := 0;
      assert s[..0] == "" && s[..|s|] == s;
      while i < |s|
        modifies buffer
        invariant i <= |s| && at == offset + 1 + |Escape(s[..i])| && |Escape(s[..i])| <= |Escape(s)|
        invariant buffer[..at] == before + ("\"" + Escape(s[..i]))
      {
        EscapeNext(s, i);
        Store(at, EscapeChar(s[i]));
        OneMore(before, "\"", Escape(s[..i]), EscapeChar(s[i]));
        at := at + |EscapeChar(s[i])|;
        i := i + 1;
      }
      CloseQuote(s, at);
    }

    /** The quote and the NUL behind the copied text. */
    method CloseQuote(s: Str, at: nat)
      requires Room(|Quoted(s)| + 1) && '\0' !in Escape(s) && at == offset + 1 + |Escape(s)|
      requires buffer[..at] == out + ("\"" + Escape(s))
      modifies buffer
      ensures Ended(out + Quoted(s))
    {
      ghost var before := out;
      Store(at, "\"");
      Assoc(before, "\"" + Escape(s), "\"");
      buffer[at + 1] := '\0';
      EndedHere(before + Quoted(s));
    }

    lemma EndedHere(s: Str)
      requires buffer != null && |out| == offset && length == buffer.Length <= INT_MAX && offset <= |s| < length
      requires buffer[..|s|] == s && buffer[|s|] == '\0' && out <= s && '\0' !in s[offset..]
      ensures Ended(s)
    {
      assert buffer[..offset] == s[..offset];
      forall i | offset <= i < |s| ensures s[i] != '\0' {
        assert s[offset..][i - offset] == s[i];
      }
    }

    /** print_number, for a number that equals its valueint: the digits are accounted for at once. */
    method PrintNumber(d: real) returns (ok: bool)
      requires Valid() && buffer != null && IsInt32(d)
      modifies this`buffer, this`length, this`allocations, this`offset, this`out, Cells()
      ensures Valid() && Kept() && (ok ==> Ended(old(out) + IntText(d.Floor)))
      ensures Reliable() ==> buffer != null && (ok <==> |old(out)| + |IntText(d.Floor)| + 2 <= Capacity())
    {
      var numberBuffer := IntText(d.Floor);
      ok := Ensure(|numberBuffer| + 1);
      if !ok { return; }
      Write(numberBuffer);
      offset := offset + |numberBuffer|;
      out := out + numberBuffer;
    }

    /** A literal word, or raw text. */
    method PrintWord(word: Str) returns (ok: bool)
      requires Valid() && buffer != null && '\0' !in word
      modifies this`buffer, this`length, this`allocations, Cells()
      ensures Valid() && Kept() && (ok ==> Ended(out + word))
      ensures Reliable() ==> buffer != null && (ok <==> |out| + |word| + 2 <= Capacity())
    {
      ok := Ensure(|word| + 1);
      if ok { Write(word); }
    }

    /** print_value. */
    method PrintValue(j: Json) returns (ok: bool)
      requires Valid() && buffer != null && Plain(j)
      modifies this`buffer, this`length, this`allocations, this`offset, this`out, this`depth, Cells()
      ensures Valid() && Kept()
      ensures ok ==> Printable(j) && Ended(old(out) + Text(j, format, depth)) && depth == old(depth)
      ensures Reliable() ==>
                buffer != null
                && (ok <==> Printable(j) && |old(out)| + |Text(j, format, old(depth))| + 2 <= Capacity())
      decreases j, 1
    {
      match j {
        case Invalid => ok := false;
        case Null => ok := PrintWord("null");
        case False => ok := PrintWord("false");
        case True => ok := PrintWord("true");
        case Number(d) => ok := PrintNumber(d);
        case String(s) => ok := PrintStringPtr(s);
        case Raw(s) => ok := PrintWord(s);
        case Array(es) => ok := PrintArray(es);
        case Object(ms, _) => ok := PrintObject(ms);
      }
    }

    /** print_array. */
    method PrintArray(es: seq<Json>) returns (ok: bool)
      requires Valid() && buffer != null && Plain(Array(es))
      modifies this`buffer, this`length, this`allocations, this`offset, this`out, this`depth, Cells()
      ensures Valid() && Kept()
      ensures ok ==> Printable(Array(es)) && Ended(old(out) + Text(Array(es), format, depth)) && depth == old(depth)
      ensures Reliable() ==>
                buffer != null
                && (ok <==> Printable(Array(es))
                            && |old(out)| + |Text(Array(es), format, old(depth))| + 2 <= Capacity())
      decreases es, 3
    {
      hide Valid, Ended, Room, ElemsText, MembersText, MemberHead, MemberTail, Quoted, Tabs, Reliable;
      ghost var before := out;
      ok := OpenArray();
      if !ok { return; }
      depth := depth + 1;
      ok := PrintElements(es);
      if !ok { return; }
      ok := PrintWord("]");
      if !ok { return; }
      Enclosed(before, "[", ElemsText(es, format, depth), "]");
      depth := depth - 1;
    }

    /** The opening bracket. */
    method OpenArray() returns (ok: bool)
      requires Valid() && buffer != null
      modifies this`buffer, this`length, this`allocations, this`offset, this`out, Cells()
      ensures Valid() && Kept() && (ok ==> buffer != null && out == old(out) + "[")
      ensures Reliable() ==> buffer != null && (!ok ==> |old(out)| + 3 > Capacity())
    {
      hide Valid, Room, Reliable;
      ok := Ensure(1);
      if ok { Advance("["); }
    }

    /** The loop over the elements: values and separators, all accounted for. */
    method PrintElements(es: seq<Json>) returns (ok: bool)
      requires Valid() && buffer != null && forall e | e in es :: Plain(e)
      modifies this`buffer, this`length, this`allocations, this`offset, this`out, this`depth, Cells()
      ensures Valid() && Kept()
      ensures ok ==> buffer != null && out == old(out) + ElemsText(es, format, old(depth)) && depth == old(depth)
      ensures ok ==> forall e | e in es :: Printable(e)
      ensures Reliable() ==>
                buffer != null
                && (!ok ==> !(forall e | e in es :: Printable(e))
                            || |old(out)| + |ElemsText(es, format, old(depth))| + 2 > Capacity())
      decreases es, 2
    {
      hide Valid, Ended, Room, Text, ElemsText, MembersText, MemberHead, MemberTail, Quoted, Plain, Printable, Tabs;
      hide Reliable;
      var i := 0;
      assert es[0..] == es && es[..|es|] == es;
      while i < |es|
        invariant i <= |es| && Valid() && buffer != null && depth == old(depth) && Kept()
        invariant out + ElemsText(es[i..], format, depth) == old(out) + ElemsText(es, format, depth)
        invariant forall e | e in es[..i] :: Printable(e)
      {
        ElemsStep(es, i, format, depth);
        assert es[i] in es && es[..i + 1] == es[..i] + [es[i]];
        Assoc(out, ElemText(es, i, format, depth), ElemsText(es[i + 1..], format, depth));
        ok := PrintElement(es, i);
        if !ok { return; }
        i := i + 1;
      }
      NoElems(es[i..], format, depth);
      assert out + "" == out;
      return true;
    }

    /** One round: the value, and a separator unless it is the last. */
    method PrintElement(es: seq<Json>, i: nat) returns (ok: bool)
      requires Valid() && buffer != null && i < |es| && Plain(es[i])
      modifies this`buffer, this`length, this`allocations, this`offset, this`out, this`depth, Cells()
      ensures Valid() && Kept()
      ensures ok ==> buffer != null && out == old(out) + ElemText(es, i, format, old(depth)) && depth == old(depth)
      ensures ok ==> Printable(es[i])
      ensures Reliable() ==>
                buffer != null
                && (!ok ==> !Printable(es[i]) || |old(out)| + |ElemText(es, i, format, old(depth))| + 2 > Capacity())
      decreases es, 1
    {
      hide Valid, Ended, Room, Text, ElemsText, MembersText, MemberHead, MemberTail, Quoted, Plain, Printable, Tabs;
      hide Reliable;
      ghost var before, text := out, Text(es[i], format, depth);
      ok := PrintValue(es[i]);
      if !ok { return; }
      UpdateOffset(before + text);
      assert before + text + "" == before + text && text + "" == text;
      if i + 1 < |es| {
        Assoc(before, text, Comma(true, format));
        ok := PrintSeparator(Comma(true, format));
      }
    }

    /** Separators and a NUL behind them; the separators are accounted for. */
    method PrintSeparator(s: Str) returns (ok: bool)
      requires Valid() && buffer != null && '\0' !in s
      modifies this`buffer, this`length, this`allocations, this`offset, this`out, Cells()
      ensures Valid() && Kept() && (ok ==> buffer != null && out == old(out) + s)
      ensures Reliable() ==> buffer != null && (ok <==> |old(out)| + |s| + 2 <= Capacity())
    {
      hide Room, Reliable;
      ok := Ensure(|s| + 1);
      if !ok { return; }
      Write(s);
      offset := offset + |s|;
      out := out + s;
    }

    /** print_object. */
    method PrintObject(ms: seq<Member<Json>>) returns (ok: bool)
      requires Valid() && buffer != null && Plain(Object(ms))
      modifies this`buffer, this`length, this`allocations, this`offset, this`out, this`depth, Cells()
      ensures Valid() && Kept()
      ensures ok ==> Printable(Object(ms)) && Ended(old(out) + Text(Object(ms), format, depth)) && depth == old(depth)
      ensures Reliable() ==>
                buffer != null
                && (ok <==> Printable(Object(ms))
                            && |old(out)| + |Text(Object(ms), format, old(depth))| + 2 <= Capacity())
      decreases ms, 3
    {
      hide Valid, Ended, Room, ElemsText, MembersText, MemberHead, MemberTail, Quoted, Reliable;
      ghost var before := out;
      ok := OpenObject();
      if !ok { return; }
      depth := depth + 1;
      ok := PrintMembers(ms);
      if !ok { return; }
      ok := CloseObject();
      if !ok { return; }
      Enclosed(before, Opening(format), MembersText(ms, format, depth), Closing(format, depth - 1));
      depth := depth - 1;
    }

    /** The opening brace and its line end. */
    method OpenObject() returns (ok: bool)
      requires Valid() && buffer != null
      modifies this`buffer, this`length, this`allocations, this`offset, this`out, Cells()
      ensures Valid() && Kept() && (ok ==> buffer != null && out == old(out) + Opening(format))
      ensures Reliable() ==> buffer != null && (!ok ==> |old(out)| + |Opening(format)| + 2 > Capacity())
    {
      hide Valid, Room, Reliable;
      ok := Ensure(if format then 3 else 2);
      if ok { Advance(Opening(format)); }
    }

    /** The closing brace, indented one level less than the members. */
    method CloseObject() returns (ok: bool)
      requires Valid() && buffer != null && depth > 0
      modifies this`buffer, this`length, this`allocations, Cells()
      ensures Valid() && Kept() && (ok ==> Ended(out + Closing(format, depth - 1)))
      ensures Reliable() ==> buffer != null && (ok <==> |out| + |Closing(format, depth - 1)| + 2 <= Capacity())
    {
      hide Valid, Room, Ended, Reliable;
      ok := Ensure(if format then depth + 1 else 2);
      if ok { Write(Closing(format, depth - 1)); }
    }

    /** The loop over the members. */
    method PrintMembers(ms: seq<Member<Json>>) returns (ok: bool)
      requires Valid() && buffer != null && forall m | m in ms :: '\0' !in m.key && Plain(m.value)
      modifies this`buffer, this`length, this`allocations, this`offset, this`out, this`depth, Cells()
      ensures Valid() && Kept()
      ensures ok ==> buffer != null && out == old(out) + MembersText(ms, format, old(depth)) && depth == old(depth)
      ensures ok ==> forall m | m in ms :: Printable(m.value)
      ensures Reliable() ==>
                buffer != null
                && (!ok ==> !(forall m | m in ms :: Printable(m.value))
                            || |old(out)| + |MembersText(ms, format, old(depth))| + 2 > Capacity())
      decreases ms, 2
    {
      hide Valid, Ended, Room, Text, ElemsText, MembersText, MemberHead, MemberTail, Quoted, Plain, Printable, Tabs;
      hide Reliable;
      var i := 0;
      assert ms[0..] == ms && ms[..|ms|] == ms;
      while i < |ms|
        invariant i <= |ms| && Valid() && buffer != null && depth == old(depth) && Kept()
        invariant out + MembersText(ms[i..], format, depth) == old(out) + MembersText(ms, format, depth)
        invariant forall m | m in ms[..i] :: Printable(m.value)
      {
        MembersStep(ms, i, format, depth);
        assert ms[i] in ms && ms[..i + 1] == ms[..i] + [ms[i]];
        Assoc(out, MemberText(ms, i, format, depth), MembersText(ms[i + 1..], format, depth));
        ok := PrintMember(ms, i);
        if !ok { return; }
        i := i + 1;
      }
      NoMembers(ms[i..], format, depth);
      assert out + "" == out;
      return true;
    }

    /** One round: indentation, key, colon, value, comma and line end. */
    method PrintMember(ms: seq<Member<Json>>, i: nat) returns (ok: bool)
      requires Valid() && buffer != null && i < |ms| && '\0' !in ms[i].key && Plain(ms[i].value)
      modifies this`buffer, this`length, this`allocations, this`offset, this`out, this`depth, Cells()
      ensures Valid() && Kept()
      ensures ok ==> buffer != null && out == old(out) + MemberText(ms, i, format, old(depth)) && depth == old(depth)
      ensures ok ==> Printable(ms[i].value)
      ensures Reliable() ==>
                buffer != null
                && (!ok ==> !Printable(ms[i].value)
                            || |old(out)| + |MemberText(ms, i, format, old(depth))| + 2 > Capacity())
      decreases ms, 1
    {
      hide Valid, Ended, Room, Text, ElemsText, MembersText, MemberHead, Quoted, Plain, Printable, Tabs, Reliable;
      ghost var before, head, text := out, MemberHead(ms[i].key, format, depth), Text(ms[i].value, format, depth);
      ok := PrintKey(ms[i].key);
      if !ok { return; }
      ok := PrintValue(ms[i].value);
      if !ok { return; }
      UpdateOffset(before + head + text);
      ok := PrintSeparator(MemberTail(i + 1 < |ms|, format));
      Enclosed(before, head, text, MemberTail(i + 1 < |ms|, format));
    }

    /** Indentation, the key and the colon. */
    method PrintKey(key: Str) returns (ok: bool)
      requires Valid() && buffer != null && '\0' !in key
      modifies this`buffer, this`length, this`allocations, this`offset, this`out, this`depth, Cells()
      ensures Valid() && Kept() && depth == old(depth)
      ensures ok ==> buffer != null && out == old(out) + MemberHead(key, format, depth)
      ensures Reliable() ==>
                buffer != null && (!ok ==> |old(out)| + |MemberHead(key, format, depth)| + 2 > Capacity())
    {
      hide Valid, Ended, Room, Quoted, Reliable;
      ghost var before, indentation := out, if format then Tabs(depth) else "";
      ok := Indent();
      if !ok { return; }
      ok := PrintStringPtr(key);
      if !ok { return; }
      UpdateOffset(before + indentation + Quoted(key));
      ok := PrintColon();
      Enclosed(before, indentation, Quoted(key), if format then ":\t" else ":");
    }

    /** Tabs in front of a key. */
    method Indent() returns (ok: bool)
      requires Valid() && buffer != null
      modifies this`buffer, this`length, this`allocations, this`offset, this`out, Cells()
      ensures Valid() && Kept() && (ok ==> buffer != null && out == old(out) + if format then Tabs(depth) else "")
      ensures Reliable() ==> buffer != null && (!ok ==> format && |old(out)| + depth + 1 > Capacity())
    {
      hide Valid, Room, Reliable;
      if !format {
        assert out + "" == out;
        return true;
      }
      ok := Ensure(depth);
      if ok { Advance(Tabs(depth)); }
    }

    /** The colon behind a key. */
    method PrintColon() returns (ok: bool)
      requires Valid() && buffer != null
      modifies this`buffer, this`length, this`allocations, this`offset, this`out, Cells()
      ensures Valid() && Kept() && (ok ==> buffer != null && out == old(out) + if format then ":\t" else ":")
      ensures Reliable() ==> buffer != null && (!ok ==> |old(out)| + (if format then 2 else 1) + 1 > Capacity())
    {
      hide Valid, Room, Reliable;
      var colon := if format then ":\t" else ":";
      ok := Ensure(|colon|);
      if ok { Advance(colon); }
    }
  }

  /** cJSON_PrintPreallocated, into memory of exactly `length` characters: it succeeds exactly when
      there is room for the text and two more characters. */
  method PrintPreallocated(j: Json, buffer: array<char>, length: int, format: bool) returns (ok: bool)
    requires Plain(j) && length <= INT_MAX && (length >= 0 ==> buffer.Length == length)
    modifies buffer
    ensures ok <==> Printable(j) && |Text(j, format, 0)| + 2 <= length
    ensures ok ==> buffer[..|Text(j, format, 0)|] == Text(j, format, 0) && buffer[|Text(j, format, 0)|] == '\0'
    ensures length < 0 ==> buffer[..] == old(buffer[..])
  {
    hide Text, Printable, Plain;
    if length < 0 { return false; }
    var p := new PrintBuffer(buffer, true, format, _ => false);
    ok := p.PrintValue(j);
    assert "" + Text(j, format, 0) == Text(j, format, 0);
  }

  /** cJSON_Print and cJSON_PrintUnformatted: a buffer that starts with 256 characters and a result cut to size. */
  method Print(j: Json, format: bool, grants: nat -> bool) returns (printed: array?<char>)
    requires Plain(j)
    ensures printed != null ==> fresh(printed) && printed[..] == Text(j, format, 0) + "\0" && Printable(j)
    ensures (forall n: nat :: grants(n)) ==> (printed != null <==> Printable(j) && |Text(j, format, 0)| + 2 <= INT_MAX)
  {
    hide Text, Plain, Printable;
    if !grants(0) { return null; }
    var start := new char[256];
    var p := new PrintBuffer(start, false, format, grants);
    var ok := p.PrintValue(j);
    if !ok { return null; }
    ghost var text := Text(j, format, 0);
    assert "" + text == text;
    p.UpdateOffset(text);
    if !grants(p.allocations + 1) { return null; }
    printed := new char[p.offset + 1];
    forall i | 0 <= i < p.offset { printed[i] := p.buffer[i]; }
    printed[p.offset] := '\0';
    assert printed[..p.offset] == p.buffer[..p.offset];
  }

  /** cJSON_PrintBuffered: the buffer itself is the result, whatever size it started with. */
  method PrintBuffered(j: Json, prebuffer: int, format: bool, grants: nat -> bool) returns (printed: array?<char>)
    requires Plain(j) && prebuffer <= INT_MAX
    ensures printed != null ==>
              fresh(printed) && Printable(j) && |Text(j, format, 0)| < printed.Length
              && printed[..|Text(j, format, 0)|] == Text(j, format, 0) && printed[|Text(j, format, 0)|] == '\0'
    ensures (forall n: nat :: grants(n)) ==>
              (printed != null <==> prebuffer >= 0 && Printable(j) && |Text(j, format, 0)| + 2 <= INT_MAX)
  {
    hide Text, Plain, Printable;
    if prebuffer < 0 || !grants(0) { return null; }
    var start := new char[prebuffer];
    var p := new PrintBuffer(start, false, format, grants);
    var ok := p.PrintValue(j);
    if !ok { return null; }
    assert "" + Text(j, format, 0) == Text(j, format, 0);
    printed := p.buffer;
  }

  /** The text of one round of the element loop. */
  function ElemText(es: seq<Json>, i: nat, format: bool, depth: nat): Str
    requires i < |es|
  {
    Text(es[i], format, depth) + Comma(i + 1 < |es|, format)
  }

  lemma ElemsStep(es: seq<Json>, i: nat, format: bool, depth: nat)
    requires i < |es|
    ensures ElemsText(es[i..], format, depth) == ElemText(es, i, format, depth) + ElemsText(es[i + 1..], format, depth)
  {
    assert es[i..][1..] == es[i + 1..];
  }

  lemma NoElems(es: seq<Json>, format: bool, depth: nat)
    requires es == []
    ensures ElemsText(es, format, depth) == ""
  {
  }

  lemma OneMore(before: Str, quote: Str, s: Str, e: Str)
    ensures (before + (quote + s)) + e == before + (quote + (s + e))
  {
  }

  lemma Enclosed(before: Str, open: Str, middle: Str, close: Str)
    ensures ((before + open) + middle) + close == before + (open + middle + close)
  {
  }

  /** The text of one round of the member loop. */
  function MemberText(ms: seq<Member<Json>>, i: nat, format: bool, depth: nat): Str
    requires i < |ms|
  {
    MemberHead(ms[i].key, format, depth) + Text(ms[i].value, format, depth) + MemberTail(i + 1 < |ms|, format)
  }

  lemma MembersStep(ms: seq<Member<Json>>, i: nat, format: bool, depth: nat)
    requires i < |ms|
    ensures MembersText(ms[i..], format, depth)
            == MemberText(ms, i, format, depth) + MembersText(ms[i + 1..], format, depth)
  {
    assert ms[i..][1..] == ms[i + 1..];
  }

  lemma NoMembers(ms: seq<Member<Json>>, format: bool, depth: nat)
    requires ms == []
    ensures MembersText(ms, format, depth) == ""
  {
  }

  /** How many characters the escapes add. */
  method CountEscapes(s: Str) returns (escapeCharacters: nat)
    ensures |s| + escapeCharacters == |Escape(s)|
  {
    escapeCharacters := 0;
    var i := 0;
    assert s[..0] == "" && s[..|s|] == s;
    while i < |s|
      invariant i <= |s| && i + escapeCharacters == |Escape(s[..i])|
    {
      EscapeNext(s, i);
      match s[i] {
        case '\"' | '\\' | '\U{0008}' | '\U{000C}' | '\n' | '\r' | '\t' =>
          escapeCharacters := escapeCharacters + 1;
        case _ =>
          if s[i] as int < 32 { escapeCharacters := escapeCharacters + 5; }
      }
      i := i + 1;
    }
  }

  lemma EscapeParts(a: Str, b: Str)
    ensures Escape(a + b) == Escape(a) + Escape(b)
  {
    if a == "" {
      assert a + b == b;
    } else {
      DropHead(a, b);
      EscapeParts(a[1..], b);
      Assoc(EscapeChar(a[0]), Escape(a[1..]), Escape(b));
    }
  }

  lemma EscapeNext(s: Str, i: nat)
    requires i < |s|
    ensures Escape(s[..i + 1]) == Escape(s[..i]) + EscapeChar(s[i])
    ensures |Escape(s[..i + 1])| <= |Escape(s)|
  {
    assert s[..i + 1] == s[..i] + [s[i]];
    EscapeParts(s[..i], [s[i]]);
    assert s == s[..i + 1] + s[i + 1..];
    EscapeParts(s[..i + 1], s[i + 1..]);
  }

  /** When nothing needs escaping the text is copied as it stands. */
  lemma {:induction false} NothingEscaped(s: Str)
    requires |Escape(s)| == |s|
    ensures Escape(s) == s
  {
    if s != "" {
      EscapeLonger(s[1..]);
      NothingEscaped(s[1..]);
    }
  }

  lemma {:induction false} EscapeLonger(s: Str)
    ensures |s| <= |Escape(s)|
  {
    if s != "" { EscapeLonger(s[1..]); }
  }
}
