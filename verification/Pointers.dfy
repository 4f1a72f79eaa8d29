/** JSON Pointer (RFC 6901): escaping, key matching, index decoding, lookup and search. */
module Pointers {
  import opened CStrings
  import opened JsonTrees

  /** unsigned long is 32 bits wide on Windows; size_t is 64 bits wide in the x64 build. */
  const ULONG_MAX: nat := 0xFFFF_FFFF
  const SIZE_MODULUS: nat := 0x1_0000_0000_0000_0000

  // ---------- escaping ----------

  /** Section 3 of RFC 6901: '~' is written "~0" and '/' is written "~1". */
  function EncodeChar(c: char): (e: Str)
    ensures 1 <= |e| <= 2
  {
    if c == '/' then "~1" else if c == '~' then "~0" else [c]
  }

  function Encode(s: Str): (e: Str)
    ensures '/' !in e
  {
    if s == "" then "" else EncodeChar(s[0]) + Encode(s[1..])
  }

  lemma {:induction false} EncodeParts(a: Str, b: Str)
    ensures Encode(a + b) == Encode(a) + Encode(b)
  {
    if a == "" {
      assert a + b == b;
    } else {
      DropHead(a, b);
      EncodeParts(a[1..], b);
      Assoc(EncodeChar(a[0]), Encode(a[1..]), Encode(b));
    }
  }

  /** A key without the two special characters is its own encoding. */
  lemma {:induction false} EncodePlain(s: Str)
    requires '~' !in s && '/' !in s
    ensures Encode(s) == s
  {
    if s != "" { EncodePlain(s[1..]); }
  }

  /** pointer_encoded_length counts what the encoder will write. */
  method PointerEncodedLength(s: Str) returns (length: nat)
    ensures length == |Encode(s)|
  {
    length := 0;
    var i := 0;
    while i < |s|
      invariant i <= |s|
      invariant length + |Encode(s[i..])| == |Encode(s)|
    {
      if s[i] == '~' || s[i] == '/' {
        length := length + 1;
      }
      assert s[i..][1..] == s[i + 1..];
      i, length := i + 1, length + 1;
    }
  }

  /** encode_string_as_pointer: the destination, which holds pointer_encoded_length + 1 bytes from
      `start` on, receives the encoding and a NUL; no other byte is written. */
  method EncodeStringAsPointer(destination: array<char>, start: nat, source: Str)
    requires start + |Encode(source)| < destination.Length
    modifies destination
    ensures forall k | start <= k < start + |Encode(source)| :: destination[k] == Encode(source)[k - start]
    ensures destination[start + |Encode(source)|] == '\0'
    ensures forall k | 0 <= k < start || start + |Encode(source)| < k < destination.Length ::
              destination[k] == old(destination[k])
  {
    ghost var e := Encode(source);
    var d, i := start, 0;
    assert source[..0] == "" && source[..|source|] == source;
    assert Encode(source[..0]) == "";
    hide Encode, EncodeChar;
    while i < |source|
      invariant i <= |source|
      invariant start <= d == start + |Encode(source[..i])| <= start + |e|
      invariant forall k | start <= k < d :: destination[k] == e[k - start]
      invariant forall k | 0 <= k < start || start + |e| < k < destination.Length ::
                  destination[k] == old(destination[k])
    {
      EncodePrefix(source, i);
      d := EncodeOne(destination, d, source[i]);
      i := i + 1;
    }
    destination[d] := '\0';
  }

  /** One round: an escape for the two special characters, a copy for the others. */
  method EncodeOne(destination: array<char>, d: nat, c: char) returns (next: nat)
    requires d + |EncodeChar(c)| <= destination.Length
    modifies destination
    ensures next == d + |EncodeChar(c)|
    ensures destination[d] == EncodeChar(c)[0] && (|EncodeChar(c)| > 1 ==> destination[d + 1] == EncodeChar(c)[1])
    ensures forall k | 0 <= k < d || next <= k < destination.Length :: destination[k] == old(destination[k])
  {
    next := d;
    if c == '/' {
      destination[next] := '~';
      destination[next + 1] := '1';
      next := next + 1;
    } else if c == '~' {
      destination[next] := '~';
      destination[next + 1] := '0';
      next := next + 1;
    } else {
      destination[next] := c;
    }
    next := next + 1;
  }

  /** Encoding the next character extends the encoding so far, inside the whole encoding. */
  lemma EncodePrefix(s: Str, i: nat)
    requires i < |s|
    ensures var n, c, e := |Encode(s[..i])|, EncodeChar(s[i]), Encode(s);
            |Encode(s[..i + 1])| == n + |c| <= |e|
            && e[n] == c[0] && (|c| > 1 ==> e[n + 1] == c[1])
  {
    assert s[..i + 1] == s[..i] + [s[i]];
    EncodeParts(s[..i], [s[i]]);
    assert s == s[..i + 1] + s[i + 1..];
    EncodeParts(s[..i + 1], s[i + 1..]);
  }

  // ---------- matching a key against a pointer token ----------

  /** What compare_pointers answers: does the first token of `pointer` name the key? */
  function Matches(name: Str, pointer: Str, cs: bool): bool {
    if name == "" || pointer == "" || pointer[0] == '/' then
      (pointer != "" && pointer[0] != '/') == (name != "")
    else if pointer[0] == '~' then
      |pointer| > 1
      && ((pointer[1] == '0' && name[0] == '~') || (pointer[1] == '1' && name[0] == '/'))
      && Matches(name[1..], pointer[2..], cs)
    else
      FoldCase(name[0], cs) == FoldCase(pointer[0], cs) && Matches(name[1..], pointer[1..], cs)
  }

  method ComparePointers(name: Str, pointer: Str, caseSensitive: bool) returns (same: bool)
    ensures same == Matches(name, pointer, caseSensitive)
  {
    var n, p := 0, 0;
    while n < |name| && p < |pointer| && pointer[p] != '/'
      invariant n <= |name| && p <= |pointer|
      invariant Matches(name, pointer, caseSensitive) == Matches(name[n..], pointer[p..], caseSensitive)
    {
      assert name[n..][1..] == name[n + 1..] && pointer[p..][1..] == pointer[p + 1..];
      if pointer[p] == '~' {
        var next := if p + 1 < |pointer| then pointer[p + 1] else '\0';
        if (next != '0' || name[n] != '~') && (next != '1' || name[n] != '/') {
          return false;
        } else {
          assert pointer[p..][2..] == pointer[p + 2..];
          p := p + 1;
        }
      } else if FoldCase(name[n], caseSensitive) != FoldCase(pointer[p], caseSensitive) {
        return false;
      }
      n, p := n + 1, p + 1;
    }
    if (p < |pointer| && pointer[p] != '/') != (n < |name|) {
      return false;
    }
    return true;
  }

  predicate EndsToken(tail: Str) {
    tail == "" || tail[0] == '/'
  }

  /** Matching agrees with escaping: the token that encodes `m` names exactly the keys equal to `m`. */
  lemma {:induction false} MatchesEncoded(n: Str, m: Str, tail: Str, cs: bool)
    requires EndsToken(tail)
    ensures Matches(n, Encode(m) + tail, cs) <==> Norm(n, cs) == Norm(m, cs)
  {
    if m == "" {
      assert Encode(m) + tail == tail;
    } else {
      var c, rest := EncodeChar(m[0]), Encode(m[1..]) + tail;
      Assoc(c, Encode(m[1..]), tail);
      DropPrefix(c, rest);
      if n != "" {
        MatchesEncoded(n[1..], m[1..], tail, cs);
        NormHeads(n, m, cs);
        MatchesHead(n, m[0], rest, cs);
      }
    }
  }

  lemma MatchesHead(n: Str, c: char, rest: Str, cs: bool)
    requires n != ""
    ensures Matches(n, EncodeChar(c) + rest, cs)
            <==> FoldCase(n[0], cs) == FoldCase(c, cs) && Matches(n[1..], rest, cs)
  {
    DropPrefix(EncodeChar(c), rest);
  }

  // ---------- array indices ----------

  /** The digit loop of decode_array_index_from_pointer from a position on; its upper bound is tested
      on the first character only, and the index wraps at the width of size_t. */
  function IndexDigits(p: Str, pos: nat, index: nat): (r: (nat, nat))
    requires pos <= |p|
    ensures pos <= r.0 <= |p|
    decreases |p| - pos
  {
    if pos < |p| && p[pos] >= '0' && p[0] <= '9' then
      IndexDigits(p, pos + 1, (10 * index + (p[pos] as int - '0' as int)) % SIZE_MODULUS)
    else (pos, index)
  }

  function DecodeIndex(p: Str): Option<nat> {
    if |p| > 1 && p[0] == '0' && p[1] != '/' then None
    else
      var (pos, index) := IndexDigits(p, 0, 0);
      if pos < |p| && p[pos] != '/' then None else Some(index)
  }

  method DecodeArrayIndexFromPointer(pointer: Str) returns (ok: bool, index: nat)
    ensures DecodeIndex(pointer) == if ok then Some(index) else None
  {
    if |pointer| > 1 && pointer[0] == '0' && pointer[1] != '/' {
      return false, 0;
    }
    var parsed: nat, position := 0, 0;
    while position < |pointer| && pointer[position] >= '0' && pointer[0] <= '9'
      invariant position <= |pointer|
      invariant IndexDigits(pointer, 0, 0) == IndexDigits(pointer, position, parsed)
    {
      parsed := (10 * parsed + (pointer[position] as int - '0' as int)) % SIZE_MODULUS;
      position := position + 1;
    }
    if position < |pointer| && pointer[position] != '/' {
      return false, 0;
    }
    return true, parsed;
  }

  lemma {:induction false} DigitsOfDec(n: nat, p: Str)
    requires n < SIZE_MODULUS && Dec(n) <= p && p[0] <= '9'
    ensures IndexDigits(p, 0, 0) == IndexDigits(p, |Dec(n)|, n)
  {
    hide IndexDigits;
    if n < 10 {
      assert p[0] == Digit(n);
      OneDigit(p, 0, 0, n);
    } else {
      DecPrefix(n, p);
      DigitsOfDec(n / 10, p);
      OneDigit(p, |Dec(n / 10)|, n / 10, n % 10);
    }
  }

  lemma DecPrefix(n: nat, p: Str)
    requires n >= 10 && Dec(n) <= p
    ensures Dec(n / 10) <= p && |Dec(n / 10)| < |p| && p[|Dec(n / 10)|] == Digit(n % 10)
    ensures |Dec(n)| == |Dec(n / 10)| + 1
  {
    assert Dec(n)[|Dec(n / 10)|] == Digit(n % 10);
    assert Dec(n)[..|Dec(n / 10)|] == Dec(n / 10);
  }

  lemma OneDigit(p: Str, pos: nat, m: nat, d: nat)
    requires pos < |p| && p[0] <= '9' && d < 10 && p[pos] == Digit(d) && 10 * m + d < SIZE_MODULUS
    ensures IndexDigits(p, pos, m) == IndexDigits(p, pos + 1, 10 * m + d)
  {
  }

  /** The numeral that %lu prints is decoded to its number. */
  lemma DecodeDec(n: nat, tail: Str)
    requires n < SIZE_MODULUS && EndsToken(tail)
    ensures DecodeIndex(Dec(n) + tail) == Some(n)
  {
    var p := Dec(n) + tail;
    assert p[0] == Dec(n)[0];
    DigitsOfDec(n, p);
    if |Dec(n)| < |p| {
      assert p[|Dec(n)|] == tail[0];
    }
    if |p| > 1 && p[0] == '0' {
      assert p[1] == tail[0];
    }
  }

  // ---------- positions in a tree ----------

  function Kids(j: Json): (ks: seq<Json>)
    ensures j.Array? ==> ks == j.elems
    ensures j.Object? ==> |ks| == |j.members| && forall i | 0 <= i < |ks| :: ks[i] == j.members[i].value
    ensures forall i | 0 <= i < |ks| :: ks[i] < j
  {
    match j
    case Array(es) => es
    case Object(ms, _) => seq(|ms|, i requires 0 <= i < |ms| => ms[i].value)
    case _ => []
  }

  /** A node of a tree is the list of child indices that leads to it. */
  predicate ValidLoc(j: Json, loc: seq<nat>) {
    loc != [] ==> loc[0] < |Kids(j)| && ValidLoc(Kids(j)[loc[0]], loc[1..])
  }

  function At(j: Json, loc: seq<nat>): Json
    requires ValidLoc(j, loc)
  {
    if loc == [] then j else At(Kids(j)[loc[0]], loc[1..])
  }

  /** The child of `j` that the first token of `p` selects, if any. */
  function ChildIndex(j: Json, p: Str, cs: bool): (r: Option<nat>)
    ensures r.Some? ==> r.value < |Kids(j)|
  {
    match j
    case Array(es) =>
      (match DecodeIndex(p)
       case Some(i) => if i < |es| then Some(i) else None
       case None => None)
    case Object(ms, _) =>
      var i := FindMatch(ms, p, cs);
      if i < |ms| then Some(i) else None
    case _ => None
  }

  /** The first member whose key the first token of `p` names, or the number of members. */
  function FindMatch<T>(ms: seq<Member<T>>, p: Str, cs: bool): (i: nat)
    ensures i <= |ms|
    ensures i < |ms| ==> Matches(ms[i].key, p, cs)
    ensures forall k | 0 <= k < i :: !Matches(ms[k].key, p, cs)
  {
    if ms == [] || Matches(ms[0].key, p, cs) then 0
    else
      assert forall k | 1 <= k < |ms| :: ms[k] == ms[1..][k - 1];
      1 + FindMatch(ms[1..], p, cs)
  }

  /** What is left of a pointer after its first token. */
  function SkipToken(p: Str): (r: Str)
    ensures |r| <= |p| && EndsToken(r)
    ensures r == p[|p| - |r|..]
  {
    if p == "" || p[0] == '/' then p else SkipToken(p[1..])
  }

  lemma SkipNothing(p: Str)
    requires EndsToken(p)
    ensures SkipToken(p) == p
  {
  }

  lemma SkipOne(p: Str)
    requires p != "" && p[0] != '/'
    ensures SkipToken(p) == SkipToken(p[1..])
  {
  }

  lemma {:induction false} SkipTokenOver(token: Str, tail: Str)
    requires '/' !in token && EndsToken(tail)
    ensures SkipToken(token + tail) == tail
  {
    if token == "" {
      assert token + tail == tail;
      SkipNothing(tail);
    } else {
      DropHead(token, tail);
      SkipTokenOver(token[1..], tail);
      SkipOne(token + tail);
    }
  }

  /** What get_item_from_pointer finds: the position of the item, or nothing. */
  function Get(j: Json, pointer: Str, cs: bool): (r: Option<seq<nat>>)
    ensures r.Some? ==> ValidLoc(j, r.value)
    decreases |pointer|
  {
    if pointer == "" || pointer[0] != '/' then Some([])
    else
      match ChildIndex(j, pointer[1..], cs)
      case None => None
      case Some(i) =>
        match Get(Kids(j)[i], SkipToken(pointer[1..]), cs)
        case None => None
        case Some(loc) => Some([i] + loc)
  }

  /** A position found below `loc`, seen from above. */
  function Under(loc: seq<nat>, r: Option<seq<nat>>): Option<seq<nat>> {
    match r
    case None => None
    case Some(l) => Some(loc + l)
  }

  lemma UnderRoot(r: Option<seq<nat>>)
    ensures Under([], r) == r
  {
    if r.Some? { assert [] + r.value == r.value; }
  }

  /** One round of the lookup. */
  lemma GetStep(j: Json, rest: Str, i: nat, loc: seq<nat>, cs: bool)
    requires rest != "" && rest[0] == '/' && ChildIndex(j, rest[1..], cs) == Some(i)
    ensures Under(loc, Get(j, rest, cs)) == Under(loc + [i], Get(Kids(j)[i], SkipToken(rest[1..]), cs))
  {
    hide ChildIndex, SkipToken, Kids;
    match Get(Kids(j)[i], SkipToken(rest[1..]), cs)
    case None =>
    case Some(l) => Assoc(loc, [i], l);
  }

  /** get_item_from_pointer walks down from the object, one token a round. */
  method GetItemFromPointer(top: Json, pointer: Str, caseSensitive: bool) returns (found: Option<seq<nat>>)
    ensures found == Get(top, pointer, caseSensitive)
  {
    hide Kids, SkipToken, ChildIndex;
    var current, rest, loc := top, pointer, [];
    UnderRoot(Get(top, pointer, caseSensitive));
    while rest != "" && rest[0] == '/'
      invariant Get(top, pointer, caseSensitive) == Under(loc, Get(current, rest, caseSensitive))
      decreases |rest|
    {
      var i := SelectChild(current, rest[1..], caseSensitive);
      if i == None { return None; }
      GetStep(current, rest, i.value, loc, caseSensitive);
      current, rest, loc := Kids(current)[i.value], SkipToken(rest[1..]), loc + [i.value];
    }
    assert loc + [] == loc;
    found := Some(loc);
  }

  /** The body of that loop: an index into an array, a matching key in an object. */
  method SelectChild(j: Json, token: Str, caseSensitive: bool) returns (child: Option<nat>)
    ensures child == ChildIndex(j, token, caseSensitive)
  {
    match j {
      case Array(es) =>
        var ok, index := DecodeArrayIndexFromPointer(token);
        return if ok && index < |es| then Some(index) else None;
      case Object(ms, _) =>
        hide Matches, DecodeIndex;
        var i := 0;
        while i < |ms|
          invariant i <= |ms|
          invariant FindMatch(ms, token, caseSensitive) == i + FindMatch(ms[i..], token, caseSensitive)
        {
          var same := ComparePointers(ms[i].key, token, caseSensitive);
          if same { return Some(i); }
          assert ms[i..][1..] == ms[i + 1..];
          i := i + 1;
        }
        return None;
      case _ =>
        return None;
    }
  }

  // ---------- searching for the pointer of a node ----------

  /** cJSONUtils_FindPointerFromObjectTo on an unshared tree: the node being visited is at `here`,
      and it is the target iff the positions are equal. */
  function Find(j: Json, here: seq<nat>, target: seq<nat>): Option<Str>
    decreases j
  {
    if here == target then Some("") else FindBelow(j, here, target, 0)
  }

  function FindBelow(j: Json, here: seq<nat>, target: seq<nat>, i: nat): Option<Str>
    decreases j, |Kids(j)| - i
  {
    if i >= |Kids(j)| then None
    else
      match Find(Kids(j)[i], here + [i], target)
      case None => FindBelow(j, here, target, i + 1)
      case Some(below) =>
        if j.Object? then Some("/" + Encode(j.members[i].key) + below)
        else if i > ULONG_MAX then None
        else Some("/" + Dec(i) + below)
  }

  method FindPointerFromObjectTo(top: Json, here: seq<nat>, target: seq<nat>) returns (pointer: Option<Str>)
    ensures pointer == Find(top, here, target)
    decreases top
  {
    if here == target {
      return Some("");
    }
    var i := 0;
    while i < |Kids(top)|
      invariant i <= |Kids(top)|
      invariant Find(top, here, target) == FindBelow(top, here, target, i)
    {
      var below := FindPointerFromObjectTo(Kids(top)[i], here + [i], target);
      if below.Some? {
        if top.Object? {
          return Some("/" + Encode(top.members[i].key) + below.value);
        } else if i > ULONG_MAX {
          return None;
        } else {
          return Some("/" + Dec(i) + below.value);
        }
      }
      i := i + 1;
    }
    return None;
  }

  /** Array indices on the way to `loc` fit in an unsigned long. */
  predicate IndicesFit(j: Json, loc: seq<nat>)
    requires ValidLoc(j, loc)
  {
    loc != [] ==> (j.Array? ==> loc[0] <= ULONG_MAX) && IndicesFit(Kids(j)[loc[0]], loc[1..])
  }

  /** The token for the i-th child, as it stands in a pointer. */
  function ChildToken(j: Json, i: nat): Str
    requires i < |Kids(j)|
  {
    if j.Object? then Encode(j.members[i].key) else Dec(i)
  }

  function PointerTo(j: Json, loc: seq<nat>): (p: Str)
    requires ValidLoc(j, loc)
    ensures EndsToken(p)
  {
    if loc == [] then "" else "/" + ChildToken(j, loc[0]) + PointerTo(Kids(j)[loc[0]], loc[1..])
  }

  /** The search finds nothing outside the subtree it visits. */
  lemma {:induction false} FindOutside(j: Json, here: seq<nat>, target: seq<nat>)
    requires !(here <= target)
    ensures Find(j, here, target) == None
    decreases j
  {
    FindBelowOutside(j, here, target, 0);
  }

  lemma {:induction false} FindBelowOutside(j: Json, here: seq<nat>, target: seq<nat>, i: nat)
    requires i <= |Kids(j)|
    requires forall k | i <= k < |Kids(j)| :: !(here + [k] <= target)
    ensures FindBelow(j, here, target, i) == None
    decreases j, |Kids(j)| - i
  {
    if i < |Kids(j)| {
      FindOutside(Kids(j)[i], here + [i], target);
      FindBelowOutside(j, here, target, i + 1);
    }
  }

  /** The search succeeds exactly for the nodes of the tree whose array indices fit, and returns
      the pointer that spells their position. */
  lemma {:induction false} FindSpells(j: Json, here: seq<nat>, loc: seq<nat>)
    ensures Find(j, here, here + loc) ==
            if ValidLoc(j, loc) && IndicesFit(j, loc) then Some(PointerTo(j, loc)) else None
    decreases j, 1
  {
    if loc == [] {
      assert here + loc == here;
    } else {
      FindBelowSpells(j, here, loc, 0);
    }
  }

  lemma {:induction false} FindBelowSpells(j: Json, here: seq<nat>, loc: seq<nat>, i: nat)
    requires loc != [] && i <= |Kids(j)| && i <= loc[0]
    ensures FindBelow(j, here, here + loc, i) ==
            if ValidLoc(j, loc) && IndicesFit(j, loc) then Some(PointerTo(j, loc)) else None
    decreases j, 0, |Kids(j)| - i
  {
    if i < |Kids(j)| {
      var kid := Kids(j)[i];
      if i == loc[0] {
        assert here + loc == (here + [i]) + loc[1..];
        FindSpells(kid, here + [i], loc[1..]);
        if !(ValidLoc(kid, loc[1..]) && IndicesFit(kid, loc[1..])) {
          forall k | i + 1 <= k < |Kids(j)| ensures !(here + [k] <= here + loc) {
            assert (here + loc)[|here|] != (here + [k])[|here|];
          }
          FindBelowOutside(j, here, here + loc, i + 1);
        }
      } else {
        assert (here + loc)[|here|] != (here + [i])[|here|];
        FindOutside(kid, here + [i], here + loc);
        FindBelowSpells(j, here, loc, i + 1);
      }
    }
  }

  /** The pointer that spells a position leads back to it. */
  lemma {:induction false} GetSpelled(j: Json, loc: seq<nat>, cs: bool)
    requires ValidLoc(j, loc) && IndicesFit(j, loc) && Unique(j, cs)
    ensures Get(j, PointerTo(j, loc), cs) == Some(loc)
    decreases loc
  {
    if loc != [] {
      SpelledHead(j, loc);
      SpelledChild(j, loc[0], PointerTo(Kids(j)[loc[0]], loc[1..]), cs);
      GetSpelled(Kids(j)[loc[0]], loc[1..], cs);
      SpelledStep(j, loc, cs);
    }
  }

  lemma SpelledHead(j: Json, loc: seq<nat>)
    requires ValidLoc(j, loc) && loc != []
    ensures var p := PointerTo(j, loc);
            p != "" && p[0] == '/' && p[1..] == ChildToken(j, loc[0]) + PointerTo(Kids(j)[loc[0]], loc[1..])
  {
    hide Kids, ChildToken;
    Assoc("/", ChildToken(j, loc[0]), PointerTo(Kids(j)[loc[0]], loc[1..]));
  }

  lemma SpelledStep(j: Json, loc: seq<nat>, cs: bool)
    requires ValidLoc(j, loc) && loc != []
    requires var p, kid := PointerTo(j, loc), Kids(j)[loc[0]];
             p != "" && p[0] == '/'
             && ChildIndex(j, p[1..], cs) == Some(loc[0])
             && Get(kid, SkipToken(p[1..]), cs) == Some(loc[1..])
    ensures Get(j, PointerTo(j, loc), cs) == Some(loc)
  {
    hide Kids, ChildIndex, SkipToken, PointerTo, ValidLoc;
    assert loc == [loc[0]] + loc[1..];
  }

  lemma SpelledChild(j: Json, i: nat, tail: Str, cs: bool)
    requires i < |Kids(j)| && (j.Array? ==> i <= ULONG_MAX) && Unique(j, cs) && EndsToken(tail)
    ensures ChildIndex(j, ChildToken(j, i) + tail, cs) == Some(i)
    ensures SkipToken(ChildToken(j, i) + tail) == tail
    ensures Unique(Kids(j)[i], cs)
  {
    hide SkipToken, DecodeIndex, FindMatch, Encode, Dec;
    SkipTokenOver(ChildToken(j, i), tail);
    match j
    case Array(es) =>
      assert es[i] in es;
      DecodeDec(i, tail);
    case Object(ms, _) =>
      assert ms[i] in ms;
      FindMatchKey(ms, ms[i].key, tail, cs);
      OwnKey(ms, i, cs);
  }

  lemma OwnKey<T>(ms: seq<Member<T>>, i: nat, cs: bool)
    requires i < |ms| && DistinctKeys(ms, cs)
    ensures FindKey(ms, ms[i].key, cs) == i
  {
    hide Norm;
  }

  /** Matching an encoded key against the members is looking the key up. */
  lemma {:induction false} FindMatchKey<T>(ms: seq<Member<T>>, name: Str, tail: Str, cs: bool)
    requires EndsToken(tail)
    ensures FindMatch(ms, Encode(name) + tail, cs) == FindKey(ms, name, cs)
  {
    if ms != [] {
      MatchesEncoded(ms[0].key, name, tail, cs);
      FindMatchKey(ms[1..], name, tail, cs);
    }
  }

  /** Search and lookup are inverse: whatever the keys contain, the pointer found for a node of a
      tree with unique keys leads back to that node, and every node whose array indices fit has one. */
  lemma SearchThenLookup(root: Json, loc: seq<nat>, cs: bool)
    requires Unique(root, cs)
    ensures Find(root, [], loc).Some? <==> ValidLoc(root, loc) && IndicesFit(root, loc)
    ensures Find(root, [], loc).Some? ==> Get(root, Find(root, [], loc).value, cs) == Some(loc)
  {
    FindSpells(root, [], loc);
    assert [] + loc == loc;
    if ValidLoc(root, loc) && IndicesFit(root, loc) {
      GetSpelled(root, loc, cs);
    }
  }
}
