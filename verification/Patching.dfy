/** JSON Patch application (apply_patch) on the tree, with the exact status codes. */
module Patching {
  import opened CStrings
  import opened JsonTrees
  import opened SiblingLinks
  import opened Comparing
  import opened Pointers

  datatype Operation = INVALID | ADD | REMOVE | REPLACE | MOVE | COPY | TEST

  /** The status that apply_patch returns and the document it leaves behind. */
  datatype Outcome = Outcome(status: int, root: Json)

  /** Not a status: a member was to be appended behind one that has already left its object, and nothing is
      promised from there on. */
  const UNDEFINED: int := -1

  // ---------- decode_pointer_inplace ----------

  /** The in-place decoder from two cursors on: it copies nothing for an ordinary character, and
      writes the second character of an escape to where the first one belongs. */
  function DecodeFrom(buf: Str, src: nat, dst: nat): (r: Str)
    requires dst <= src <= |buf|
    decreases |buf| - src
  {
    if src == |buf| then buf[..dst]
    else if buf[src] != '~' then DecodeFrom(buf, src + 1, dst + 1)
    else if src + 1 < |buf| && buf[src + 1] == '0' then DecodeFrom(buf[dst := '~'], src + 2, dst + 1)
    else if src + 1 < |buf| && buf[src + 1] == '1' then DecodeFrom(buf[dst + 1 := '/'], src + 2, dst + 1)
    else buf
  }

  function DecodeInPlace(s: Str): Str {
    DecodeFrom(s, 0, 0)
  }

  /** Keys that the decoder gets back from their encoding: no '/', and every character other
      than '~' stands at its own place in the encoded text. */
  predicate Survives(key: Str) {
    '/' !in key
    && forall d | 0 <= d < |key| && key[d] != '~' :: d < |Encode(key)| && Encode(key)[d] == key[d]
  }

  /** What the decoder leaves at position d of the encoding of a key. */
  function DecodedChar(key: Str, d: nat): char
    requires d < |key| <= |Encode(key)|
  {
    if key[d] == '~' then '~' else if d > 0 && key[d - 1] == '/' then '/' else Encode(key)[d]
  }

  /** The state of the decoder before the d-th character of a key. */
  ghost predicate Decoding(key: Str, d: nat, buf: Str)
    requires d <= |key| <= |Encode(key)|
  {
    |buf| == |Encode(key)|
    && (forall i | 0 <= i < d :: buf[i] == DecodedChar(key, i))
    && (d < |key| && d > 0 && key[d - 1] == '/' ==> buf[d] == '/' && d < |Encode(key[..d])|)
    && (forall i | d <= i < |buf| && !(i == d && d > 0 && key[d - 1] == '/') :: buf[i] == Encode(key)[i])
  }

  lemma {:induction false} DecodeEncodedFrom(key: Str, d: nat, buf: Str)
    requires d <= |key| <= |Encode(key)| && d <= |Encode(key[..d])| <= |Encode(key)| && Decoding(key, d, buf)
    ensures var r := DecodeFrom(buf, |Encode(key[..d])|, d);
            |r| == |key| && forall i | 0 <= i < |key| :: r[i] == DecodedChar(key, i)
    decreases |key| - d
  {
    if d == |key| {
      assert key[..d] == key;
    } else {
      hide Encode, DecodeFrom, EncodeChar, Decoding, Decode1;
      EncodePrefix(key, d);
      EncodeGrows(key[..d]);
      EncodeGrows(key[..d + 1]);
      DecodingStep(key, d, buf);
      DecodeRound(key, d, buf);
      DecodeEncodedFrom(key, d + 1, Decode1(key[d], buf, d));
    }
  }

  /** One round of the decoder consumes the encoding of one character. */
  lemma DecodeRound(key: Str, d: nat, buf: Str)
    requires d < |key| <= |Encode(key)| && d <= |Encode(key[..d])| && Decoding(key, d, buf)
    requires var n, c := |Encode(key[..d])|, EncodeChar(key[d]);
             |Encode(key[..d + 1])| == n + |c| <= |Encode(key)|
             && Encode(key)[n] == c[0] && (|c| > 1 ==> Encode(key)[n + 1] == c[1])
    ensures DecodeFrom(buf, |Encode(key[..d])|, d)
            == DecodeFrom(Decode1(key[d], buf, d), |Encode(key[..d + 1])|, d + 1)
  {
    hide Encode;
  }

  /** What one round of the decoder writes. */
  function Decode1(c: char, buf: Str, d: nat): Str
    requires d + 1 < |buf| || (c != '/' && d < |buf|)
  {
    if c == '~' then buf[d := '~'] else if c == '/' then buf[d + 1 := '/'] else buf
  }

  lemma DecodingStep(key: Str, d: nat, buf: Str)
    requires d < |key| <= |Encode(key)| && d <= |Encode(key[..d])| && Decoding(key, d, buf)
    requires var n, c := |Encode(key[..d])|, EncodeChar(key[d]);
             |Encode(key[..d + 1])| == n + |c| <= |Encode(key)|
             && Encode(key)[n] == c[0] && (|c| > 1 ==> Encode(key)[n + 1] == c[1])
    ensures Decoding(key, d + 1, Decode1(key[d], buf, d))
  {
    hide Encode;
  }

  lemma {:induction false} EncodeGrows(s: Str)
    ensures |s| <= |Encode(s)|
  {
    if s != "" { EncodeGrows(s[1..]); }
  }

  /** The in-place decoder undoes the escaping of exactly these keys. */
  lemma DecodeUndoesEncode(key: Str)
    ensures DecodeInPlace(Encode(key)) == key <==> Survives(key)
    ensures |DecodeInPlace(Encode(key))| == |key|
  {
    EncodeGrows(key);
    assert key[..0] == "";
    DecodeEncodedFrom(key, 0, Encode(key));
    if '/' in key {
      var d := FirstSlash(key);
    }
  }

  /** The first slash of a key is lost. */
  lemma FirstSlash(key: Str) returns (d: nat)
    requires '/' in key && |key| <= |Encode(key)|
    ensures d < |key| && key[d] == '/' && DecodedChar(key, d) != key[d]
  {
    d := 0;
    while key[d] != '/'
      invariant d < |key| && '/' !in key[..d] && '/' in key[d..]
      decreases |key| - d
    {
      assert key[d..] == [key[d]] + key[d + 1..];
      d := d + 1;
    }
    assert d > 0 ==> key[d - 1] in key[..d];
    assert Encode(key)[d] in Encode(key);
  }

  // ---------- splitting a path and changing its parent ----------

  /** strrchr(path, '/'). */
  function LastSlash(path: Str): (r: Option<nat>)
    ensures r.Some? ==> r.value < |path|
  {
    if path == "" then None
    else if path[|path| - 1] == '/' then Some(|path| - 1)
    else LastSlash(path[..|path| - 1])
  }

  function WithKid(j: Json, i: nat, x: Json): Json
    requires i < |Kids(j)|
  {
    match j
    case Array(es) => Array(es[i := x])
    case Object(ms, link) => Object(ms[i := Member(ms[i].key, x)], link)
  }

  function SetAt(j: Json, loc: seq<nat>, x: Json): Json
    requires ValidLoc(j, loc)
  {
    if loc == [] then x else WithKid(j, loc[0], SetAt(Kids(j)[loc[0]], loc[1..], x))
  }

  /** The child that detach_path takes out of a container. Object members are looked up
      ignoring case, whatever the mode. */
  function DetachChild(parent: Json, child: Str): Option<(Json, Json)> {
    match parent
    case Array(es) =>
      (match DecodeIndex(child)
       case Some(i) => if i < |es| then Some((Array(RemoveAt(es, i)), es[i])) else None
       case None => None)
    case Object(ms, _) =>
      var i := FindKey(ms, child, false);
      if i < |ms| then Some((WithoutMember(parent, child, false), ms[i].value)) else None
    case _ => None
  }

  /** detach_path: the document without the item at `path`, and the item. */
  function Detach(root: Json, path: Str, cs: bool): Option<(Json, Json)> {
    match LastSlash(path)
    case None => None
    case Some(slash) =>
      match Get(root, path[..slash], cs)
      case None => None
      case Some(loc) =>
        match DetachChild(At(root, loc), DecodeInPlace(path[slash + 1..]))
        case None => None
        case Some((parent, item)) => Some((SetAt(root, loc, parent), item))
  }

  /** Adding a value to a container: the status, and the container afterwards. */
  function InsertChild(parent: Json, child: Str, value: Json, cs: bool): Outcome {
    match parent
    case Array(es) =>
      if child == "-" then Outcome(0, Array(es + [value]))
      else
        (match DecodeIndex(child)
         case None => Outcome(11, parent)
         case Some(i) =>
           if i > |es| then Outcome(10, parent)
           else Outcome(0, Array(es[..i] + [value] + es[i..])))
    case Object(_, _) =>
      var kept := WithoutMember(parent, child, cs);
      if Appendable(kept) then Outcome(0, AddedMember(kept, Member(child, value))) else Outcome(UNDEFINED, parent)
    case _ => Outcome(9, parent)
  }

  /** The last part of apply_patch: add `value` at `path`. */
  function Insert(root: Json, path: Str, value: Json, cs: bool): Outcome {
    match LastSlash(path)
    case None => Outcome(9, root)
    case Some(slash) =>
      match Get(root, path[..slash], cs)
      case None => Outcome(9, root)
      case Some(loc) =>
        var done := InsertChild(At(root, loc), DecodeInPlace(path[slash + 1..]), value, cs);
        if done.status == 0 then Outcome(0, SetAt(root, loc, done.root)) else Outcome(done.status, root)
  }

  // ---------- apply_patch ----------

  function OperationOf(name: Str): Operation {
    match name
    case "add" => ADD
    case "remove" => REMOVE
    case "replace" => REPLACE
    case "move" => MOVE
    case "copy" => COPY
    case "test" => TEST
    case _ => INVALID
  }

  function DecodeOperation(patch: Json, cs: bool): Operation {
    match GetMember(patch, "op", cs)
    case Some(String(name)) => OperationOf(name)
    case _ => INVALID
  }

  function InsertValue(root: Json, path: Str, patch: Json, cs: bool): Outcome {
    match GetMember(patch, "value", cs)
    case None => Outcome(7, root)
    case Some(value) => Insert(root, path, Relinked(value), cs)
  }

  function Test(root: Json, path: Str, patch: Json, cs: bool): bool {
    match (Get(root, path, cs), GetMember(patch, "value", cs))
    case (Some(loc), Some(value)) => SameSorted(At(root, loc), value, cs)
    case _ => false
  }

  /** The document after the comparison of a test. */
  function AfterTest(root: Json, path: Str, patch: Json, cs: bool): Json {
    match (Get(root, path, cs), GetMember(patch, "value", cs))
    case (Some(loc), Some(value)) => SetAt(root, loc, AfterCompare(At(root, loc), value, cs).0)
    case _ => root
  }

  /** The patch after the comparison of a test: its value may be sorted. */
  function Tested(root: Json, path: Str, patch: Json, cs: bool): Json {
    match (Get(root, path, cs), GetMember(patch, "value", cs))
    case (Some(loc), Some(_)) =>
      var i := FindKey(patch.members, "value", cs);
      WithKid(patch, i, AfterCompare(At(root, loc), patch.members[i].value, cs).1)
    case _ => patch
  }

  /** The patch after it has been applied. */
  function PatchAfter(root: Json, patch: Json, cs: bool): Json {
    match GetMember(patch, "path", cs)
    case Some(String(path)) => if DecodeOperation(patch, cs) == TEST then Tested(root, path, patch, cs) else patch
    case _ => patch
  }

  /** The valuestring of an item, if it has one. */
  function TextOf(j: Json): Option<Str> {
    match j
    case String(s) => Some(s)
    case Raw(s) => Some(s)
    case _ => None
  }

  function Apply(root: Json, patch: Json, cs: bool): Outcome {
    match GetMember(patch, "path", cs)
    case Some(String(path)) =>
      (match DecodeOperation(patch, cs)
       case INVALID => Outcome(3, root)
       case TEST => Outcome(if Test(root, path, patch, cs) then 0 else 1, AfterTest(root, path, patch, cs))
       case REMOVE =>
         if path == "" then Outcome(0, Invalid)
         else
           (match Detach(root, path, cs)
            case None => Outcome(13, root)
            case Some((rest, _)) => Outcome(0, rest))
       case REPLACE =>
         if path == "" then ReplaceRoot(root, patch, cs)
         else
           (match Detach(root, path, cs)
            case None => Outcome(13, root)
            case Some((rest, _)) => InsertValue(rest, path, patch, cs))
       case ADD =>
         if path == "" then ReplaceRoot(root, patch, cs) else InsertValue(root, path, patch, cs)
       case MOVE =>
         (match GetMember(patch, "from", cs)
          case None => Outcome(4, root)
          case Some(f) =>
            (match TextOf(f)
             case None => Outcome(5, root)
             case Some(from) =>
               (match Detach(root, from, cs)
                case None => Outcome(5, root)
                case Some((rest, item)) => Insert(rest, path, item, cs))))
       case COPY =>
         (match GetMember(patch, "from", cs)
          case None => Outcome(4, root)
          case Some(f) =>
            (match TextOf(f)
             case None => Outcome(5, root)
             case Some(from) =>
               (match Get(root, from, cs)
                case None => Outcome(5, root)
                case Some(loc) => Insert(root, path, Relinked(At(root, loc)), cs)))))
    case _ => Outcome(2, root)
  }

  function ReplaceRoot(root: Json, patch: Json, cs: bool): Outcome {
    match GetMember(patch, "value", cs)
    case None => Outcome(7, root)
    case Some(value) => Outcome(0, Relinked(value))
  }

  /** The patches after they have been applied up to the first one that fails. */
  function PatchesAfter(root: Json, patches: seq<Json>, cs: bool): (r: seq<Json>)
    ensures |r| == |patches|
    decreases patches
  {
    if patches == [] then []
    else
      var first := Apply(root, patches[0], cs);
      [PatchAfter(root, patches[0], cs)]
      + if first.status != 0 then patches[1..] else PatchesAfter(first.root, patches[1..], cs)
  }

  /** cJSONUtils_ApplyPatches from some patch on: stop at the first status that is not 0. */
  function ApplyAll(root: Json, patches: seq<Json>, cs: bool): Outcome
    decreases patches
  {
    if patches == [] then Outcome(0, root)
    else
      var first := Apply(root, patches[0], cs);
      if first.status != 0 then first else ApplyAll(first.root, patches[1..], cs)
  }
}
