/** The mutating side of JSON Patch: a document that patches change in place. The paths are copied into a
    buffer, cut at the last slash and decoded there; each method is proved against the functions of Patching. */
module Documents {
  import opened CStrings
  import opened SiblingLinks
  import opened JsonTrees
  import opened Sorting
  import opened Comparing
  import opened ComparingLoops
  import opened Pointers
  import opened Patching

  // ---------- C strings in a buffer ----------

  /** The text at some place of a buffer, with the NUL behind it. */
  ghost predicate HoldsText(a: array<char>, at: nat, s: Str)
    reads a
  {
    at + |s| < a.Length && a[at + |s|] == '\0' && forall i | 0 <= i < |s| :: s[i] == a[at + i] && s[i] != '\0'
  }

  lemma TextAt(a: array<char>, at: nat, s: Str, i: nat)
    requires HoldsText(a, at, s) && i <= |s|
    ensures at + i < a.Length
    ensures a[at + i] == (if i < |s| then s[i] else '\0') && (a[at + i] == '\0' <==> i == |s|)
  {
  }

  /** cJSONUtils_strdup. */
  method Strdup(s: Str) returns (copy: array<char>)
    requires '\0' !in s
    ensures fresh(copy) && copy.Length == |s| + 1 && HoldsText(copy, 0, s)
  {
    copy := new char[|s| + 1];
    forall i | 0 <= i < |s| { copy[i] := s[i]; }
    copy[|s|] := '\0';
  }

  /** strrchr for a slash. */
  method LastSlashIn(buffer: array<char>, ghost s: Str) returns (slash: Option<nat>)
    requires HoldsText(buffer, 0, s)
    ensures slash == LastSlash(s)
  {
    slash := None;
    var i := 0;
    TextAt(buffer, 0, s, 0);
    while buffer[i] != '\0'
      invariant i <= |s| && (buffer[i] == '\0' <==> i == |s|)
      invariant slash == LastSlash(s[..i])
      decreases |s| - i
    {
      TextAt(buffer, 0, s, i);
      TextAt(buffer, 0, s, i + 1);
      assert s[..i + 1][..i] == s[..i];
      if buffer[i] == '/' { slash := Some(i); }
      i := i + 1;
    }
    assert s[..|s|] == s;
  }

  /** The string that a pointer into a buffer stands for. */
  method StringAt(buffer: array<char>, at: nat, ghost text: Str) returns (s: Str)
    requires HoldsText(buffer, at, text)
    ensures s == text
  {
    var end := at;
    TextAt(buffer, at, text, 0);
    while buffer[end] != '\0'
      invariant at <= end <= at + |text| && (buffer[end] == '\0' <==> end == at + |text|)
      decreases at + |text| - end
    {
      TextAt(buffer, at, text, end + 1 - at);
      end := end + 1;
    }
    s := buffer[at..end];
  }

  /** decode_pointer_inplace, from some place of a buffer on. */
  method DecodePointerInplace(buffer: array<char>, at: nat, ghost text: Str)
    requires HoldsText(buffer, at, text)
    modifies buffer
    ensures HoldsText(buffer, at, DecodeInPlace(text))
    ensures buffer[..at] == old(buffer[..at])
  {
    hide DecodeFrom, HoldsText;
    var src, dst, more := at, at, true;
    ghost var buf := text;
    TextAt(buffer, at, text, 0);
    while buffer[src] != '\0'
      invariant at <= dst <= src <= at + |text| && |buf| == |text|
      invariant HoldsText(buffer, at, buf) && src < buffer.Length && (buffer[src] == '\0' <==> src == at + |text|)
      invariant DecodeFrom(buf, src - at, dst - at) == DecodeInPlace(text)
      invariant buffer[..at] == old(buffer[..at])
      decreases at + |text| - src
    {
      more, src, dst, buf := DecodeNext(buffer, at, src, dst, buf);
      if !more { return; }
      TextAt(buffer, at, buf, src - at);
    }
    DecodeEnd(buf, src - at, dst - at);
    CutText(buffer, at, dst, buf);
  }

  /** One round: a character, or an escape; a bad escape ends the decoding. */
  method DecodeNext(buffer: array<char>, at: nat, src: nat, dst: nat, ghost buf: Str)
    returns (more: bool, src': nat, dst': nat, ghost buf': Str)
    requires at <= dst <= src < at + |buf| && HoldsText(buffer, at, buf)
    modifies buffer
    ensures HoldsText(buffer, at, buf') && |buf'| == |buf| && buffer[..at] == old(buffer[..at])
    ensures if more then
              at <= dst' <= src' <= at + |buf| && src < src'
              && DecodeFrom(buf', src' - at, dst' - at) == DecodeFrom(buf, src - at, dst - at)
            else buf' == DecodeFrom(buf, src - at, dst - at)
  {
    hide DecodeFrom;
    TextAt(buffer, at, buf, src - at);
    TextAt(buffer, at, buf, src + 1 - at);
    DecodeRoundAt(buf, src - at, dst - at);
    more, src', dst', buf' := true, src, dst, buf;
    if buffer[src] == '~' {
      if buffer[src + 1] == '0' {
        buffer[dst] := '~';
        buf' := buf[dst - at := '~'];
      } else if buffer[src + 1] == '1' {
        buffer[dst + 1] := '/';
        buf' := buf[dst + 1 - at := '/'];
      } else {
        more := false;
        return;
      }
      src' := src' + 1;
    }
    src', dst' := src' + 1, dst' + 1;
  }

  /** A NUL ends the text. */
  method CutText(buffer: array<char>, at: nat, end: nat, ghost text: Str)
    requires HoldsText(buffer, at, text) && at <= end <= at + |text|
    modifies buffer
    ensures HoldsText(buffer, at, text[..end - at]) && buffer[..at] == old(buffer[..at])
  {
    buffer[end] := '\0';
  }

  lemma DecodeRoundAt(buf: Str, src: nat, dst: nat)
    requires dst <= src < |buf|
    ensures DecodeFrom(buf, src, dst) ==
            if buf[src] != '~' then DecodeFrom(buf, src + 1, dst + 1)
            else if src + 1 < |buf| && buf[src + 1] == '0' then DecodeFrom(buf[dst := '~'], src + 2, dst + 1)
            else if src + 1 < |buf| && buf[src + 1] == '1' then DecodeFrom(buf[dst + 1 := '/'], src + 2, dst + 1)
            else buf
  {
  }

  lemma DecodeEnd(buf: Str, src: nat, dst: nat)
    requires dst <= src == |buf|
    ensures DecodeFrom(buf, src, dst) == buf[..dst]
  {
  }

  /** A copy of a path, cut in two at its last slash: the parent's path, and the decoded last token. */
  method SplitPointer(path: Str) returns (slash: Option<nat>, parent: Str, child: Str)
    requires '\0' !in path
    ensures slash == LastSlash(path)
    ensures slash.Some? ==> parent == path[..slash.value] && child == DecodeInPlace(path[slash.value + 1..])
  {
    hide DecodeFrom, LastSlash;
    parent, child := "", "";
    var pointer := Strdup(path);
    slash := LastSlashIn(pointer, path);
    if slash.None? { return; }
    var cut := slash.value;
    pointer[cut] := '\0';
    HalvesHold(pointer, path, cut);
    parent := StringAt(pointer, 0, path[..cut]);
    DecodePointerInplace(pointer, cut + 1, path[cut + 1..]);
    child := StringAt(pointer, cut + 1, DecodeInPlace(path[cut + 1..]));
  }

  lemma HalvesHold(a: array<char>, path: Str, cut: nat)
    requires '\0' !in path && a.Length == |path| + 1 && cut < |path| && a[cut] == '\0' && a[|path|] == '\0'
    requires forall i | 0 <= i < |path| && i != cut :: a[i] == path[i]
    ensures HoldsText(a, 0, path[..cut]) && HoldsText(a, cut + 1, path[cut + 1..])
  {
    forall i | 0 <= i < |path| ensures path[i] != '\0' { assert path[i] in path; }
  }

  // ---------- one container ----------

  /** get_object_item. */
  method GetItem(json: Json, name: Str, caseSensitive: bool) returns (item: Option<Json>)
    ensures item == GetMember(json, name, caseSensitive)
  {
    if !json.Object? { return None; }
    var index := GetObjectItem(json.members, name, caseSensitive);
    item := if index < |json.members| then Some(json.members[index].value) else None;
  }

  /** decode_patch_operation. */
  method DecodePatchOperation(patch: Json, caseSensitive: bool) returns (opcode: Operation)
    ensures opcode == DecodeOperation(patch, caseSensitive)
  {
    var operation := GetItem(patch, "op", caseSensitive);
    opcode := if operation.Some? && operation.value.String? then OperationOf(operation.value.text) else INVALID;
  }

  /** detach_item_from_array. */
  method DetachItemFromArray(elems: seq<Json>, which: nat) returns (rest: seq<Json>, item: Option<Json>)
    ensures if which < |elems| then rest == RemoveAt(elems, which) && item == Some(elems[which])
            else rest == elems && item == None
  {
    var i, left := 0, which;
    while i < |elems| && left > 0
      invariant i <= |elems| && i + left == which
    {
      i, left := i + 1, left - 1;
    }
    if i == |elems| { return elems, None; }
    return elems[..i] + elems[i + 1..], Some(elems[i]);
  }

  /** insert_item_in_array: refuses a position beyond the end. */
  method InsertItemInArray(elems: seq<Json>, which: nat, item: Json) returns (inserted: bool, all: seq<Json>)
    ensures inserted <==> which <= |elems|
    ensures all == if inserted then elems[..which] + [item] + elems[which..] else elems
  {
    var i, left := 0, which;
    while i < |elems| && left > 0
      invariant i <= |elems| && i + left == which
    {
      i, left := i + 1, left - 1;
    }
    if left > 0 { return false, elems; }
    return true, elems[..i] + [item] + elems[i..];
  }

  /** cJSON_DetachItemFromObject, with or without case. */
  method DetachItemFromObject(json: Json, name: Str, caseSensitive: bool) returns (rest: Json, item: Option<Json>)
    requires json.Object?
    ensures rest == WithoutMember(json, name, caseSensitive) && item == GetMember(json, name, caseSensitive)
  {
    var index := GetObjectItem(json.members, name, caseSensitive);
    if index == |json.members| { return json, None; }
    var siblings := Detached(Chain(json.members, json.link), index);
    return Object(siblings.items, siblings.link), Some(json.members[index].value);
  }

  /** The part of detach_path behind the lookup of the parent. */
  method DetachFrom(parent: Json, child: Str) returns (rest: Json, item: Option<Json>)
    ensures match DetachChild(parent, child)
            case None => item == None && rest == parent
            case Some((p, i)) => rest == p && item == Some(i)
  {
    hide WithoutMember, DecodeIndex;
    rest, item := parent, None;
    match parent {
      case Array(es) =>
        var ok, index := DecodeArrayIndexFromPointer(child);
        if !ok { return; }
        var left;
        left, item := DetachItemFromArray(es, index);
        rest := Array(left);
      case Object(_, _) =>
        rest, item := DetachItemFromObject(parent, child, false);
        if item.None? { DetachNothing(parent, child); }
      case _ =>
    }
  }

  lemma DetachNothing(j: Json, name: Str)
    requires j.Object? && GetMember(j, name, false).None?
    ensures WithoutMember(j, name, false) == j
  {
  }

  /** The part of apply_patch behind the lookup of the parent. */
  method AddTo(parent: Json, child: Str, value: Json, caseSensitive: bool) returns (status: int, filled: Json)
    requires InsertChild(parent, child, value, caseSensitive).status != UNDEFINED
    ensures Outcome(status, filled) == InsertChild(parent, child, value, caseSensitive)
  {
    hide WithoutMember, AddedMember, DecodeIndex, Appendable;
    filled := parent;
    match parent {
      case Array(es) =>
        if child == "-" { return 0, Array(es + [value]); }
        var ok, index := DecodeArrayIndexFromPointer(child);
        if !ok { return 11, parent; }
        var inserted, all := InsertItemInArray(es, index, value);
        if !inserted { return 10, parent; }
        return 0, Array(all);
      case Object(_, _) =>
        var kept, old' := DetachItemFromObject(parent, child, caseSensitive);
        return 0, AddedMember(kept, Member(child, value));
      case _ =>
        return 9, parent;
    }
  }

  // ---------- the document ----------

  /** What apply_patch reads as a C string: the path, and the "from" of a move or copy. A move copies its
      "from" without looking whether it is a string. */
  ghost predicate Readable(patch: Json, cs: bool) {
    var path, from := GetMember(patch, "path", cs), GetMember(patch, "from", cs);
    path.Some? && path.value.String? ==>
      '\0' !in path.value.text
      && (DecodeOperation(patch, cs) == MOVE && from.Some? ==> TextOf(from.value).Some?)
      && (from.Some? && TextOf(from.value).Some? ==> '\0' !in TextOf(from.value).value)
  }

  class Document {
    var root: Json

    constructor (root: Json)
      ensures this.root == root
    {
      this.root := root;
    }

    /** detach_path: take the item out of the document. */
    method DetachPath(path: Str, caseSensitive: bool) returns (item: Option<Json>)
      requires '\0' !in path
      modifies this
      ensures match Detach(old(root), path, caseSensitive)
              case None => item == None && root == old(root)
              case Some((rest, i)) => item == Some(i) && root == rest
    {
      hide Get, At, SetAt, DetachChild, DecodeInPlace, LastSlash, Kids, ValidLoc;
      var slash, parentPointer, childPointer := SplitPointer(path);
      if slash.None? { return None; }
      var parent := GetItemFromPointer(root, parentPointer, caseSensitive);
      if parent.None? { return None; }
      var rest;
      rest, item := DetachFrom(At(root, parent.value), childPointer);
      if item.Some? { root := SetAt(root, parent.value, rest); }
    }

    /** The tail of apply_patch: "just add value to path". */
    method AddItem(path: Str, value: Json, caseSensitive: bool) returns (status: int)
      requires '\0' !in path && Insert(root, path, value, caseSensitive).status != UNDEFINED
      modifies this
      ensures Outcome(status, root) == Insert(old(root), path, value, caseSensitive)
    {
      hide Get, At, SetAt, InsertChild, DecodeInPlace, LastSlash, Kids, ValidLoc;
      var slash, parentPointer, childPointer := SplitPointer(path);
      if slash.None? { return 9; }
      var parent := GetItemFromPointer(root, parentPointer, caseSensitive);
      if parent.None? { return 9; }
      var filled;
      status, filled := AddTo(At(root, parent.value), childPointer, value, caseSensitive);
      if status == 0 { root := SetAt(root, parent.value, filled); }
    }

    /** The test operation: the comparison sorts what it walks over, in the document and in the patch. */
    method TestPath(path: Str, patch: Json, caseSensitive: bool) returns (status: int, patch': Json)
      modifies this
      ensures status == if Test(old(root), path, patch, caseSensitive) then 0 else 1
      ensures root == AfterTest(old(root), path, patch, caseSensitive)
      ensures patch' == Tested(old(root), path, patch, caseSensitive)
    {
      hide Get, At, SetAt, Kids, ValidLoc, SameSorted, AfterCompare;
      patch' := patch;
      var loc := GetItemFromPointer(root, path, caseSensitive);
      var value := GetItem(patch, "value", caseSensitive);
      if loc.None? || value.None? { return 1, patch; }
      var same, found, expected := CompareJson(At(root, loc.value), value.value, caseSensitive);
      root := SetAt(root, loc.value, found);
      var index := GetObjectItem(patch.members, "value", caseSensitive);
      patch' := Object(patch.members[index := Member(patch.members[index].key, expected)], patch.link);
      status := if same then 0 else 1;
    }

    /** apply_patch. The patch is given back as a test leaves it. */
    method ApplyPatch(patch: Json, caseSensitive: bool) returns (status: int, patch': Json)
      requires Readable(patch, caseSensitive) && Apply(root, patch, caseSensitive).status != UNDEFINED
      modifies this
      ensures Outcome(status, root) == Apply(old(root), patch, caseSensitive)
      ensures patch' == PatchAfter(old(root), patch, caseSensitive)
    {
      hide Get, At, Detach, Insert, Test, AfterTest, Tested, GetMember, DecodeOperation, Relinked, Kids, ValidLoc;
      patch' := patch;
      var path := GetItem(patch, "path", caseSensitive);
      if path.None? || !path.value.String? { status := 2; return; }
      var opcode := DecodePatchOperation(patch, caseSensitive);
      if opcode == INVALID {
        status := 3;
        return;
      } else if opcode == TEST {
        status, patch' := TestPath(path.value.text, patch, caseSensitive);
        return;
      }
      if path.value.text == "" {
        if opcode == REMOVE {
          root := Invalid;
          status := 0;
          return;
        }
        if opcode == REPLACE || opcode == ADD {
          var value := GetItem(patch, "value", caseSensitive);
          if value.None? { status := 7; return; }
          root := Relinked(value.value);
          status := 0;
          return;
        }
      }
      if opcode == REMOVE || opcode == REPLACE {
        var oldItem := DetachPath(path.value.text, caseSensitive);
        if oldItem.None? { status := 13; return; }
        if opcode == REMOVE { status := 0; return; }
      }
      if opcode == MOVE || opcode == COPY {
        status := Transfer(path.value.text, patch, opcode, caseSensitive);
      } else {
        var value := GetItem(patch, "value", caseSensitive);
        if value.None? { status := 7; return; }
        status := AddItem(path.value.text, Relinked(value.value), caseSensitive);
      }
    }

    /** The branch of move and copy. */
    method Transfer(path: Str, patch: Json, opcode: Operation, caseSensitive: bool) returns (status: int)
      requires Readable(patch, caseSensitive) && Apply(root, patch, caseSensitive).status != UNDEFINED
      requires GetMember(patch, "path", caseSensitive) == Some(String(path))
      requires opcode == DecodeOperation(patch, caseSensitive) && (opcode == MOVE || opcode == COPY)
      modifies this
      ensures Outcome(status, root) == Apply(old(root), patch, caseSensitive)
    {
      hide Get, At, Detach, Insert, GetMember, DecodeOperation, Relinked, Kids, ValidLoc;
      var from := GetItem(patch, "from", caseSensitive);
      if from.None? { return 4; }
      var text := TextOf(from.value);
      if opcode == MOVE {
        var item := DetachPath(text.value, caseSensitive);
        if item.None? { return 5; }
        status := AddItem(path, item.value, caseSensitive);
      } else {
        if text.None? { return 5; }
        var loc := GetItemFromPointer(root, text.value, caseSensitive);
        if loc.None? { return 5; }
        status := AddItem(path, Relinked(At(root, loc.value)), caseSensitive);
      }
    }

    /** cJSONUtils_ApplyPatches and its case-sensitive twin. */
    method ApplyPatches(patches: Json, caseSensitive: bool) returns (status: int, patches': Json)
      requires patches.Array? ==>
                 (forall p | p in patches.elems :: Readable(p, caseSensitive))
                 && ApplyAll(root, patches.elems, caseSensitive).status != UNDEFINED
      modifies this
      ensures !patches.Array? ==> status == 1 && root == old(root) && patches' == patches
      ensures patches.Array? ==>
                Outcome(status, root) == ApplyAll(old(root), patches.elems, caseSensitive)
                && patches' == Array(PatchesAfter(old(root), patches.elems, caseSensitive))
    {
      hide Apply, PatchAfter, Readable;
      if !patches.Array? { return 1, patches; }
      var ps, done := patches.elems, [];
      var i := 0;
      assert ps[0..] == ps;
      while i < |ps|
        invariant i <= |ps|
        invariant ApplyAll(root, ps[i..], caseSensitive) == ApplyAll(old(root), ps, caseSensitive)
        invariant done + PatchesAfter(root, ps[i..], caseSensitive) == PatchesAfter(old(root), ps, caseSensitive)
      {
        assert ps[i..][1..] == ps[i + 1..] && ps[i] in ps;
        ghost var before := root;
        var patch;
        status, patch := ApplyPatch(ps[i], caseSensitive);
        if status != 0 {
          Assoc(done, [patch], ps[i + 1..]);
          patches' := Array(done + [patch] + ps[i + 1..]);
          return;
        }
        Assoc(done, [patch], PatchesAfter(root, ps[i + 1..], caseSensitive));
        done := done + [patch];
        i := i + 1;
      }
      assert done + [] == done;
      return 0, Array(done);
    }
  }
}
