/** The parser at work on its buffer and on the heap: it computes what Grammar says, or a request for
    memory was refused; and whatever happens it leaves exactly the blocks of its result behind. */
module Parsing {
  import opened CStrings
  import opened JsonTrees
  import opened StringLiterals
  import opened Grammar

  /** The allocator: blocks that are handed out and not yet taken back. */
  class Heap {
    /** Whether the n-th request is granted. */
    const grants: nat -> bool
    var requests: nat
    var live: multiset<nat>
    var refused: bool

    constructor (grants: nat -> bool)
      ensures Valid() && live == multiset{} && !refused && this.grants == grants
    {
      this.grants, requests, live, refused := grants, 0, multiset{}, false;
    }

    /** No block is handed out twice, and a request is refused only when it is not granted. */
    ghost predicate Valid()
      reads this
    {
      (forall b | b in live :: b < requests && live[b] == 1)
      && ((forall n: nat :: grants(n)) ==> !refused)
    }

    method Allocate() returns (ok: bool, block: nat)
      requires Valid()
      modifies this
      ensures Valid() && (old(refused) ==> refused)
      ensures ok ==> block !in old(live) && live == old(live) + multiset{block} && refused == old(refused)
      ensures !ok ==> live == old(live) && refused
    {
      ok, block := grants(requests), requests;
      if ok { live := live + multiset{block}; } else { refused := true; }
      requests := requests + 1;
    }

    method Free(block: nat)
      requires Valid() && block in live
      modifies this
      ensures Valid() && live == old(live) - multiset{block} && block !in live && refused == old(refused)
    {
      live := live - multiset{block};
    }
  }

  /** A string in a block of its own. */
  datatype Chunk = Chunk(block: nat, text: Str)

  /** An item with the blocks it owns: its own, its name's, and those of what it holds. */
  datatype Item = Item(block: nat, name: Option<Chunk>, content: Content)

  datatype Content =
    | Blank
    | Leaf(json: Json)
    | Words(chunk: Chunk)
    | Elems(items: seq<Item>)
    | Fields(items: seq<Item>)

  function Blocks(c: Content): multiset<nat>
    decreases c
  {
    match c
    case Words(chunk) => multiset{chunk.block}
    case Elems(items) => ListBlocks(items)
    case Fields(items) => ListBlocks(items)
    case _ => multiset{}
  }

  function ItemBlocks(item: Item): multiset<nat>
    decreases item, 0
  {
    multiset{item.block} + NameBlocks(item.name) + Blocks(item.content)
  }

  function ListBlocks(items: seq<Item>): multiset<nat>
    decreases items
  {
    if items == [] then multiset{} else ItemBlocks(items[0]) + ListBlocks(items[1..])
  }

  lemma {:induction false} ListBlocksAppend(items: seq<Item>, item: Item)
    ensures ListBlocks(items + [item]) == ListBlocks(items) + ItemBlocks(item)
  {
    if items == [] {
      assert [item][1..] == [] && items + [item] == [item];
    } else {
      DropHead(items, [item]);
      ListBlocksAppend(items[1..], item);
    }
  }

  /** The tree an item's content is. */
  function Tree(c: Content): Json
    decreases c
  {
    match c
    case Blank => Invalid
    case Leaf(json) => json
    case Words(chunk) => String(chunk.text)
    case Elems(items) => Array(Trees(items))
    case Fields(items) => Object(NamedTrees(items))
  }

  function Trees(items: seq<Item>): seq<Json>
    decreases items
  {
    if items == [] then [] else [NamedTree(items[0]).value] + Trees(items[1..])
  }

  function NamedTree(item: Item): Member<Json>
    decreases item, 0
  {
    Member(if item.name.Some? then item.name.value.text else "", Tree(item.content))
  }

  function NamedTrees(items: seq<Item>): seq<Member<Json>>
    decreases items
  {
    if items == [] then [] else [NamedTree(items[0])] + NamedTrees(items[1..])
  }

  lemma {:induction false} TreesAppend(items: seq<Item>, item: Item)
    ensures Trees(items + [item]) == Trees(items) + [Tree(item.content)]
    ensures NamedTrees(items + [item]) == NamedTrees(items) + [NamedTree(item)]
  {
    if items == [] {
      assert [item][1..] == [] && items + [item] == [item];
    } else {
      DropHead(items, [item]);
      TreesAppend(items[1..], item);
    }
  }

  /** cJSON_Delete on a list of siblings: every block is freed, and freed once. */
  method Delete(heap: Heap, items: seq<Item>)
    requires heap.Valid() && ListBlocks(items) <= heap.live
    modifies heap
    ensures heap.Valid() && heap.live == old(heap.live) - ListBlocks(items) && heap.refused == old(heap.refused)
    decreases items
  {
    var i := 0;
    while i < |items|
      invariant i <= |items| && heap.Valid() && heap.refused == old(heap.refused)
      invariant ListBlocks(items[i..]) <= heap.live
      invariant heap.live - ListBlocks(items[i..]) == old(heap.live) - ListBlocks(items)
    {
      assert items[i..][0] == items[i] && items[i..][1..] == items[i + 1..];
      TakeOff(heap.live, ItemBlocks(items[i]), ListBlocks(items[i + 1..]));
      DeleteItem(heap, items[i]);
      i := i + 1;
    }
    assert ListBlocks(items[i..]) == multiset{};
  }

  lemma TakeOff(live: multiset<nat>, first: multiset<nat>, rest: multiset<nat>)
    requires first + rest <= live
    ensures first <= live && rest <= live - first && live - (first + rest) == (live - first) - rest
  {
  }

  method DeleteItem(heap: Heap, item: Item)
    requires heap.Valid() && ItemBlocks(item) <= heap.live
    modifies heap
    ensures heap.Valid() && heap.live == old(heap.live) - ItemBlocks(item) && heap.refused == old(heap.refused)
    decreases item, 0
  {
    DeleteContent(heap, item.content);
    if item.name.Some? { heap.Free(item.name.value.block); }
    heap.Free(item.block);
  }

  method DeleteContent(heap: Heap, c: Content)
    requires heap.Valid() && Blocks(c) <= heap.live
    modifies heap
    ensures heap.Valid() && heap.live == old(heap.live) - Blocks(c) && heap.refused == old(heap.refused)
    decreases c
  {
    match c {
      case Elems(items) => Delete(heap, items);
      case Fields(items) => Delete(heap, items);
      case Words(chunk) => heap.Free(chunk.block);
      case _ =>
    }
  }

  class ParseBuffer {
    const content: Str
    var offset: nat
    var depth: nat
    const heap: Heap

    constructor (content: Str, heap: Heap)
      requires Window(content)
      ensures this.content == content && this.heap == heap && offset == 0 && depth == 0
    {
      this.content, this.heap, this.offset, this.depth := content, heap, 0, 0;
    }

    /** At a character of the window, within the nesting limit. */
    ghost predicate Ready()
      reads this, heap
    {
      Window(content) && offset < |content| && depth <= CJSON_NESTING_LIMIT && heap.Valid()
    }

    /** What every parsing method keeps: on success the heap has grown by the blocks of the result, and the
        result and the new offset are what the grammar says; on failure the heap is as before, and the
        offset is where the grammar fails, unless a request for memory was refused. */
    twostate predicate Settled<T>(ok: bool, blocks: multiset<nat>, new value: T, new expected: Parsed<T>)
      reads this, heap
    {
      heap.Valid() && offset <= |content| && (old(heap.refused) ==> heap.refused)
      && heap.live == old(heap.live) + (if ok then blocks else multiset{})
      && (if ok then expected == Parsed(value, offset) && depth == old(depth)
          else heap.refused || expected == Failed(offset))
    }

    /** buffer_skip_whitespace. */
    method SkipWhitespace()
      requires offset <= |content|
      modifies this`offset
      ensures offset == SkipWs(content, old(offset))
    {
      if offset >= |content| { return; }
      while offset < |content| && content[offset] as int <= 32
        invariant old(offset) <= offset <= |content| && WsEnd(content, offset) == WsEnd(content, old(offset))
        decreases |content| - offset
      {
        offset := offset + 1;
      }
      if offset == |content| { offset := offset - 1; }
    }

    /** The parse of a whole window; a tree with anything but white space behind it is given back
        when the end is required. */
    method ParseWhole(requireNullTerminated: bool) returns (ok: bool, c: Content)
      requires Ready() && offset == 0 && depth == 0
      modifies this`offset, this`depth, heap
      ensures Settled(ok, Blocks(c), Tree(c), Grammar.ParseWhole(content, requireNullTerminated))
    {
      hide SkipWs, Grammar.ParseValue, Heap.Valid, Blocks, Tree;
      if |content| > 4 && content[..3] == BOM { offset := 3; }
      SkipWhitespace();
      ok, c := ParseValue();
      if !ok || !requireNullTerminated { return; }
      SkipWhitespace();
      if content[offset] != '\0' {
        Within(old(heap.live), Blocks(c));
        DeleteContent(heap, c);
        ok := false;
      }
    }

    /** parse_number: at most 63 characters are copied. */
    method ParseNumber() returns (ok: bool, c: Content)
      requires Ready()
      modifies this`offset, heap
      ensures Settled(ok, Blocks(c), Tree(c), Grammar.ParseNumber(content, old(offset)))
    {
      hide Strtod, NumberText;
      c := Blank;
      var numberCString := CopyNumber(content, offset);
      var number := Strtod(numberCString);
      if number.Failed? { return false, c; }
      c := Leaf(Number(number.value));
      offset := offset + number.next;
      ok := true;
    }

    /** parse_string: measure, allocate, decode; the memory is given back when the decoding fails. */
    method ParseString() returns (ok: bool, chunk: Chunk)
      requires Ready()
      modifies this`offset, heap
      ensures Settled(ok, multiset{chunk.block}, chunk.text, Grammar.ParseString(content, old(offset)))
    {
      hide LiteralEnd, Decode, Pairs, CString, Heap.Valid;
      chunk := Chunk(0, "");
      var start := offset + 1;
      var closed, end, skipped := false, start, 0;
      if content[offset] == '\"' {
        closed, end, skipped := MeasureLiteral(content, start);
      }
      var granted, block := false, 0;
      if closed {
        granted, block := heap.Allocate();
      }
      if !granted {
        offset := start;
        return false, chunk;
      }
      var decoded, at, text := DecodeString(content, start, end, skipped);
      if !decoded {
        heap.Free(block);
        TakenBack(old(heap.live), block);
        offset := at;
        return false, chunk;
      }
      chunk := Chunk(block, text);
      offset := end + 1;
      ok := true;
    }

    /** parse_value. */
    method ParseValue() returns (ok: bool, c: Content)
      requires Ready()
      modifies this`offset, this`depth, heap
      ensures Settled(ok, Blocks(c), Tree(c), Grammar.ParseValue(content, old(offset), old(depth)))
      decreases |content| - offset, 4
    {
      hide Grammar.ParseString, Grammar.ParseNumber, Grammar.ParseArray, Grammar.ParseObject, Heap.Valid;
      c := Blank;
      if Reads(content, offset, "null") {
        ReadsInside(content, offset, "null");
        c, offset := Leaf(Null), offset + 4;
        return true, c;
      }
      if Reads(content, offset, "false") {
        ReadsInside(content, offset, "false");
        c, offset := Leaf(False), offset + 5;
        return true, c;
      }
      if Reads(content, offset, "true") {
        ReadsInside(content, offset, "true");
        c, offset := Leaf(True), offset + 4;
        return true, c;
      }
      if content[offset] == '\"' {
        var chunk;
        ok, chunk := ParseString();
        c := Words(chunk);
      } else if content[offset] == '-' || IsDigit(content[offset]) {
        ok, c := ParseNumber();
      } else if content[offset] == '[' {
        ok, c := ParseArray();
      } else if content[offset] == '{' {
        ok, c := ParseObject();
      } else {
        ok := false;
      }
    }

    /** parse_array. */
    method ParseArray() returns (ok: bool, c: Content)
      requires Ready() && offset < |content| - 1 && content[offset] == '['
      modifies this`offset, this`depth, heap
      ensures Settled(ok, Blocks(c), Tree(c), Grammar.ParseArray(content, old(offset), old(depth)))
      decreases |content| - offset, 3
    {
      hide SkipWs, ParseElems, Heap.Valid, Blocks, Tree, ListBlocks, Trees;
      c := Blank;
      if depth >= CJSON_NESTING_LIMIT { return false, c; }
      depth := depth + 1;
      offset := offset + 1;
      SkipWhitespace();
      if content[offset] == ']' {
        depth, offset, c := depth - 1, offset + 1, Elems([]);
        ElemsContent([]);
        return true, c;
      }
      offset := offset - 1;
      var items;
      ok, items := ParseElements();
      if !ok { return; }
      depth, c := depth - 1, Elems(items);
      ElemsContent(items);
    }

    /** One more item: its block is there unless memory was refused; it is whole on success. */
    twostate predicate Added<T>(ok: bool, added: seq<Item>, new expected: Parsed<T>)
      reads this, heap
    {
      heap.Valid() && offset <= |content| && (old(heap.refused) ==> heap.refused)
      && |added| <= 1 && heap.live == old(heap.live) + ListBlocks(added)
      && (if ok then |added| == 1 && depth == old(depth) && expected.Parsed? && expected.next == offset
          else heap.refused || expected == Failed(offset))
    }

    /** One round of the loop of parse_array. */
    method ParseElement() returns (ok: bool, added: seq<Item>)
      requires Ready() && offset < |content| - 1
      modifies this`offset, this`depth, heap
      ensures Added(ok, added, ParseElem(content, old(offset), old(depth)))
      ensures ok ==> Tree(added[0].content) == ParseElem(content, old(offset), old(depth)).value
      decreases |content| - offset, 1
    {
      hide ParseElem, Heap.Valid, Blocks, Tree;
      added := [];
      var granted, block := heap.Allocate();
      if !granted { return false, added; }
      var c;
      ok, c := ParseNext();
      added := [Item(block, None, if ok then c else Blank)];
      OneItem(added[0]);
      NothingOwned();
    }

    /** The value behind the current character, and the white space around it. */
    method ParseNext() returns (ok: bool, c: Content)
      requires Ready() && offset < |content| - 1
      modifies this`offset, this`depth, heap
      ensures Settled(ok, Blocks(c), Tree(c), ParseElem(content, old(offset), old(depth)))
      decreases |content| - offset, 0
    {
      hide SkipWs, Grammar.ParseValue, Heap.Valid, Blocks, Tree;
      offset := offset + 1;
      SkipWhitespace();
      ok, c := ParseValue();
      if ok { SkipWhitespace(); }
    }

    /** The items read so far are given back. */
    method Discard(items: seq<Item>, ghost before: multiset<nat>)
      requires heap.Valid() && heap.live == before + ListBlocks(items)
      modifies heap
      ensures heap.Valid() && heap.live == before && heap.refused == old(heap.refused)
    {
      hide Heap.Valid, ListBlocks;
      Within(before, ListBlocks(items));
      Delete(heap, items);
    }

    /** The loop of parse_array. */
    method ParseElements() returns (ok: bool, items: seq<Item>)
      requires Ready() && offset < |content| - 1
      modifies this`offset, this`depth, heap
      ensures Settled(ok, ListBlocks(items), Trees(items), ParseElems(content, old(offset), old(depth)))
      decreases |content| - offset, 2
    {
      hide ParseElem, ParseElems, Heap.Valid, ListBlocks, Trees;
      items := [];
      var more := true;
      ghost var expected := ParseElems(content, offset, depth);
      NoItems(expected);
      while more
        invariant Ready() && depth == old(depth) && (old(heap.refused) ==> heap.refused)
        invariant old(offset) <= offset && heap.live == old(heap.live) + ListBlocks(items)
        invariant more ==> offset < |content| - 1
                           && Behind(Trees(items), ParseElems(content, offset, depth)) == expected
        invariant !more ==> content[offset] != ','
        invariant !more ==>
                    expected == if content[offset] == ']' then Parsed(Trees(items), offset + 1) else Failed(offset)
        decreases |content| - offset, more
      {
        var added;
        ElemsRound(Trees(items), content, offset, depth);
        ok, added := ParseElement();
        AppendAll(items, added);
        MultisetAssoc(old(heap.live), ListBlocks(items), ListBlocks(added));
        items := items + added;
        if !ok {
          Discard(items, old(heap.live));
          return false, [];
        }
        more := content[offset] == ',';
      }
      if content[offset] != ']' {
        Discard(items, old(heap.live));
        return false, [];
      }
      offset := offset + 1;
      ok := true;
    }

    /** parse_object. */
    method ParseObject() returns (ok: bool, c: Content)
      requires Ready() && offset < |content| - 1 && content[offset] == '{'
      modifies this`offset, this`depth, heap
      ensures Settled(ok, Blocks(c), Tree(c), Grammar.ParseObject(content, old(offset), old(depth)))
      decreases |content| - offset, 3
    {
      hide SkipWs, ParseMembers, Heap.Valid, Blocks, Tree, ListBlocks, NamedTrees;
      c := Blank;
      if depth >= CJSON_NESTING_LIMIT { return false, c; }
      depth := depth + 1;
      offset := offset + 1;
      SkipWhitespace();
      if content[offset] == '}' {
        depth, offset, c := depth - 1, offset + 1, Fields([]);
        FieldsContent([]);
        return true, c;
      }
      offset := offset - 1;
      var items;
      ok, items := ParseFields();
      if !ok { return; }
      depth, c := depth - 1, Fields(items);
      FieldsContent(items);
    }

    /** The name of a member, and the colon behind it; the name is kept also when there is no colon. */
    method ParseName() returns (ok: bool, name: Option<Chunk>)
      requires Ready() && offset < |content| - 1
      modifies this`offset, heap
      ensures heap.Valid() && offset <= |content| && (old(heap.refused) ==> heap.refused)
      ensures heap.live == old(heap.live) + NameBlocks(name)
      ensures ok ==> name.Some? && Grammar.ParseName(content, old(offset)) == Parsed(name.value.text, offset)
      ensures !ok ==> heap.refused || Grammar.ParseName(content, old(offset)) == Failed(offset)
    {
      hide SkipWs, Grammar.ParseString, Heap.Valid;
      name := None;
      var chunk;
      offset := offset + 1;
      SkipWhitespace();
      ok, chunk := ParseString();
      if !ok { return; }
      SkipWhitespace();
      name := Some(chunk);
      ok := content[offset] == ':';
    }

    /** One round of the loop of parse_object. */
    method ParseField() returns (ok: bool, added: seq<Item>)
      requires Ready() && offset < |content| - 1
      modifies this`offset, this`depth, heap
      ensures Added(ok, added, ParseMember(content, old(offset), old(depth)))
      ensures ok ==> NamedTree(added[0]) == ParseMember(content, old(offset), old(depth)).value
      decreases |content| - offset, 1
    {
      hide ParseElem, Grammar.ParseName, Heap.Valid, Blocks, Tree, NameBlocks;
      added := [];
      var granted, block := heap.Allocate();
      if !granted { return false, added; }
      var name;
      var c := Blank;
      ok, name := ParseName();
      NothingOwned();
      if ok { ok, c := ParseNext(); }
      if !ok { c := Blank; }
      added := [Item(block, name, c)];
      OneItem(added[0]);
      ItemAdded(old(heap.live), added[0]);
    }

    /** The loop of parse_object. */
    method ParseFields() returns (ok: bool, items: seq<Item>)
      requires Ready() && offset < |content| - 1
      modifies this`offset, this`depth, heap
      ensures Settled(ok, ListBlocks(items), NamedTrees(items), ParseMembers(content, old(offset), old(depth)))
      decreases |content| - offset, 2
    {
      hide ParseMember, ParseMembers, Heap.Valid, ListBlocks, NamedTrees, NamedTree;
      items := [];
      var more := true;
      ghost var expected := ParseMembers(content, offset, depth);
      NoItems(expected);
      while more
        invariant Ready() && depth == old(depth) && (old(heap.refused) ==> heap.refused)
        invariant old(offset) <= offset && heap.live == old(heap.live) + ListBlocks(items)
        invariant more ==> offset < |content| - 1
                           && Behind(NamedTrees(items), ParseMembers(content, offset, depth)) == expected
        invariant !more ==> content[offset] != ','
        invariant !more ==>
                    expected == if content[offset] == '}' then Parsed(NamedTrees(items), offset + 1) else Failed(offset)
        decreases |content| - offset, more
      {
        var added;
        MembersRound(NamedTrees(items), content, offset, depth);
        ok, added := ParseField();
        AppendAll(items, added);
        MultisetAssoc(old(heap.live), ListBlocks(items), ListBlocks(added));
        items := items + added;
        if !ok {
          Discard(items, old(heap.live));
          return false, [];
        }
        more := content[offset] == ',';
      }
      if content[offset] != '}' {
        Discard(items, old(heap.live));
        return false, [];
      }
      offset := offset + 1;
      ok := true;
    }
  }

  function NameBlocks(name: Option<Chunk>): multiset<nat> {
    if name.Some? then multiset{name.value.block} else multiset{}
  }

  lemma ItemAdded(live: multiset<nat>, item: Item)
    ensures ((live + multiset{item.block}) + NameBlocks(item.name)) + Blocks(item.content) == live + ItemBlocks(item)
  {
  }

  lemma BareItem(live: multiset<nat>, block: nat, c: Content)
    ensures (live + multiset{block}) + Blocks(c) == live + ItemBlocks(Item(block, None, c))
  {
    hide Blocks;
  }

  lemma FieldsContent(items: seq<Item>)
    ensures Blocks(Fields(items)) == ListBlocks(items) && Tree(Fields(items)) == Object(NamedTrees(items))
    ensures items == [] ==> ListBlocks(items) == multiset{} && NamedTrees(items) == []
  {
  }

  lemma MembersRound(front: seq<Member<Json>>, s: Str, o: nat, d: nat)
    requires Window(s) && o < |s| - 1 && d <= CJSON_NESTING_LIMIT
    ensures var p := ParseMember(s, o, d);
            Behind(front, ParseMembers(s, o, d)) ==
            if p.Failed? then Failed(p.at)
            else if s[p.next] == ',' then Behind(front + [p.value], ParseMembers(s, p.next, d))
            else if s[p.next] == '}' then Parsed(front + [p.value], p.next + 1)
            else Failed(p.next)
  {
    hide ParseMember;
    var p := ParseMember(s, o, d);
    if p.Parsed? && s[p.next] == ',' { BehindBoth(front, [p.value], ParseMembers(s, p.next, d)); }
  }

  lemma ElemsContent(items: seq<Item>)
    ensures Blocks(Elems(items)) == ListBlocks(items) && Tree(Elems(items)) == Array(Trees(items))
    ensures items == [] ==> ListBlocks(items) == multiset{} && Trees(items) == []
  {
  }

  lemma NothingOwned()
    ensures Blocks(Blank) == multiset{}
  {
  }

  lemma Within(a: multiset<nat>, b: multiset<nat>)
    ensures b <= a + b && (a + b) - b == a
  {
  }

  lemma MultisetAssoc(a: multiset<nat>, b: multiset<nat>, c: multiset<nat>)
    ensures (a + b) + c == a + (b + c)
  {
  }

  lemma OneItem(item: Item)
    ensures ListBlocks([item]) == ItemBlocks(item)
  {
    assert [item][1..] == [];
  }

  lemma NoItems<T>(expected: Parsed<seq<T>>)
    ensures ListBlocks([]) == multiset{} && Trees([]) == [] && NamedTrees([]) == []
    ensures Behind([], expected) == expected
  {
    if expected.Parsed? { assert [] + expected.value == expected.value; }
  }

  lemma AppendAll(items: seq<Item>, added: seq<Item>)
    requires |added| <= 1
    ensures ListBlocks(items + added) == ListBlocks(items) + ListBlocks(added)
    ensures |added| == 1 ==> Trees(items + added) == Trees(items) + [Tree(added[0].content)]
    ensures |added| == 1 ==> NamedTrees(items + added) == NamedTrees(items) + [NamedTree(added[0])]
  {
    if added == [] {
      assert items + added == items;
    } else {
      assert added == [added[0]];
      OneItem(added[0]);
      ListBlocksAppend(items, added[0]);
      TreesAppend(items, added[0]);
    }
  }

  /** What one round of the grammar's loop does to the expectation. */
  lemma ElemsRound(front: seq<Json>, s: Str, o: nat, d: nat)
    requires Window(s) && o < |s| - 1 && d <= CJSON_NESTING_LIMIT
    ensures var p := ParseElem(s, o, d);
            Behind(front, ParseElems(s, o, d)) ==
            if p.Failed? then Failed(p.at)
            else if s[p.next] == ',' then Behind(front + [p.value], ParseElems(s, p.next, d))
            else if s[p.next] == ']' then Parsed(front + [p.value], p.next + 1)
            else Failed(p.next)
  {
    hide ParseElem;
    var p := ParseElem(s, o, d);
    if p.Parsed? && s[p.next] == ',' { BehindBoth(front, [p.value], ParseElems(s, p.next, d)); }
  }

  lemma BehindBoth<T>(a: seq<T>, b: seq<T>, p: Parsed<seq<T>>)
    ensures Behind(a, Behind(b, p)) == Behind(a + b, p)
  {
    if p.Parsed? { Assoc(a, b, p.value); }
  }

  /** The copying loop of parse_number. */
  method CopyNumber(content: Str, offset: nat) returns (numberCString: Str)
    requires offset <= |content|
    ensures numberCString == NumberText(content, offset, NUMBER_BUFFER - 1)
  {
    hide NumberText, IsNumberChar;
    var i := 0;
    numberCString := "";
    ghost var whole := NumberText(content, offset, NUMBER_BUFFER - 1);
    while i < NUMBER_BUFFER - 1 && offset + i < |content| && IsNumberChar(content[offset + i])
      invariant i <= NUMBER_BUFFER - 1 && offset + i <= |content|
      invariant numberCString + NumberText(content, offset + i, NUMBER_BUFFER - 1 - i) == whole
    {
      NumberStep(content, offset + i, NUMBER_BUFFER - 1 - i);
      Assoc(numberCString, [content[offset + i]], NumberText(content, offset + i + 1, NUMBER_BUFFER - 2 - i));
      numberCString := numberCString + [content[offset + i]];
      i := i + 1;
    }
    NumberStop(content, offset + i, NUMBER_BUFFER - 1 - i);
    assert numberCString + "" == numberCString;
  }

  /** The second pass of parse_string, in memory of the measured size. */
  method DecodeString(content: Str, start: nat, end: nat, skipped: nat) returns (ok: bool, at: nat, text: Str)
    requires start <= |content| && LiteralEnd(content, start) == Some(end) && skipped == Pairs(content, start, end)
    ensures ok <==> Decode(content, start, end).Accepted?
    ensures ok ==> text == CString(Decode(content, start, end).text)
    ensures !ok ==> at == Decode(content, start, end).at
  {
    hide LiteralEnd, Decode, Pairs;
    RoomGrows(content, start, start, end);
    NoPairs(content, start);
    var output := new char[end - (start - 1) - skipped + 1];
    var written;
    ok, at, written := DecodeLiteral(content, start, end, output);
    text := "";
    if ok { text := ReadBack(output, written); }
  }

  lemma TakenBack(live: multiset<nat>, block: nat)
    ensures (live + multiset{block}) - multiset{block} == live
  {
  }

  /** What a string in memory reads as: up to its first NUL. */
  method ReadBack(output: array<char>, ghost written: nat) returns (text: Str)
    requires written < output.Length && output[written] == '\0'
    ensures text == CString(output[..written])
  {
    var n := 0;
    while output[n] != '\0'
      invariant n <= written && '\0' !in output[..n]
      decreases written - n
    {
      n := n + 1;
    }
    text := output[..n];
    assert output[..written] == text + output[n..written];
    CStringParts(text, output[n..written]);
    assert CString(output[n..written]) == "" && text + "" == text;
  }

  lemma {:induction false} CStringParts(a: Str, b: Str)
    requires '\0' !in a
    ensures CString(a + b) == a + CString(b)
  {
    if a == "" {
      assert a + b == b;
    } else {
      DropHead(a, b);
      CStringParts(a[1..], b);
    }
  }

  lemma NumberStop(s: Str, o: nat, room: nat)
    requires o <= |s| && (room == 0 || o == |s| || !IsNumberChar(s[o]))
    ensures NumberText(s, o, room) == ""
  {
  }

  lemma NumberStep(s: Str, o: nat, room: nat)
    requires o < |s| && room > 0 && IsNumberChar(s[o])
    ensures NumberText(s, o, room) == [s[o]] + NumberText(s, o + 1, room - 1)
  {
  }

  /** cJSON_ParseWithOpts on a C string: the tree the grammar says, or its error position; after a failure
      nothing is left allocated, after a success exactly the blocks of the tree. */
  method ParseWithOpts(text: Str, requireNullTerminated: bool, heap: Heap) returns (item: Option<Item>, parseEnd: nat)
    requires heap.Valid() && !heap.refused
    modifies heap
    ensures heap.Valid()
    ensures item.Some? ==> heap.live == old(heap.live) + ItemBlocks(item.value)
                           && ParseText(text, requireNullTerminated) == Parsed(Tree(item.value.content), parseEnd)
    ensures item.None? ==> heap.live == old(heap.live)
                           && (heap.refused || ParseText(text, requireNullTerminated) == Failed(parseEnd))
  {
    hide Grammar.ParseWhole, Heap.Valid, Blocks, Tree, ItemBlocks;
    item, parseEnd := None, 0;
    var granted, block := heap.Allocate();
    if !granted { return; }
    var content := text + "\0";
    var buffer := new ParseBuffer(content, heap);
    var ok, c := buffer.ParseWhole(requireNullTerminated);
    if ok {
      item, parseEnd := Some(Item(block, None, c)), buffer.offset;
      BareItem(old(heap.live), block, c);
    } else {
      heap.Free(block);
      TakenBack(old(heap.live), block);
      parseEnd := Reported(content, buffer.offset);
    }
  }
}
