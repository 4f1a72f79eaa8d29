/** Trees on the heap: what a node and everything below it stand for, deleting them, and duplicating them, which
    rebuilds the links that sorting leaves out. */
module Duplicating {
  import opened CStrings
  import opened SiblingLinks
  import opened JsonTrees
  import opened Sorting
  import opened Siblings
  import opened LinkedSort
  import Pointers
  import Parsing

  // ---------- what a node stands for ----------

  /** An item without its children. */
  function Bare(t: Json): Json {
    match t
    case Array(_) => Array([])
    case Object(_, _) => Object([])
    case _ => t
  }

  function LinkOf(t: Json): Link {
    if t.Object? then t.link else Right
  }

  function Taken(block: Option<nat>): multiset<nat> {
    if block.Some? then multiset{block.value} else multiset{}
  }

  /** The blocks of an item itself. */
  function Own(n: Node): multiset<nat> {
    multiset{n.block} + Taken(n.nameBlock) + Taken(n.textBlock)
  }

  ghost function BlocksOf(nodes: seq<Node>): multiset<nat>
    reads nodes`blocks
  {
    if nodes == [] then multiset{} else nodes[0].blocks + BlocksOf(nodes[1..])
  }

  /** The names of the children are those of the members. */
  predicate Named(nodes: seq<Node>, t: Json) {
    t.Object? ==> |nodes| == |t.members| && forall i | 0 <= i < |nodes| :: nodes[i].key == t.members[i].key
  }

  /** A node that stands for a tree, with all links between neighbours; `linked` says that the links from first
      to last children are as the tree has them, too. What is next to the node itself does not matter. */
  ghost predicate Stands(n: Node, t: Json, linked: bool)
    reads n`child, n`kids, n`repr, n`blocks, n.repr - {n}
    decreases t
  {
    var ts := Pointers.Kids(t);
    n in n.repr && n.data == Bare(t) && |n.kids| == |ts| && Named(n.kids, t)
    && (forall i | 0 <= i < |ts| :: n.kids[i] in n.repr - {n})
    && Distinct(n.kids) && Linked(n.child, n.kids) && (linked && n.kids != [] ==> Leads(n.kids, LinkOf(t)))
    && (forall i | 0 <= i < |ts| :: n.kids[i].repr <= n.repr - {n} && Stands(n.kids[i], ts[i], linked))
    && (forall i, k | 0 <= i < k < |ts| :: n.kids[i].repr !! n.kids[k].repr)
    && n.blocks == Own(n) + BlocksOf(n.kids)
  }

  lemma StandsParts(n: Node, t: Json, linked: bool)
    requires Stands(n, t, linked)
    ensures var ts := Pointers.Kids(t);
            |n.kids| == |ts| && Distinct(n.kids) && Linked(n.child, n.kids) && n.data == Bare(t) && Named(n.kids, t)
            && (forall i | 0 <= i < |ts| :: Stands(n.kids[i], ts[i], linked))
            && n.blocks == Own(n) + BlocksOf(n.kids)
  {
  }

  // ---------- cJSON_Delete ----------

  method FreeBlock(heap: Parsing.Heap, block: Option<nat>)
    requires heap.Valid() && Taken(block) <= heap.live
    modifies heap
    ensures heap.Valid() && heap.live == old(heap.live) - Taken(block) && heap.refused == old(heap.refused)
  {
    if block.Some? {
      assert block.value in Taken(block);
      heap.Free(block.value);
    }
  }

  /** Free what an item owns itself: its text, its name and the item. */
  method FreeOwn(heap: Parsing.Heap, n: Node)
    requires heap.Valid() && Own(n) <= heap.live
    modifies heap
    ensures heap.Valid() && heap.live == old(heap.live) - Own(n) && heap.refused == old(heap.refused)
  {
    hide Parsing.Heap.Valid, Taken;
    OwnParts(n);
    PartOf(Taken(n.textBlock), Taken(n.nameBlock), Taken(Some(n.block)), heap.live);
    FreeBlock(heap, n.textBlock);
    FreeBlock(heap, n.nameBlock);
    FreeBlock(heap, Some(n.block));
  }

  lemma OwnParts(n: Node)
    ensures Own(n) == Taken(n.textBlock) + Taken(n.nameBlock) + Taken(Some(n.block))
  {
  }

  /** Where a chain leads from its head and from each of its nodes. */
  lemma ChainAt(head: Node?, nodes: seq<Node>, i: nat)
    requires Linked(head, nodes) && i <= |nodes|
    ensures (if i == 0 then head else nodes[i - 1].next) == if i < |nodes| then nodes[i] else null
  {
  }

  lemma NoBlocks(nodes: seq<Node>)
    requires Linked(null, nodes) || nodes == []
    ensures BlocksOf(nodes) == multiset{}
  {
  }

  lemma BlocksHead(nodes: seq<Node>)
    requires nodes != []
    ensures BlocksOf(nodes) == nodes[0].blocks + BlocksOf(nodes[1..])
  {
  }

  lemma Peel(kept: multiset<nat>, first: multiset<nat>, rest: multiset<nat>)
    ensures first <= kept + (first + rest) && kept + (first + rest) - first == kept + rest
  {
  }

  lemma BlocksBelow(kept: multiset<nat>, below: multiset<nat>, own: multiset<nat>, all: multiset<nat>,
                    live: multiset<nat>)
    requires all == own + below && all <= live && kept == live - all
    ensures below <= live && live - below == kept + own && own <= kept + own && kept + own - own == kept
  {
  }

  lemma PartOf(a: multiset<nat>, b: multiset<nat>, c: multiset<nat>, live: multiset<nat>)
    requires a + b + c <= live
    ensures a <= live && b <= live - a && c <= live - a - b && live - a - b - c == live - (a + b + c)
  {
  }

  /** cJSON_Delete on a chain of siblings: every block of every tree in it is freed, and freed once. Only the links
      to the right and down are followed. */
  method DeleteNodes(heap: Parsing.Heap, item: Node?, ghost nodes: seq<Node>, ghost ts: seq<Json>, ghost owner: Json)
    requires heap.Valid() && Linked(item, nodes) && |ts| == |nodes| && BlocksOf(nodes) <= heap.live
    requires forall i | 0 <= i < |nodes| :: ts[i] < owner && Stands(nodes[i], ts[i], false)
    modifies heap
    ensures heap.Valid() && heap.live == old(heap.live) - BlocksOf(nodes) && heap.refused == old(heap.refused)
    decreases owner, 0
  {
    hide *;
    var current := item;
    ghost var i, kept := 0, heap.live - BlocksOf(nodes);
    assert nodes[0..] == nodes;
    ChainAt(item, nodes, 0);
    while current != null
      invariant i <= |nodes| && current == if i < |nodes| then nodes[i] else null
      invariant heap.Valid() && heap.refused == old(heap.refused)
      invariant heap.live == kept + BlocksOf(nodes[i..])
      decreases |nodes| - i
    {
      var next := current.next;
      assert nodes[i..][0] == nodes[i] && nodes[i..][1..] == nodes[i + 1..];
      ChainAt(item, nodes, i + 1);
      BlocksHead(nodes[i..]);
      Peel(kept, current.blocks, BlocksOf(nodes[i + 1..]));
      DeleteNode(heap, current, ts[i]);
      current, i := next, i + 1;
    }
    assert nodes[i..] == [];
    NoBlocks(nodes[i..]);
  }

  /** One round: the children first, then what the item owns itself. */
  method DeleteNode(heap: Parsing.Heap, item: Node, ghost t: Json)
    requires heap.Valid() && Stands(item, t, false) && item.blocks <= heap.live
    modifies heap
    ensures heap.Valid() && heap.live == old(heap.live) - item.blocks && heap.refused == old(heap.refused)
    decreases t, 1
  {
    hide *;
    StandsParts(item, t, false);
    ghost var kept, below, own := heap.live - item.blocks, BlocksOf(item.kids), Own(item);
    BlocksBelow(kept, below, own, item.blocks, heap.live);
    if item.child != null {
      DeleteNodes(heap, item.child, item.kids, Pointers.Kids(t), t);
    } else {
      NoBlocks(item.kids);
    }
    assert heap.live == kept + own;
    FreeOwn(heap, item);
  }

  // ---------- cJSON_Duplicate ----------

  /** Memory for a copy of a string, if there is one. */
  method CopyBlock(heap: Parsing.Heap, original: Option<nat>) returns (ok: bool, copy: Option<nat>)
    requires heap.Valid()
    modifies heap
    ensures heap.Valid() && (old(heap.refused) ==> heap.refused)
    ensures heap.live == old(heap.live) + Taken(copy)
    ensures if ok then copy.Some? <==> original.Some? else copy == None && heap.refused
  {
    hide Parsing.Heap.Valid;
    if original.None? { return true, None; }
    var granted, block := heap.Allocate();
    if !granted { return false, None; }
    return true, Some(block);
  }

  /** A new item with copies of the name and the text, or none when memory is refused. */
  method CopyItem(heap: Parsing.Heap, item: Node) returns (newItem: Node?)
    requires heap.Valid()
    modifies heap
    ensures heap.Valid() && (old(heap.refused) ==> heap.refused)
    ensures newItem == null ==> heap.live == old(heap.live) && heap.refused
    ensures newItem != null ==>
              fresh(newItem) && newItem.key == item.key && newItem.data == item.data
              && heap.live == old(heap.live) + Own(newItem)
              && newItem.next == null && newItem.prev == null && newItem.child == null
  {
    hide Parsing.Heap.Valid, Taken, Own;
    ghost var base := heap.live;
    var ok, block := CopyBlock(heap, Some(item.block));
    if !ok {
      NothingTaken(base);
      return null;
    }
    var text, name: Option<nat>;
    ok, text := CopyBlock(heap, item.textBlock);
    if !ok {
      BackAgain(base, Taken(block));
      NothingTaken(base + Taken(block));
      FreeBlock(heap, block);
      return null;
    }
    ok, name := CopyBlock(heap, item.nameBlock);
    if !ok {
      BackAgain(base, Taken(block));
      BackAgain(base + Taken(block), Taken(text));
      NothingTaken(base + Taken(block) + Taken(text));
      FreeBlock(heap, text);
      FreeBlock(heap, block);
      return null;
    }
    newItem := new Node(item.key, item.data, block.value, name, text);
    AllTaken(base, newItem);
  }

  lemma NothingTaken(base: multiset<nat>)
    ensures base + Taken(None) == base
  {
  }

  lemma BackAgain(base: multiset<nat>, taken: multiset<nat>)
    ensures taken <= base + taken && base + taken - taken == base
  {
  }

  lemma AllTaken(base: multiset<nat>, n: Node)
    ensures base + Taken(Some(n.block)) + Taken(n.textBlock) + Taken(n.nameBlock) == base + Own(n)
  {
  }

  /** Stronger knowledge of the links implies weaker. */
  lemma {:induction false} StandsAnyhow(n: Node, t: Json)
    requires Stands(n, t, true)
    ensures Stands(n, t, false)
    decreases t
  {
    hide Leads, Named, Bare, Linked, Distinct;
    var ts := Pointers.Kids(t);
    forall i | 0 <= i < |ts| ensures Stands(n.kids[i], ts[i], false) { StandsAnyhow(n.kids[i], ts[i]); }
  }

  lemma {:induction false} BlocksAppend(nodes: seq<Node>, n: Node)
    ensures BlocksOf(nodes + [n]) == BlocksOf(nodes) + n.blocks
  {
    if nodes == [] {
      assert nodes + [n] == [n] && [n][1..] == [];
    } else {
      DropHead(nodes, [n]);
      BlocksAppend(nodes[1..], n);
    }
  }

  lemma RelinkedKids(t: Json)
    ensures var ks, rs := Pointers.Kids(t), Pointers.Kids(Relinked(t));
            |rs| == |ks| && (forall i | 0 <= i < |ks| :: rs[i] == Relinked(ks[i])) && LinkOf(Relinked(t)).Right?
            && Bare(Relinked(t)) == Bare(t)
  {
  }

  /** No two of some trees share a node. */
  ghost predicate Disjoint(nodes: seq<Node>)
    reads nodes`repr
  {
    forall i, k | 0 <= i < k < |nodes| :: nodes[i].repr !! nodes[k].repr
  }

  /** The loop over the children: copies of the first of them hang below the new item, the first one without a
      way to the last. */
  ghost predicate Copying(parent: Node, last: Node?, copies: seq<Node>, rs: seq<Json>)
    reads parent`child, copies, set n, m | n in copies && m in n.repr :: m
  {
    |copies| <= |rs| && Distinct(copies) && parent !in copies && Linked(parent.child, copies) && Disjoint(copies)
    && last == (if copies == [] then null else copies[|copies| - 1]) && (copies != [] ==> copies[0].prev == null)
    && forall i | 0 <= i < |copies| ::
         copies[i] in copies[i].repr && parent !in copies[i].repr && Stands(copies[i], rs[i], true)
  }

  lemma CopyingNone(parent: Node, rs: seq<Json>)
    requires parent.child == null
    ensures Copying(parent, null, [], rs) && BlocksOf([]) == multiset{}
  {
  }

  /** What a node stands for does not depend on its own place among its siblings. */
  twostate lemma StandStill(p: (Node, Json))
    requires old(Stands(p.0, p.1, true))
    requires unchanged(p.0`child, p.0`kids, p.0`repr, p.0`blocks)
             && forall m | m in old(p.0.repr) - {p.0} :: unchanged(m)
    ensures Stands(p.0, p.1, true)
  {
  }

  /** The links of one more copy behind the last one. */
  method Crosswire(parent: Node, last: Node?, newChild: Node, ghost copies: seq<Node>)
    requires Distinct(copies) && parent !in copies && newChild !in copies && newChild != parent
    requires Linked(parent.child, copies) && last == if copies == [] then null else copies[|copies| - 1]
    requires newChild.next == null && newChild.prev == null && (copies != [] ==> copies[0].prev == null)
    modifies parent`child, copies`next, newChild`prev
    ensures Linked(parent.child, copies + [newChild]) && Distinct(copies + [newChild])
    ensures (copies + [newChild])[0].prev == null
    ensures forall n | n in copies && n != last :: unchanged(n)
  {
    if last != null {
      last.next := newChild;
      newChild.prev := last;
    } else {
      parent.child := newChild;
    }
  }

  lemma Unchanged(parent: Node, last: Node?, newChild: Node, copies: seq<Node>, rs: seq<Json>)
    requires Copying(parent, last, copies, rs)
    requires newChild in newChild.repr && parent !in newChild.repr
             && forall i | 0 <= i < |copies| :: copies[i].repr !! newChild.repr
    ensures forall n | n in copies + [newChild] ::
              parent !in n.repr - {n} && newChild !in n.repr - {n} && last !in n.repr - {n}
    ensures Distinct(copies) && parent !in copies && newChild !in copies && newChild != parent
            && Linked(parent.child, copies)
    ensures last == (if copies == [] then null else copies[|copies| - 1]) && (copies != [] ==> copies[0].prev == null)
    ensures Disjoint(copies + [newChild])
    ensures forall i | 0 <= i < |copies| ::
              copies[i] in copies[i].repr && parent !in copies[i].repr && Stands(copies[i], rs[i], true)
  {
    hide Stands, Linked, Distinct;
    forall i | 0 <= i < |copies| ensures newChild != copies[i] { assert copies[i] in copies[i].repr; }
  }

  lemma OneMore(parent: Node, all: seq<Node>, rs: seq<Json>)
    requires 0 < |all| <= |rs| && Distinct(all) && parent !in all && Linked(parent.child, all) && Disjoint(all)
    requires all[0].prev == null
    requires forall i | 0 <= i < |all| :: all[i] in all[i].repr && parent !in all[i].repr && Stands(all[i], rs[i], true)
    ensures Copying(parent, all[|all| - 1], all, rs)
  {
    hide Stands, Linked, Distinct, Disjoint;
  }

  /** One more copy, seen from the trees. */
  method Attach(parent: Node, last: Node?, newChild: Node, ghost copies: seq<Node>, ghost rs: seq<Json>)
    requires Copying(parent, last, copies, rs) && |copies| < |rs|
    requires Stands(newChild, rs[|copies|], true) && newChild in newChild.repr && parent !in newChild.repr
    requires forall i | 0 <= i < |copies| :: copies[i].repr !! newChild.repr
    requires newChild.next == null && newChild.prev == null
    modifies parent`child, copies`next, newChild`prev
    ensures Copying(parent, newChild, copies + [newChild], rs)
    ensures BlocksOf(copies + [newChild]) == old(BlocksOf(copies)) + newChild.blocks
  {
    hide *;
    ghost var all := copies + [newChild];
    BlocksAppend(copies, newChild);
    Unchanged(parent, last, newChild, copies, rs);
    Crosswire(parent, last, newChild, copies);
    forall i | 0 <= i < |all| ensures Stands(all[i], rs[i], true) {
      assert all[i] in all;
      forall m | m in old(all[i].repr) - {all[i]} ensures unchanged(m) {
        assert m != parent && m != newChild && m != last;
        assert m in copies ==> unchanged(m);
        assert m.next == old(m.next) && m.prev == old(m.prev) && m.child == old(m.child);
      }
      StandStill((all[i], rs[i]));
    }
    OneMore(parent, all, rs);
  }

  /** What the loop has made. */
  lemma CopyingParts(parent: Node, last: Node?, copies: seq<Node>, rs: seq<Json>)
    requires Copying(parent, last, copies, rs)
    ensures |copies| <= |rs| && Distinct(copies) && parent !in copies && Linked(parent.child, copies)
            && Disjoint(copies)
    ensures parent.child == if copies == [] then null else copies[0]
    ensures last == if copies == [] then null else copies[|copies| - 1]
    ensures forall i | 0 <= i < |copies| ::
              copies[i] in copies[i].repr && parent !in copies[i].repr && Stands(copies[i], rs[i], true)
              && (copies != [] ==> copies[0] !in copies[i].repr - {copies[i]})
  {
    hide Stands;
  }

  /** The end of the loop: the first copy leads to the last. */
  method CloseRing(parent: Node, last: Node?, ghost copies: seq<Node>, ghost rs: seq<Json>)
    requires Copying(parent, last, copies, rs)
    modifies copies`prev
    ensures Distinct(copies) && parent !in copies && Linked(parent.child, copies) && Disjoint(copies)
    ensures copies != [] ==> Leads(copies, Right)
    ensures forall i | 0 <= i < |copies| ::
              copies[i] in copies[i].repr && parent !in copies[i].repr && Stands(copies[i], rs[i], true)
  {
    hide *;
    CopyingParts(parent, last, copies, rs);
    if parent.child != null {
      parent.child.prev := last;
      RingLinks(copies);
      forall i | 0 <= i < |copies| ensures Stands(copies[i], rs[i], true) {
        forall m | m in old(copies[i].repr) - {copies[i]} ensures unchanged(m) {
          assert m != copies[0];
          assert m.prev == old(m.prev);
        }
        StandStill((copies[i], rs[i]));
      }
    }
  }

  /** The links between neighbours do not depend on the way from the first to the last. */
  twostate lemma RingLinks(copies: seq<Node>)
    requires copies != [] && old(Linked(copies[0], copies)) && Distinct(copies)
    requires forall n | n in copies :: n.next == old(n.next) && (n != copies[0] ==> n.prev == old(n.prev))
    requires copies[0].prev == copies[|copies| - 1]
    ensures Linked(copies[0], copies) && Leads(copies, Right)
  {
  }

  lemma Standing(n: Node, t: Json)
    requires var ts := Pointers.Kids(t);
             n in n.repr && n.data == Bare(t) && |n.kids| == |ts| && Named(n.kids, t)
             && (forall i | 0 <= i < |ts| :: n.kids[i] in n.repr - {n})
             && Distinct(n.kids) && Linked(n.child, n.kids) && (n.kids != [] ==> Leads(n.kids, LinkOf(t)))
             && (forall i | 0 <= i < |ts| :: n.kids[i].repr <= n.repr - {n} && Stands(n.kids[i], ts[i], true))
             && Disjoint(n.kids) && n.blocks == Own(n) + BlocksOf(n.kids)
    ensures Stands(n, t, true)
  {
  }

  ghost function Nodes(copies: seq<Node>): set<Node>
    reads copies`repr
  {
    set c, n | c in copies && n in c.repr :: n
  }

  lemma NodesHold(copies: seq<Node>, i: nat)
    requires i < |copies|
    ensures copies[i].repr <= Nodes(copies)
  {
    assert copies[i] in copies;
  }

  lemma NodeOf(copies: seq<Node>, n: Node) returns (i: nat)
    requires n in Nodes(copies)
    ensures i < |copies| && n in copies[i].repr
  {
    var c :| c in copies && n in c.repr;
    i :| 0 <= i < |copies| && copies[i] == c;
  }

  /** The copies become the children. */
  ghost method Adopt(newItem: Node, copies: seq<Node>, t: Json)
    requires Distinct(copies) && newItem !in copies && Linked(newItem.child, copies) && Disjoint(copies)
    requires copies != [] ==> Leads(copies, Right)
    requires LinkOf(t).Right? && newItem.data == Bare(t) && |copies| == |Pointers.Kids(t)| && Named(copies, t)
    requires forall i | 0 <= i < |copies| ::
               copies[i] in copies[i].repr && newItem !in copies[i].repr && Stands(copies[i], Pointers.Kids(t)[i], true)
    modifies newItem`kids, newItem`repr, newItem`blocks
    ensures Stands(newItem, t, true) && newItem.repr == {newItem} + Nodes(copies)
    ensures newItem.blocks == Own(newItem) + BlocksOf(copies)
  {
    hide *;
    newItem.kids := copies;
    newItem.repr := {newItem} + Nodes(copies);
    newItem.blocks := Own(newItem) + BlocksOf(copies);
    forall i | 0 <= i < |copies| ensures Stands(copies[i], Pointers.Kids(t)[i], true) {
      forall m | m in old(copies[i].repr) - {copies[i]} ensures unchanged(m) { assert m != newItem; }
      StandStill((copies[i], Pointers.Kids(t)[i]));
    }
    forall i | 0 <= i < |copies| ensures copies[i].repr <= newItem.repr - {newItem} { NodesHold(copies, i); }
    Standing(newItem, t);
  }

  lemma SameNames(nodes: seq<Node>, copies: seq<Node>, t: Json)
    requires Named(nodes, t) && |copies| == |nodes| && forall i | 0 <= i < |copies| :: copies[i].key == nodes[i].key
    ensures Named(copies, Relinked(t))
  {
  }

  lemma GivenBack(base: multiset<nat>, own: multiset<nat>, below: multiset<nat>)
    ensures below <= base + own + below && base + own + below - below == base + own
    ensures own <= base + own && base + own - own == base
  {
  }

  lemma SumAssoc(base: multiset<nat>, a: multiset<nat>, b: multiset<nat>)
    ensures base + a + b == base + (a + b)
  {
  }

  /** cJSON_Delete of an item whose copies do not hang all below it yet. */
  method GiveBack(heap: Parsing.Heap, newItem: Node, last: Node?, ghost copies: seq<Node>, ghost t: Json,
                  ghost base: multiset<nat>)
    requires heap.Valid() && Copying(newItem, last, copies, Pointers.Kids(t))
    requires heap.live == base + Own(newItem) + BlocksOf(copies)
    modifies heap
    ensures heap.Valid() && heap.live == base && heap.refused == old(heap.refused)
  {
    hide *;
    ghost var rs := Pointers.Kids(t);
    CopyingParts(newItem, last, copies, rs);
    forall i | 0 <= i < |copies| ensures Stands(copies[i], rs[i], false) { StandsAnyhow(copies[i], rs[i]); }
    GivenBack(base, Own(newItem), BlocksOf(copies));
    DeleteNodes(heap, newItem.child, copies, rs[..|copies|], t);
    FreeOwn(heap, newItem);
  }

  /** One round of the loop over the children. */
  method DuplicateChild(heap: Parsing.Heap, item: Node, child: Node, newItem: Node, last: Node?,
                        ghost copies: seq<Node>, ghost t: Json, ghost rs: seq<Json>)
    returns (newChild: Node?, ghost grown: seq<Node>)
    requires heap.Valid() && Stands(item, t, false) && newItem !in item.repr && newItem != item
    requires |copies| < |item.kids| && child == item.kids[|copies|]
    requires rs == Pointers.Kids(Relinked(t)) && Copying(newItem, last, copies, rs)
    requires forall i | 0 <= i < |copies| :: copies[i] != item && copies[i] !in item.repr
    modifies heap, newItem`child, copies`next
    ensures heap.Valid() && (old(heap.refused) ==> heap.refused) && Stands(item, t, false)
    ensures newChild == null ==> heap.refused && grown == copies
    ensures newChild != null ==>
              copies <= grown && |grown| == |copies| + 1 && grown[|copies|] == newChild
              && newChild in newChild.repr && fresh(newChild.repr) && newChild.key == child.key
    ensures Copying(newItem, if newChild == null then last else newChild, grown, rs)
    ensures heap.live + old(BlocksOf(copies)) == old(heap.live) + BlocksOf(grown)
    decreases t, 0
  {
    hide *;
    grown := copies;
    StandsParts(item, t, false);
    RelinkedKids(t);
    CopyingParts(newItem, last, copies, rs);
    newChild := Duplicate(heap, child, Pointers.Kids(t)[|copies|]);
    if newChild == null { return; }
    grown := copies + [newChild];
    Attach(newItem, last, newChild, copies, rs);
  }

  lemma Moved(live: multiset<nat>, done: multiset<nat>, base: multiset<nat>, all: multiset<nat>)
    requires live + done == base + done + all
    ensures live == base + all
  {
    forall b ensures live[b] == (base + all)[b] {
      assert (live + done)[b] == (base + done + all)[b];
    }
  }

  /** The loop over the children, as far as memory is granted. */
  method DuplicateChildren(heap: Parsing.Heap, item: Node, newItem: Node, ghost t: Json)
    returns (ok: bool, last: Node?, ghost copies: seq<Node>)
    requires heap.Valid() && Stands(item, t, false) && newItem.child == null && newItem !in item.repr && newItem != item
    modifies heap, newItem`child
    ensures heap.Valid() && (old(heap.refused) ==> heap.refused) && (!ok ==> heap.refused)
    ensures Copying(newItem, last, copies, Pointers.Kids(Relinked(t))) && heap.live == old(heap.live) + BlocksOf(copies)
    ensures ok ==> |copies| == |item.kids|
    ensures |copies| <= |item.kids| && forall i | 0 <= i < |copies| ::
              copies[i] in copies[i].repr && fresh(copies[i].repr) && copies[i].key == item.kids[i].key
    decreases t, 1
  {
    hide *;
    ghost var base, rs := heap.live, Pointers.Kids(Relinked(t));
    StandsParts(item, t, false);
    RelinkedKids(t);
    var child: Node? := item.child;
    last, copies, ok := null, [], true;
    ChainAt(child, item.kids, 0);
    CopyingNone(newItem, rs);
    while child != null && ok
      invariant |copies| <= |item.kids| && child == if |copies| < |item.kids| then item.kids[|copies|] else null
      invariant Stands(item, t, false) && Copying(newItem, last, copies, rs) && |copies| <= |rs|
      invariant forall i | 0 <= i < |copies| ::
                  copies[i] in copies[i].repr && fresh(copies[i].repr) && copies[i].key == item.kids[i].key
      invariant heap.Valid() && (old(heap.refused) ==> heap.refused) && heap.live == base + BlocksOf(copies)
      invariant !ok ==> heap.refused
      decreases |item.kids| - |copies|, ok
    {
      ghost var grown, done := [], BlocksOf(copies);
      var newChild;
      newChild, grown := DuplicateChild(heap, item, child, newItem, last, copies, t, rs);
      Moved(heap.live, done, base, BlocksOf(grown));
      copies := grown;
      if newChild == null {
        ok := false;
      } else {
        StandsParts(item, t, false);
        ChainAt(item.child, item.kids, |copies|);
        last, child := newChild, child.next;
      }
    }
  }

  /** cJSON_Duplicate of a tree whose links to last children may be anything: a new tree with all of them right, or
      none, with the heap as it was, when memory is refused. */
  method Duplicate(heap: Parsing.Heap, item: Node, ghost t: Json) returns (newItem: Node?)
    requires heap.Valid() && Stands(item, t, false)
    modifies heap
    ensures heap.Valid() && (old(heap.refused) ==> heap.refused)
    ensures newItem == null ==> heap.live == old(heap.live) && heap.refused
    ensures newItem != null ==>
              fresh(newItem.repr) && Stands(newItem, Relinked(t), true) && newItem in newItem.repr
              && newItem.key == item.key
              && newItem.next == null && newItem.prev == null && heap.live == old(heap.live) + newItem.blocks
    decreases t, 2
  {
    hide *;
    ghost var base, rs := heap.live, Pointers.Kids(Relinked(t));
    StandsParts(item, t, false);
    RelinkedKids(t);
    newItem := CopyItem(heap, item);
    if newItem == null { return; }
    SumAssoc(base, Own(newItem), multiset{});
    var ok, last;
    ghost var copies;
    ok, last, copies := DuplicateChildren(heap, item, newItem, t);
    if !ok {
      GiveBack(heap, newItem, last, copies, Relinked(t), base);
      return null;
    }
    CloseRing(newItem, last, copies, rs);
    SameNames(item.kids, copies, t);
    Adopt(newItem, copies, Relinked(t));
    SumAssoc(base, Own(newItem), BlocksOf(copies));
    forall n | n in newItem.repr ensures fresh(n) {
      if n != newItem { var i := NodeOf(copies, n); }
    }
  }
}
