/** Sibling lists on the heap: the children of an item form a doubly linked list in which the
    first child's prev is the last child. Every operation is proved to be a sequence operation. */
module Siblings {
  import opened CStrings
  import opened SiblingLinks
  import opened JsonTrees

  /** A cJSON item. The list code never touches its name (`string` in the source) or its data, nor the memory it
      owns: a block for the item, and one each for its name and its text if it has them. */
  class Node {
    var next: Node?
    var prev: Node?
    var child: Node?
    const key: Str
    const data: Json
    const block: nat
    const nameBlock: Option<nat>
    const textBlock: Option<nat>
    ghost var kids: seq<Node>
    /** The items of the tree below and including this one, and the memory they own. */
    ghost var repr: set<Node>
    ghost var blocks: multiset<nat>

    constructor (key: Str, data: Json, block: nat, nameBlock: Option<nat>, textBlock: Option<nat>)
      ensures this.key == key && this.data == data
      ensures this.block == block && this.nameBlock == nameBlock && this.textBlock == textBlock
      ensures next == null && prev == null && child == null && kids == []
    {
      this.key, this.data, this.block, this.nameBlock, this.textBlock := key, data, block, nameBlock, textBlock;
      next, prev, child, kids := null, null, null, [];
    }

    /** The children of this item are the nodes of `kids`, correctly linked but for the way from the first child
        to the last, which may lead anywhere. */
    ghost predicate Holds(link: Link)
      reads this, kids
    {
      this !in kids && Distinct(kids) && Linked(child, kids) && (kids != [] ==> Leads(kids, link))
    }

    /** The children of this item are the nodes of `kids`, correctly linked. */
    ghost predicate Valid()
      reads this, kids
    {
      Holds(Right)
    }

    ghost function Siblings(link: Link): Chain<Node>
      reads this
    {
      Chain(kids, link)
    }

    /** get_array_item. */
    method GetArrayItem(index: nat) returns (item: Node?)
      requires Linked(child, kids)
      ensures item == if index < |kids| then kids[index] else null
    {
      item := child;
      ghost var at := 0;
      var left := index;
      while item != null && left > 0
        invariant at <= |kids| && at + left == index
        invariant item == if at < |kids| then kids[at] else null
      {
        left := left - 1;
        item := item.next;
        at := at + 1;
      }
    }

    /** cJSON_GetArraySize, before its result is cut down to an int. */
    method GetArraySize() returns (size: nat)
      requires Linked(child, kids)
      ensures size == |kids|
    {
      var item := child;
      size := 0;
      while item != null
        invariant size <= |kids|
        invariant item == if size < |kids| then kids[size] else null
        decreases |kids| - size
      {
        size := size + 1;
        item := item.next;
      }
    }

    /** add_item_to_array: append in constant time through the first child's prev. Without that link the item is
        lost, and with one to an earlier child the list is cut behind it; the call reports success all the same.
        The item must not lead anywhere: its next is not reset when the list has members. */
    method AddItemToArray(item: Node, ghost link: Link) returns (added: bool)
      requires Holds(link) && item !in kids && item.next == null && !Normal(link, |kids|).Gone?
      modifies this`child, this`kids, kids`next, kids`prev, item`next, item`prev
      ensures added <==> item != this
      ensures added && old(Normal(link, |kids|)).Right? ==> kids == old(kids) + [item]
      ensures var c := if added then Appended(old(Siblings(link)), item) else old(Siblings(link));
              kids == c.items && Holds(c.link)
    {
      hide LeadsTo, Distinct, Normal, Appended;
      if item == this { return false; }
      if Normal(link, |kids|).Right? { AppendedRight(Siblings(link), item); }
      if child == null {
        child := item;
        item.prev := item;
        item.next := null;
        kids := [item];
        AloneLeads(item, link);
        assert Holds(Right);
      } else if child.prev != null {
        ghost var at := LinkTarget(kids, child.prev, link);
        AppendedBehind(Siblings(link), at, item);
        SuffixObject(child.prev, item, at);
        FirstIsLone(kids);
        child.prev := item;
        LastLeads(kids);
        assert Holds(Right);
      } else {
        NowhereLeads(kids, link, item);
      }
      return true;
    }

    /** suffix_object: an item behind another one, which may be any of the children. */
    method SuffixObject(prev: Node, item: Node, ghost at: nat)
      requires this !in kids && Distinct(kids) && Linked(child, kids) && at < |kids| && prev == kids[at]
      requires item !in kids && item != this && item.next == null
      modifies this`kids, prev`next, item`prev
      ensures kids == old(kids)[..at + 1] + [item]
      ensures this !in kids && Distinct(kids) && Linked(child, kids)
    {
      prev.next := item;
      item.prev := prev;
      kids := kids[..at + 1] + [item];
    }

    /** cJSON_DetachItemViaPointer on the child at position `at`. */
    method DetachItemViaPointer(item: Node, ghost at: nat, ghost link: Link)
      requires Holds(link) && at < |kids| && kids[at] == item
      modifies this`child, this`kids, kids`next, kids`prev
      ensures var c := Detached(old(Siblings(link)), at); kids == c.items && Holds(c.link)
      ensures kids == old(kids)[..at] + old(kids)[at + 1..]
      ensures item.next == null && item.prev == null
    {
      hide LeadsTo, LinkWithout, RemoveAt, Distinct;
      ghost var was, target := kids, kids[0].prev;
      RemovedNodes(was, at);
      if item != child {
        item.prev.next := item.next;
      }
      if item.next != null {
        item.next.prev := item.prev;
      }
      if item == child {
        child := item.next;
      } else if item.next == null {
        child.prev := item.prev;
      }
      item.prev := null;
      item.next := null;
      kids := RemoveAt(was, at);
      assert Linked(child, kids);
      if kids != [] { DetachedLeads(was, target, at, link, kids); }
    }

    /** The linking part of cJSON_InsertItemInArray and insert_item_in_array: in front of a child. */
    method LinkBefore(after: Node, newItem: Node, ghost at: nat, ghost link: Link)
      requires Holds(link) && at < |kids| && kids[at] == after && newItem !in kids && newItem != this
      modifies this`child, this`kids, kids`next, kids`prev, newItem`next, newItem`prev
      ensures var c := Inserted(old(Siblings(link)), at, newItem); kids == c.items && (link.Gone? || Holds(c.link))
      ensures kids == old(kids)[..at] + [newItem] + old(kids)[at..]
    {
      hide LeadsTo, LinkWith, Distinct;
      ghost var was, target := kids, kids[0].prev;
      InsertedNodes(was, at, newItem);
      newItem.next := after;
      newItem.prev := after.prev;
      after.prev := newItem;
      if after == child {
        child := newItem;
      } else {
        newItem.prev.next := newItem;
      }
      kids := was[..at] + [newItem] + was[at..];
      assert Linked(child, kids);
      InsertedLeads(was, target, at, newItem, link, kids);
    }

    /** The relinking of cJSON_ReplaceItemViaPointer; the old item is left alone, for deletion. */
    method ReplaceItemViaPointer(item: Node, replacement: Node, ghost at: nat, ghost link: Link)
      requires Holds(link) && at < |kids| && kids[at] == item && replacement !in kids && replacement != this
      modifies this`child, this`kids, kids`next, kids`prev, replacement`next, replacement`prev
      ensures var c := Substituted(old(Siblings(link)), at, replacement);
              kids == c.items && (link.Gone? || Holds(c.link))
      ensures kids == old(kids)[at := replacement]
      ensures item.next == null && item.prev == null
    {
      hide LeadsTo, LinkReplaced, Distinct;
      ghost var was, target := kids, kids[0].prev;
      ReplacedNodes(was, at, replacement);
      replacement.next := item.next;
      replacement.prev := item.prev;
      if replacement.next != null {
        replacement.next.prev := replacement;
      }
      if child == item {
        if child.prev == child {
          replacement.prev := replacement;
        }
        child := replacement;
      } else {
        if replacement.prev != null {
          replacement.prev.next := replacement;
        }
        if replacement.next == null {
          child.prev := replacement;
        }
      }
      item.next := null;
      item.prev := null;
      kids := was[at := replacement];
      assert Linked(child, kids);
      ReplacedLeads(was, target, at, replacement, link, kids);
    }

    /** cJSON_DetachItemFromArray. */
    method DetachItemFromArray(which: int, ghost link: Link) returns (item: Node?)
      requires Holds(link)
      modifies this`child, this`kids, kids`next, kids`prev
      ensures var was := old(Siblings(link));
              var c := if 0 <= which < |was.items| then Detached(was, which) else was;
              kids == c.items && Holds(c.link)
      ensures item == if 0 <= which < |old(kids)| then old(kids)[which] else null
      ensures 0 <= which < |old(kids)| ==> kids == old(kids)[..which] + old(kids)[which + 1..]
      ensures item != null ==> item.next == null && item.prev == null
    {
      if which < 0 { return null; }
      item := GetArrayItem(which);
      if item != null {
        DetachItemViaPointer(item, which, link);
      }
    }

    /** cJSON_InsertItemInArray: appends when the position is beyond the end. */
    method InsertItemInArray(which: int, newItem: Node, ghost link: Link) returns (inserted: bool)
      requires Holds(link) && newItem !in kids && newItem != this && newItem.next == null && !Normal(link, |kids|).Gone?
      modifies this`child, this`kids, kids`next, kids`prev, newItem`next, newItem`prev
      ensures inserted <==> which >= 0
      ensures 0 <= which < |old(kids)| ==> kids == old(kids)[..which] + [newItem] + old(kids)[which..]
      ensures var c := if inserted then Inserted(old(Siblings(link)), which, newItem) else old(Siblings(link));
              kids == c.items && Holds(c.link)
      ensures !inserted ==> newItem.next == old(newItem.next)
    {
      if which < 0 { return false; }
      var after := GetArrayItem(which);
      if after == null {
        inserted := AddItemToArray(newItem, link);
        return;
      }
      if after != child && after.prev == null { return false; }
      LinkBefore(after, newItem, which, link);
      return true;
    }

    /** insert_item_in_array of the patch code: refuses a position beyond the end. */
    method InsertItemWithin(which: nat, newItem: Node, ghost link: Link) returns (inserted: bool)
      requires Holds(link) && newItem !in kids && newItem != this && newItem.next == null && !Normal(link, |kids|).Gone?
      modifies this`child, this`kids, kids`next, kids`prev, newItem`next, newItem`prev
      ensures inserted <==> which <= |old(kids)|
      ensures which < |old(kids)| ==> kids == old(kids)[..which] + [newItem] + old(kids)[which..]
      ensures var c := if inserted then Inserted(old(Siblings(link)), which, newItem) else old(Siblings(link));
              kids == c.items && Holds(c.link)
      ensures !inserted ==> newItem.next == old(newItem.next)
    {
      var item, left := child, which;
      ghost var at := 0;
      while item != null && left > 0
        invariant at <= |kids| && at + left == which
        invariant item == if at < |kids| then kids[at] else null
      {
        item, left, at := item.next, left - 1, at + 1;
      }
      if left > 0 { return false; }
      if item == null {
        inserted := AddItemToArray(newItem, link);
      } else {
        LinkBefore(item, newItem, which, link);
        inserted := true;
      }
    }

    /** cJSON_ReplaceItemInArray; the replaced item is left to be deleted. */
    method ReplaceItemInArray(which: int, newItem: Node, ghost link: Link) returns (replaced: bool)
      requires Holds(link) && newItem !in kids && newItem != this && !Normal(link, |kids|).Gone?
      modifies this`child, this`kids, kids`next, kids`prev, newItem`next, newItem`prev
      ensures replaced <==> 0 <= which < |old(kids)|
      ensures replaced ==> kids == old(kids)[which := newItem]
      ensures var c := if replaced then Substituted(old(Siblings(link)), which, newItem) else old(Siblings(link));
              kids == c.items && Holds(c.link)
      ensures replaced ==> old(kids)[which].next == null && old(kids)[which].prev == null
      ensures !replaced ==> newItem.next == old(newItem.next)
    {
      if which < 0 { return false; }
      var item := GetArrayItem(which);
      if item == null { return false; }
      ReplaceItemViaPointer(item, newItem, which, link);
      return true;
    }
  }

  ghost predicate Distinct(nodes: seq<Node>) {
    forall i, j | 0 <= i < j < |nodes| :: nodes[i] != nodes[j]
  }

  /** A chain of nodes from `head`: correct next links, and correct prev links inside. */
  ghost predicate Linked(head: Node?, nodes: seq<Node>)
    reads nodes
  {
    head == (if nodes == [] then null else nodes[0])
    && (nodes != [] ==> nodes[|nodes| - 1].next == null)
    && (forall i {:trigger nodes[i].next} | 0 <= i < |nodes| - 1 :: nodes[i].next == nodes[i + 1])
    && (forall i {:trigger nodes[i].prev} | 1 <= i < |nodes| :: nodes[i].prev == nodes[i - 1])
  }

  /** What a link leads to. */
  ghost predicate LeadsTo(nodes: seq<Node>, target: Node?, link: Link)
    requires nodes != []
  {
    match link
    case Right => target == nodes[|nodes| - 1]
    case Missing => target == null
    case To(i) => i < |nodes| && target == nodes[i]
    case Gone => target != null && target !in nodes
  }

  /** Where the prev of the first of some siblings leads. */
  ghost predicate Leads(nodes: seq<Node>, link: Link)
    requires nodes != []
    reads nodes
  {
    LeadsTo(nodes, nodes[0].prev, link)
  }

  ghost function LinkTarget(nodes: seq<Node>, target: Node, link: Link): (at: nat)
    requires nodes != [] && LeadsTo(nodes, target, link) && !Normal(link, |nodes|).Gone?
    ensures at < |nodes| && target == nodes[at]
    ensures Normal(link, |nodes|) == if at == |nodes| - 1 then Right else To(at)
  {
    match link
    case To(i) => i
    case _ => |nodes| - 1
  }

  lemma AloneLeads(item: Node, link: Link)
    ensures LeadsTo([item], item, Right) && Distinct([item])
    ensures Appended(Chain([], link), item) == Chain([item], Right)
  {
  }

  lemma AppendedRight(c: Chain<Node>, x: Node)
    requires Normal(c.link, |c.items|).Right?
    ensures Appended(c, x).items == c.items + [x]
  {
  }

  lemma AppendedBehind(c: Chain<Node>, at: nat, x: Node)
    requires at < |c.items| && Normal(c.link, |c.items|) == if at == |c.items| - 1 then Right else To(at)
    ensures Appended(c, x) == Chain(c.items[..at + 1] + [x], Right)
  {
  }

  lemma FirstIsLone(nodes: seq<Node>)
    requires nodes != [] && Distinct(nodes)
    ensures Lone(nodes, 0)
  {
  }

  lemma LastLeads(nodes: seq<Node>)
    requires nodes != []
    ensures LeadsTo(nodes, nodes[|nodes| - 1], Right)
  {
  }

  lemma NowhereLeads(nodes: seq<Node>, link: Link, x: Node)
    requires nodes != [] && LeadsTo(nodes, null, link)
    ensures link == Missing && Appended(Chain(nodes, link), x) == Chain(nodes, link)
  {
  }

  lemma RemovedNodes(was: seq<Node>, at: nat)
    requires at < |was| && Distinct(was)
    ensures var now := RemoveAt(was, at);
            |now| == |was| - 1 && Distinct(now)
            && (forall i | 0 <= i < |now| :: now[i] == was[if i < at then i else i + 1])
            && (forall n | n in now :: n in was)
    ensures Lone(was, at) && Lone(was, 0) && (at > 0 ==> Lone(was, at - 1)) && (at + 1 < |was| ==> Lone(was, at + 1))
  {
  }

  /** The node at a position is at no other one. */
  ghost predicate Lone(nodes: seq<Node>, at: nat)
    requires at < |nodes|
  {
    forall i | 0 <= i < |nodes| && i != at :: nodes[i] != nodes[at]
  }

  lemma InsertedNodes(was: seq<Node>, at: nat, x: Node)
    requires at < |was| && Distinct(was) && x !in was
    ensures var now := was[..at] + [x] + was[at..];
            |now| == |was| + 1 && Distinct(now) && now[at] == x && (forall i | 0 <= i < at :: now[i] == was[i])
            && (forall i | at < i < |now| :: now[i] == was[i - 1]) && forall n | n in now :: n == x || n in was
    ensures Lone(was, at) && Lone(was, 0) && (at > 0 ==> Lone(was, at - 1))
  {
  }

  lemma ReplacedNodes(was: seq<Node>, at: nat, x: Node)
    requires at < |was| && Distinct(was) && x !in was
    ensures Distinct(was[at := x]) && forall i | 0 <= i < |was| :: was[i] != x
    ensures Lone(was, at) && Lone(was, 0) && (at > 0 ==> Lone(was, at - 1)) && (at + 1 < |was| ==> Lone(was, at + 1))
  {
  }

  lemma DetachedLeads(was: seq<Node>, target: Node?, at: nat, link: Link, now: seq<Node>)
    requires at < |was| && Distinct(was) && LeadsTo(was, target, link) && now == RemoveAt(was, at) && now != []
    ensures LeadsTo(now, if at == |was| - 1 then now[|now| - 1] else target, LinkWithout(link, |was|, at))
  {
  }

  lemma InsertedLeads(was: seq<Node>, target: Node?, at: nat, x: Node, link: Link, now: seq<Node>)
    requires at < |was| && LeadsTo(was, target, link) && now == was[..at] + [x] + was[at..]
    ensures link.Gone? || LeadsTo(now, target, LinkWith(link, |was|, at))
  {
  }

  lemma ReplacedLeads(was: seq<Node>, target: Node?, at: nat, x: Node, link: Link, now: seq<Node>)
    requires at < |was| && Distinct(was) && x !in was && LeadsTo(was, target, link) && now == was[at := x]
    ensures var to := if at == 0 && target == was[0] then x else if at > 0 && at == |was| - 1 then x else target;
            link.Gone? || LeadsTo(now, to, LinkReplaced(link, |was|, at))
  {
  }
}
