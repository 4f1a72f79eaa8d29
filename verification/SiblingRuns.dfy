/** Any sequence of calls on the children of an item: append, insert, detach, replace and sort, on a list whose link
    from the first child to the last may be broken. */
module SiblingRuns {
  import opened CStrings
  import opened JsonTrees
  import opened SiblingLinks
  import opened Siblings
  import opened Sorting
  import opened LinkedSort

  datatype ListOp =
    | Append(item: Node)
    | InsertAt(which: int, item: Node)
    | InsertWithin(position: nat, item: Node)
    | DetachAt(which: int)
    | ReplaceAt(which: int, item: Node)
    | SortBy(caseSensitive: bool)

  /** What a call makes of the children and their link. */
  function After(c: Chain<Node>, op: ListOp): Chain<Node> {
    match op
    case Append(x) => Appended(c, x)
    case InsertAt(k, x) => if k < 0 then c else Inserted(c, k, x)
    case InsertWithin(k, x) => if k > |c.items| then c else Inserted(c, k, x)
    case DetachAt(k) => if 0 <= k < |c.items| then Detached(c, k) else c
    case ReplaceAt(k, x) => if 0 <= k < |c.items| then Substituted(c, k, x) else c
    case SortBy(cs) => SortedChain(c, cs)
  }

  function AfterAll(c: Chain<Node>, ops: seq<ListOp>): Chain<Node>
    decreases |ops|
  {
    if ops == [] then c else AfterAll(After(c, ops[0]), ops[1..])
  }

  predicate Adds(op: ListOp) {
    !op.DetachAt? && !op.SortBy?
  }

  /** The items that are in no list after a call: the one that is added is handed over, also when it is lost, and
      the one that is taken out is free. What an append cuts off is not. */
  function FreeAfter(c: Chain<Node>, free: set<Node>, op: ListOp): set<Node> {
    match op
    case DetachAt(k) => if 0 <= k < |c.items| then free + {c.items[k]} else free
    case ReplaceAt(k, x) => if 0 <= k < |c.items| then free - {x} + {c.items[k]} else free - {x}
    case SortBy(_) => free
    case _ => free - {op.item}
  }

  /** Every call that adds an item adds a free one, and none comes after the link has been led out of the list. */
  ghost predicate Admissible(c: Chain<Node>, free: set<Node>, ops: seq<ListOp>)
    decreases |ops|
  {
    ops != [] ==>
      !Normal(c.link, |c.items|).Gone? && (Adds(ops[0]) ==> ops[0].item in free)
      && Admissible(After(c, ops[0]), FreeAfter(c, free, ops[0]), ops[1..])
  }

  /** A parent with its children, and items that are in no list. */
  ghost predicate Pooled(parent: Node, link: Link, free: set<Node>, pool: set<Node>)
    reads parent, parent.kids, pool
  {
    parent.Holds(link) && parent !in pool && free <= pool
    && (forall n | n in parent.kids :: n in pool && n !in free) && forall n | n in free :: n.next == null
  }

  /** What appending loses: the item without the link, and what is behind the child that the link leads to. */
  ghost predicate LostBy(c: Chain<Node>, x: Node, n: Node) {
    match Normal(c.link, |c.items|)
    case Right => false
    case To(i) => n in c.items[i + 1..]
    case _ => n == x
  }

  /** Who is in the list after a call. */
  lemma AfterMembers(c: Chain<Node>, op: ListOp, n: Node)
    requires Distinct(c.items) && (Adds(op) ==> op.item !in c.items)
    ensures n in After(c, op).items <==>
            match op
            case Append(x) => (n in c.items || n == x) && !LostBy(c, x, n)
            case InsertAt(k, x) =>
              (n in c.items || (k >= 0 && n == x)) && (k >= |c.items| ==> !LostBy(c, x, n))
            case InsertWithin(k, x) =>
              (n in c.items || (k <= |c.items| && n == x)) && (k == |c.items| ==> !LostBy(c, x, n))
            case DetachAt(k) => n in c.items && !(0 <= k < |c.items| && n == c.items[k])
            case ReplaceAt(k, x) =>
              if 0 <= k < |c.items| then n == x || (n in c.items && n != c.items[k]) else n in c.items
            case SortBy(_) => n in c.items
  {
    hide Appended, Distinct, LinkInOrder, SortedNodes;
    match op
    case Append(x) => AppendedMembers(c, x, n);
    case InsertAt(k, x) =>
      if k >= |c.items| { AppendedMembers(c, x, n); } else if k >= 0 { InsertedMembers(c.items, k, x, n); }
    case InsertWithin(k, x) =>
      if k == |c.items| { AppendedMembers(c, x, n); } else if k < |c.items| { InsertedMembers(c.items, k, x, n); }
    case DetachAt(k) => if 0 <= k < |c.items| { AroundAt(c.items, k, n); }
    case ReplaceAt(k, x) => if 0 <= k < |c.items| { ReplacedMembers(c.items, k, x, n); }
    case SortBy(cs) => SortedMembers(c.items, cs, n);
  }

  lemma AppendedMembers(c: Chain<Node>, x: Node, n: Node)
    requires Distinct(c.items) && x !in c.items
    ensures n in Appended(c, x).items <==> (n in c.items || n == x) && !LostBy(c, x, n)
  {
    var link := Normal(c.link, |c.items|);
    if link.To? {
      var front, back := c.items[..link.i + 1], c.items[link.i + 1..];
      assert c.items == front + back;
      assert n in front ==> n !in back;
    }
  }

  lemma InsertedMembers(nodes: seq<Node>, k: nat, x: Node, n: Node)
    requires k < |nodes|
    ensures n in nodes[..k] + [x] + nodes[k..] <==> n in nodes || n == x
  {
    assert nodes == nodes[..k] + nodes[k..];
  }

  lemma AroundAt(nodes: seq<Node>, k: nat, n: Node)
    requires Distinct(nodes) && k < |nodes|
    ensures n in RemoveAt(nodes, k) <==> n in nodes && n != nodes[k]
  {
    assert nodes == nodes[..k] + [nodes[k]] + nodes[k + 1..];
    if n in nodes && n != nodes[k] {
      var i :| 0 <= i < |nodes| && nodes[i] == n;
      assert i < k ==> nodes[..k][i] == n;
      assert i > k ==> nodes[k + 1..][i - k - 1] == n;
    }
  }

  lemma ReplacedMembers(nodes: seq<Node>, k: nat, x: Node, n: Node)
    requires k < |nodes| && Distinct(nodes) && x !in nodes
    ensures n in nodes[k := x] <==> n == x || (n in nodes && n != nodes[k])
  {
    AroundAt(nodes, k, n);
    assert nodes[k := x] == nodes[..k] + [x] + nodes[k + 1..];
  }

  lemma SortedMembers(nodes: seq<Node>, cs: bool, n: Node)
    ensures n in SortedNodes(nodes, cs) <==> n in nodes
  {
    hide SortedNodes, Order;
    NodesFollowOrder(nodes, cs);
    if n in nodes {
      var i :| 0 <= i < |nodes| && nodes[i] == n;
      assert i in Order(Keyed(nodes), cs);
      var k :| 0 <= k < |nodes| && Order(Keyed(nodes), cs)[k] == i;
      assert SortedNodes(nodes, cs)[k] == n;
    }
  }

  /** Free items and children stay apart. */
  lemma FreeMembers(c: Chain<Node>, free: set<Node>, op: ListOp)
    requires Distinct(c.items) && (forall n | n in c.items :: n !in free) && (Adds(op) ==> op.item in free)
    ensures forall n | n in After(c, op).items ::
              (n in c.items || (Adds(op) && n == op.item)) && n !in FreeAfter(c, free, op)
    ensures forall n | n in FreeAfter(c, free, op) :: n in free || n in c.items
  {
    hide After, Distinct, LostBy;
    forall n | n in After(c, op).items
      ensures (n in c.items || (Adds(op) && n == op.item)) && n !in FreeAfter(c, free, op)
    {
      AfterMembers(c, op, n);
    }
  }

  /** Without sorting, no call breaks a link that is right. */
  lemma {:induction false} UnsortedRunsStayRight(c: Chain<Node>, ops: seq<ListOp>)
    requires Normal(c.link, |c.items|).Right? && forall op | op in ops :: !op.SortBy?
    ensures var r := AfterAll(c, ops); Normal(r.link, |r.items|).Right?
    decreases |ops|
  {
    if ops != [] {
      assert ops[0] in ops && forall op | op in ops[1..] :: op in ops;
      UnsortedRunsStayRight(After(c, ops[0]), ops[1..]);
    }
  }

  /** One call. */
  method Perform(parent: Node, op: ListOp, ghost link: Link, ghost free: set<Node>, ghost pool: set<Node>)
    requires Pooled(parent, link, free, pool) && !Normal(link, |parent.kids|).Gone? && (Adds(op) ==> op.item in free)
    modifies parent`child, parent`kids, pool`next, pool`prev
    ensures var c := After(old(parent.Siblings(link)), op);
            parent.kids == c.items && Pooled(parent, c.link, FreeAfter(old(parent.Siblings(link)), free, op), pool)
  {
    hide Linked, Distinct, LeadsTo, Appended, Inserted, Substituted, Detached, SortedChain;
    ghost var was := parent.Siblings(link);
    FreeMembers(was, free, op);
    match op {
      case Append(x) => var _ := parent.AddItemToArray(x, link);
      case InsertAt(k, x) => var _ := parent.InsertItemInArray(k, x, link);
      case InsertWithin(k, x) => var _ := parent.InsertItemWithin(k, x, link);
      case DetachAt(k) => var _ := parent.DetachItemFromArray(k, link);
      case ReplaceAt(k, x) => var _ := parent.ReplaceItemInArray(k, x, link);
      case SortBy(cs) => SortObject(parent, cs, link);
    }
  }

  /** Every run of calls does to the children and their link what the run of the chain operations does: all links
      between neighbours stay right, and exactly those items are lost that the chain loses. */
  method RunAll(parent: Node, ops: seq<ListOp>, ghost link: Link, ghost free: set<Node>, ghost pool: set<Node>)
    requires Pooled(parent, link, free, pool) && Admissible(parent.Siblings(link), free, ops)
    modifies parent`child, parent`kids, pool`next, pool`prev
    ensures var c := AfterAll(old(parent.Siblings(link)), ops); parent.kids == c.items && parent.Holds(c.link)
  {
    hide Pooled, After, FreeAfter, Normal;
    ghost var l, f := link, free;
    var i := 0;
    assert ops[0..] == ops;
    while i < |ops|
      invariant i <= |ops| && Pooled(parent, l, f, pool) && Admissible(parent.Siblings(l), f, ops[i..])
      invariant AfterAll(parent.Siblings(l), ops[i..]) == AfterAll(old(parent.Siblings(link)), ops)
    {
      assert ops[i..][0] == ops[i] && ops[i..][1..] == ops[i + 1..];
      ghost var c := parent.Siblings(l);
      Perform(parent, ops[i], l, f, pool);
      l, f := After(c, ops[i]).link, FreeAfter(c, f, ops[i]);
      i := i + 1;
    }
    PooledHolds(parent, l, f, pool);
  }

  lemma PooledHolds(parent: Node, link: Link, free: set<Node>, pool: set<Node>)
    requires Pooled(parent, link, free, pool)
    ensures parent.Holds(link)
  {
  }

  /** Three children of which the last two are the wrong way round: the first keeps its link to the old last. */
  lemma MiddleSorted(a: Node, b: Node, c: Node, cs: bool)
    requires Cmp(a.key, b.key, cs) < 0 && Cmp(b.key, c.key, cs) < 0
    ensures SortedChain(Chain([a, c, b], Right), cs) == Chain([a, b, c], To(1))
  {
    hide Cmp, Sort;
    SortMiddle(Member(a.key, a), Member(b.key, b), Member(c.key, c), cs);
    SortMiddle<nat>(Member(a.key, 0), Member(b.key, 2), Member(c.key, 1), cs);
    assert Keyed([a, c, b]) == [Member(a.key, a), Member(c.key, c), Member(b.key, b)];
    assert SortedNodes([a, c, b], cs) == [a, b, c];
    assert Numbered(Keyed([a, c, b])) == [Member(a.key, 0), Member(c.key, 1), Member(b.key, 2)];
    assert Order(Keyed([a, c, b]), cs) == [0, 2, 1];
    assert Place([0, 2, 1], 2) == 1;
  }

  /** Sorting can leave the first child in its place and move the last: an item appended then goes behind the old
      last child, and what is sorted behind that is cut off. */
  lemma OldTailCuts(a: Node, b: Node, c: Node, item: Node, cs: bool)
    requires Cmp(a.key, b.key, cs) < 0 && Cmp(b.key, c.key, cs) < 0
    ensures AfterAll(Chain([a, c, b], Right), [SortBy(cs), Append(item)]) == Chain([a, b, item], Right)
  {
    hide Cmp, SortedChain;
    var sorted, ops := Chain([a, b, c], To(1)), [Append(item)];
    MiddleSorted(a, b, c, cs);
    assert [SortBy(cs), Append(item)][1..] == ops && ops[1..] == [];
    assert Appended(sorted, item) == Chain([a, b, item], Right) by { assert [a, b, c][..2] + [item] == [a, b, item]; }
    assert AfterAll(sorted, ops) == AfterAll(Appended(sorted, item), []);
  }
}
