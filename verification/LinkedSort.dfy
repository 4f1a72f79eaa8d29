/** sort_list: the merge sort that rewires the nodes of a sibling list, proved to do what the merge
    sort on sequences does, and what sort_object leaves in the head's prev link. */
module LinkedSort {
  import opened CStrings
  import opened SiblingLinks
  import opened JsonTrees
  import opened Sorting
  import opened Siblings

  /** The nodes of a list with their keys. */
  function Keyed(nodes: seq<Node>): (ms: seq<Member<Node>>)
    ensures |ms| == |nodes| && forall i | 0 <= i < |nodes| :: ms[i] == Member(nodes[i].key, nodes[i])
  {
    seq(|nodes|, i requires 0 <= i < |nodes| => Member(nodes[i].key, nodes[i]))
  }

  /** Links inside a stretch of nodes; its ends may lead anywhere. */
  ghost predicate Strung(nodes: seq<Node>)
    reads nodes
  {
    (forall i {:trigger nodes[i].next} | 0 <= i < |nodes| - 1 :: nodes[i].next == nodes[i + 1])
    && (forall i {:trigger nodes[i].prev} | 1 <= i < |nodes| :: nodes[i].prev == nodes[i - 1])
  }

  ghost predicate Apart(a: seq<Node>, b: seq<Node>) {
    forall i, j | 0 <= i < |a| && 0 <= j < |b| :: a[i] != b[j]
  }

  /** The merged stretch so far and the two rests. */
  ghost predicate Merging(done: seq<Node>, f: seq<Node>, s: seq<Node>) {
    Distinct(done) && Distinct(f) && Distinct(s) && Apart(done, f) && Apart(done, s) && Apart(f, s)
  }

  lemma TakeFirst(done: seq<Node>, f: seq<Node>, s: seq<Node>)
    requires Merging(done, f, s) && f != []
    ensures Merging(done + [f[0]], f[1..], s)
  {
  }

  lemma KeyedTail(nodes: seq<Node>)
    requires nodes != []
    ensures Keyed(nodes)[1..] == Keyed(nodes[1..]) && Keyed(nodes)[0] == Member(nodes[0].key, nodes[0])
  {
  }

  lemma KeyedParts(a: seq<Node>, b: seq<Node>)
    ensures Keyed(a + b) == Keyed(a) + Keyed(b)
  {
  }

  /** Which node the merge takes next. */
  lemma MergeNext(done: seq<Node>, f: seq<Node>, s: seq<Node>, cs: bool)
    requires f != [] && s != []
    ensures var first := Cmp(f[0].key, s[0].key, cs) < 0;
            var x := if first then f[0] else s[0];
            Keyed(done) + MergeSorted(Keyed(f), Keyed(s), cs)
            == Keyed(done + [x])
               + (if first then MergeSorted(Keyed(f[1..]), Keyed(s), cs) else MergeSorted(Keyed(f), Keyed(s[1..]), cs))
  {
    var first := Cmp(f[0].key, s[0].key, cs) < 0;
    var x := if first then f[0] else s[0];
    var rest := if first then MergeSorted(Keyed(f[1..]), Keyed(s), cs) else MergeSorted(Keyed(f), Keyed(s[1..]), cs);
    MergeUnfolds(f, s, cs);
    hide MergeSorted, Cmp;
    Assoc(Keyed(done), [Member(x.key, x)], rest);
    KeyedParts(done, [x]);
    assert Keyed([x]) == [Member(x.key, x)];
  }

  lemma MergeUnfolds(f: seq<Node>, s: seq<Node>, cs: bool)
    requires f != [] && s != []
    ensures MergeSorted(Keyed(f), Keyed(s), cs) ==
            if Cmp(f[0].key, s[0].key, cs) < 0
            then [Member(f[0].key, f[0])] + MergeSorted(Keyed(f[1..]), Keyed(s), cs)
            else [Member(s[0].key, s[0])] + MergeSorted(Keyed(f), Keyed(s[1..]), cs)
  {
    KeyedTail(f);
    KeyedTail(s);
  }

  lemma MergeEnds(done: seq<Node>, f: seq<Node>, s: seq<Node>, cs: bool)
    requires f == [] || s == []
    ensures Keyed(done) + MergeSorted(Keyed(f), Keyed(s), cs) == Keyed(done + (if f == [] then s else f))
  {
    KeyedParts(done, if f == [] then s else f);
  }

  ghost predicate Inside(nodes: seq<Node>, pool: set<Node>) {
    forall n | n in nodes :: n in pool
  }

  /** The state of the merge loop: the merged stretch and the rests of the two lists. */
  ghost predicate Merge2(done: seq<Node>, f: seq<Node>, s: seq<Node>, first: Node?, second: Node?, pool: set<Node>)
    reads done, f, s
  {
    Linked(first, f) && Linked(second, s) && Strung(done) && Merging(done, f, s)
    && Inside(done, pool) && Inside(f, pool) && Inside(s, pool)
  }

  lemma Swap(done: seq<Node>, f: seq<Node>, s: seq<Node>, first: Node?, second: Node?, pool: set<Node>)
    requires Merge2(done, f, s, first, second, pool)
    ensures Merge2(done, s, f, second, first, pool)
  {
    hide Linked, Strung, Distinct, Inside;
  }

  lemma Heads(done: seq<Node>, f: seq<Node>, s: seq<Node>, first: Node?, second: Node?, pool: set<Node>)
    requires Merge2(done, f, s, first, second, pool)
    ensures first == (if f == [] then null else f[0]) && second == (if s == [] then null else s[0])
    ensures first != null ==> first in pool
    ensures second != null ==> second in pool
    ensures first != null && second != null ==> first != second
    ensures first != null && done != [] ==> first != done[0]
    ensures second != null && done != [] ==> second != done[0]
  {
    if f != [] { assert f[0] in f; }
    if s != [] { assert s[0] in s; }
  }

  lemma StartMerge(fs: seq<Node>, ss: seq<Node>, first: Node?, second: Node?, pool: set<Node>, cs: bool)
    requires Linked(first, fs) && Linked(second, ss) && Merging([], fs, ss) && Inside(fs, pool) && Inside(ss, pool)
    ensures Keyed([]) + MergeSorted(Keyed(fs), Keyed(ss), cs) == MergeSorted(Keyed(fs), Keyed(ss), cs)
    ensures Merge2([], fs, ss, first, second, pool)
  {
    hide MergeSorted;
  }

  /** The merge loop. */
  method MergeLists(list1: Node, list2: Node, ghost fs: seq<Node>, ghost ss: seq<Node>, ghost pool: set<Node>,
                    caseSensitive: bool)
    returns (result: Node, ghost merged: seq<Node>)
    requires fs != [] && ss != [] && Linked(list1, fs) && Linked(list2, ss) && Merging([], fs, ss)
    requires Inside(fs, pool) && Inside(ss, pool)
    modifies pool`next, pool`prev
    ensures Linked(result, merged) && Keyed(merged) == MergeSorted(Keyed(fs), Keyed(ss), caseSensitive)
    ensures Distinct(merged) && Inside(merged, pool)
    ensures result == list1 || result == list2
    ensures result.prev == old(result.prev)
  {
    hide MergeSorted, Cmp, Keyed, Merge2;
    var first: Node?, second: Node? := list1, list2;
    var head: Node?, tail: Node? := null, null;
    ghost var done: seq<Node>, f, s := [], fs, ss;
    StartMerge(fs, ss, list1, list2, pool, caseSensitive);
    hide Linked, Strung, Merging, Inside, Distinct;
    while first != null && second != null
      invariant Merge2(done, f, s, first, second, pool) && (f != [] || s != [])
      invariant done == [] ==> head == null && tail == null && f == fs && s == ss
      invariant done != [] ==> head == done[0] && tail == done[|done| - 1] && (head == list1 || head == list2)
      invariant head != null ==> head.prev == old(head.prev)
      invariant head == null ==> first == list1 && second == list2
      invariant head == null ==> list1.prev == old(list1.prev) && list2.prev == old(list2.prev)
      invariant Keyed(done) + MergeSorted(Keyed(f), Keyed(s), caseSensitive)
                == MergeSorted(Keyed(fs), Keyed(ss), caseSensitive)
      decreases |f| + |s|
    {
      Heads(done, f, s, first, second, pool);
      MergeNext(done, f, s, caseSensitive);
      var diff := CompareStrings(first.key, second.key, caseSensitive);
      if diff < 0 {
        Extend(tail, first, done, f, s, second, pool);
        tail := first;
        first := first.next;
        done, f := done + [f[0]], f[1..];
      } else {
        Swap(done, f, s, first, second, pool);
        Extend(tail, second, done, s, f, first, pool);
        tail := second;
        second := second.next;
        done, s := done + [s[0]], s[1..];
        Swap(done, s, f, second, first, pool);
      }
      if head == null { head := tail; }
    }
    Heads(done, f, s, first, second, pool);
    result := head;
    MergeEnds(done, f, s, caseSensitive);
    if first != null {
      Join(tail, first, done, f, s, second, pool);
      merged := done + f;
    } else {
      Swap(done, f, s, first, second, pool);
      Join(tail, second, done, s, f, first, pool);
      merged := done + s;
    }
  }

  /** Hang the front node of a list behind the merged stretch. */
  method Extend(tail: Node?, x: Node, ghost done: seq<Node>, ghost mine: seq<Node>, ghost other: seq<Node>,
                ghost otherHead: Node?, ghost pool: set<Node>)
    requires Merge2(done, mine, other, x, otherHead, pool) && mine != []
    requires tail == if done == [] then null else done[|done| - 1]
    modifies pool`next, pool`prev
    ensures Merge2(done + [x], mine[1..], other, x.next, otherHead, pool)
    ensures done == [] ==> x.prev == old(x.prev)
    ensures forall n | n in pool && n != x :: n.prev == old(n.prev)
  {
    TakeFirst(done, mine, other);
    if tail != null {
      assert done[|done| - 1] in done && mine[0] in mine;
      tail.next := x;
      x.prev := tail;
    }
  }

  /** Append the rest of a list to the merged stretch. */
  method Join(tail: Node, rest: Node, ghost done: seq<Node>, ghost nodes: seq<Node>, ghost none: seq<Node>,
              ghost noneHead: Node?, ghost pool: set<Node>)
    requires done != [] && tail == done[|done| - 1] && Merge2(done, nodes, none, rest, noneHead, pool)
    modifies pool`next, pool`prev
    ensures Linked(done[0], done + nodes) && Distinct(done + nodes) && Inside(done + nodes, pool)
    ensures forall n | n in pool && n != rest :: n.prev == old(n.prev)
  {
    assert nodes[0] == rest && nodes[0] in nodes && done[|done| - 1] in done;
    tail.next := rest;
    rest.prev := tail;
    ghost var all := done + nodes;
    assert forall i | 0 <= i < |done| :: all[i] == done[i];
    assert forall i | |done| <= i < |all| :: all[i] == nodes[i - |done|];
  }

  /** The test for a list that is sorted already: every key strictly below the next. */
  method IsIncreasing(list: Node?, ghost nodes: seq<Node>, caseSensitive: bool) returns (increasing: bool)
    requires Linked(list, nodes)
    ensures increasing <==> StrictlyIncreasing(Keyed(nodes), caseSensitive)
  {
    var current := list;
    ghost var i := 0;
    while current != null && current.next != null
      invariant i <= |nodes| && current == if i < |nodes| then nodes[i] else null
      invariant forall k | 0 <= k < i && k < |nodes| - 1 :: Cmp(nodes[k].key, nodes[k + 1].key, caseSensitive) < 0
      decreases |nodes| - i
    {
      assert current.next == nodes[i + 1];
      var diff := CompareStrings(current.key, current.next.key, caseSensitive);
      if diff >= 0 {
        assert Keyed(nodes)[i].key == nodes[i].key && Keyed(nodes)[i + 1].key == nodes[i + 1].key;
        return false;
      }
      current, i := current.next, i + 1;
    }
    return true;
  }

  /** Two pointers, one twice as fast, find the start of the second half. */
  method FindMiddle(list: Node, ghost nodes: seq<Node>) returns (second: Node?, ghost mid: nat)
    requires Linked(list, nodes) && |nodes| >= 2
    ensures mid == (|nodes| + 1) / 2 < |nodes| && second == nodes[mid]
  {
    var current: Node? := list;
    second, mid := list, 0;
    while current != null
      invariant mid <= |nodes| && (mid > 0 ==> 2 * (mid - 1) < |nodes|)
      invariant second == if mid < |nodes| then nodes[mid] else null
      invariant current == if 2 * mid < |nodes| then nodes[2 * mid] else null
      decreases |nodes| - mid
    {
      assert nodes[mid].next == if mid + 1 < |nodes| then nodes[mid + 1] else null;
      assert nodes[2 * mid].next == if 2 * mid + 1 < |nodes| then nodes[2 * mid + 1] else null;
      second := second.next;
      current := current.next;
      if current != null {
        assert nodes[2 * mid + 1].next == if 2 * mid + 2 < |nodes| then nodes[2 * mid + 2] else null;
        current := current.next;
      }
      mid := mid + 1;
    }
  }

  /** Cut a list in two in front of `second`. */
  method Split(list: Node, second: Node, ghost nodes: seq<Node>, ghost mid: nat)
    requires Linked(list, nodes) && Distinct(nodes) && 0 < mid < |nodes| && second == nodes[mid]
    modifies nodes`next, nodes`prev
    ensures Linked(list, nodes[..mid]) && Linked(second, nodes[mid..])
    ensures second.prev == null && list.prev == old(list.prev)
  {
    assert second.prev == nodes[mid - 1] && nodes[0] != nodes[mid];
    second.prev.next := null;
    second.prev := null;
  }

  lemma Halves(nodes: seq<Node>, mid: nat, a: seq<Node>, b: seq<Node>)
    requires Distinct(nodes) && mid <= |nodes| && Distinct(a) && Distinct(b)
    requires (forall n | n in a :: n in nodes[..mid]) && forall n | n in b :: n in nodes[mid..]
    ensures Merging([], a, b)
  {
    forall i, j | 0 <= i < |a| && 0 <= j < |b| ensures a[i] != b[j] {
      assert a[i] in nodes[..mid] && b[j] in nodes[mid..];
    }
  }

  lemma KeyedSortUnfolds(nodes: seq<Node>, mid: nat, cs: bool)
    requires |nodes| >= 2 && mid == (|nodes| + 1) / 2 && !StrictlyIncreasing(Keyed(nodes), cs)
    ensures Sort(Keyed(nodes), cs) == MergeSorted(Sort(Keyed(nodes[..mid]), cs), Sort(Keyed(nodes[mid..]), cs), cs)
  {
    hide Sort, MergeSorted, StrictlyIncreasing;
    SortUnfolds(Keyed(nodes), cs);
    assert Keyed(nodes)[..mid] == Keyed(nodes[..mid]) && Keyed(nodes)[mid..] == Keyed(nodes[mid..]);
  }

  /** sort_list: the nodes are relinked in the order of the merge sort on sequences. Correct prev
      links are needed and restored inside the list only; the new head keeps the prev it had if it
      was the head before, and has none otherwise. */
  method SortList(list: Node?, ghost nodes: seq<Node>, caseSensitive: bool)
    returns (result: Node?, ghost sorted: seq<Node>)
    requires Linked(list, nodes) && Distinct(nodes)
    modifies nodes`next, nodes`prev
    ensures Linked(result, sorted) && Distinct(sorted)
    ensures Keyed(sorted) == Sort(Keyed(nodes), caseSensitive)
    ensures forall n | n in sorted :: n in nodes
    ensures result != null ==> result.prev == if result == list then old(list.prev) else null
    decreases |nodes|, 1
  {
    ghost var pool := set n | n in nodes;
    if list == null || list.next == null {
      SortShort(nodes, caseSensitive);
      return list, nodes;
    }
    assert |nodes| >= 2;
    hide Sort, Keyed, StrictlyIncreasing, MergeSorted, Linked, Distinct, Merging;
    var increasing := IsIncreasing(list, nodes, caseSensitive);
    if increasing {
      SortShort(nodes, caseSensitive);
      return list, nodes;
    }
    var second, mid := FindMiddle(list, nodes);
    Split(list, second, nodes, mid);
    var first, other, fs, ss := SortHalves(list, second, nodes, mid, pool, caseSensitive);
    KeyedSortUnfolds(nodes, mid, caseSensitive);
    result, sorted := MergeLists(first, other, fs, ss, pool, caseSensitive);
  }

  lemma SortShort(nodes: seq<Node>, cs: bool)
    ensures |nodes| < 2 || StrictlyIncreasing(Keyed(nodes), cs) ==> Sort(Keyed(nodes), cs) == Keyed(nodes)
  {
  }

  /** The two recursive calls: the halves share no node, so neither disturbs the other. */
  method SortHalves(list: Node, second: Node, ghost nodes: seq<Node>, ghost mid: nat, ghost pool: set<Node>,
                    caseSensitive: bool)
    returns (first: Node, other: Node, ghost fs: seq<Node>, ghost ss: seq<Node>)
    requires 0 < mid < |nodes| && Distinct(nodes) && forall n | n in nodes :: n in pool
    requires Linked(list, nodes[..mid]) && Linked(second, nodes[mid..])
    modifies nodes`next, nodes`prev
    ensures Linked(first, fs) && Linked(other, ss) && Merging([], fs, ss) && fs != [] && ss != []
    ensures Keyed(fs) == Sort(Keyed(nodes[..mid]), caseSensitive)
    ensures Keyed(ss) == Sort(Keyed(nodes[mid..]), caseSensitive)
    ensures Inside(fs, pool) && Inside(ss, pool)
    ensures first.prev == if first == list then old(list.prev) else null
    ensures other.prev == (if other == second then old(second.prev) else null) && other != list
    decreases |nodes|, 0
  {
    hide Sort, StrictlyIncreasing;
    ghost var a, b := nodes[..mid], nodes[mid..];
    Halves(nodes, mid, a, b);
    first, fs := SortList(list, a, caseSensitive);
    Halves(nodes, mid, fs, b);
    other, ss := SortList(second, b, caseSensitive);
    Halves(nodes, mid, fs, ss);
    assert ss[0] in b && a[0] == list;
  }

  lemma SortedInside(nodes: seq<Node>, sorted: seq<Node>, cs: bool)
    requires Keyed(sorted) == Sort(Keyed(nodes), cs)
    ensures |sorted| == |nodes| && forall n | n in sorted :: n in nodes
  {
    SortCorrect(Keyed(nodes), cs);
    forall n | n in sorted
      ensures n in nodes
    {
      var i :| 0 <= i < |sorted| && sorted[i] == n;
      assert Keyed(sorted)[i] in Sort(Keyed(nodes), cs);
      assert Keyed(sorted)[i] in Keyed(nodes);
    }
  }

  // ---------- the link from the first child to the last ----------

  /** The nodes of a list in order. */
  function SortedNodes(nodes: seq<Node>, cs: bool): (r: seq<Node>)
    ensures |r| == |nodes|
  {
    var ms := Sort(Keyed(nodes), cs);
    seq(|nodes|, i requires 0 <= i < |nodes| => ms[i].value)
  }

  lemma SortedAreKeyed(nodes: seq<Node>, sorted: seq<Node>, cs: bool)
    requires Keyed(sorted) == Sort(Keyed(nodes), cs)
    ensures sorted == SortedNodes(nodes, cs)
  {
    hide Sort;
    assert forall i | 0 <= i < |nodes| :: Keyed(sorted)[i].value == sorted[i];
  }

  lemma NodesFollowOrder(nodes: seq<Node>, cs: bool)
    ensures var order, sorted := Order(Keyed(nodes), cs), SortedNodes(nodes, cs);
            (forall i | 0 <= i < |nodes| :: order[i] < |nodes| && sorted[i] == nodes[order[i]])
            && (forall i | 0 <= i < |nodes| :: i in order)
            && forall i, k | 0 <= i < k < |nodes| :: order[i] != order[k]
  {
    hide Sort, Order;
    SortFollowsOrder(Keyed(nodes), cs);
  }

  /** Where the link leads after sorting. */
  lemma SortedLeads(nodes: seq<Node>, target: Node?, link: Link, cs: bool)
    requires nodes != [] && Distinct(nodes) && LeadsTo(nodes, target, link)
    ensures var sorted, order := SortedNodes(nodes, cs), Order(Keyed(nodes), cs);
            (sorted[0] == nodes[0] <==> order[0] == 0)
            && LeadsTo(sorted, if sorted[0] == nodes[0] then target else null, LinkInOrder(link, order))
  {
    hide Order, SortedNodes;
    NodesFollowOrder(nodes, cs);
    var sorted, order := SortedNodes(nodes, cs), Order(Keyed(nodes), cs);
    if order[0] == 0 {
      if link.Gone? {
        forall n | n in sorted ensures n != target {
          var i :| 0 <= i < |sorted| && sorted[i] == n;
          assert nodes[order[i]] in nodes;
        }
      } else if !link.Missing? {
        var i := if link.To? then link.i else |nodes| - 1;
        assert i in order;
        assert sorted[Place(order, i)] == nodes[i];
      }
    }
  }

  /** What sort_object makes of a list and its link. */
  function SortedChain(c: Chain<Node>, cs: bool): Chain<Node> {
    Chain(SortedNodes(c.items, cs), LinkInOrder(c.link, Order(Keyed(c.items), cs)))
  }

  /** sort_object stores the sorted head but does nothing for its link to the tail: that leads where it led
      before if the head is the same, and nowhere otherwise. */
  method SortObject(item: Node, caseSensitive: bool, ghost link: Link)
    requires item.Holds(link)
    modifies item`child, item`kids, item.kids`next, item.kids`prev
    ensures var c := SortedChain(old(item.Siblings(link)), caseSensitive); item.kids == c.items && item.Holds(c.link)
    ensures forall n | n in item.kids :: n in old(item.kids)
  {
    hide Distinct, Linked, Sort, Order, LeadsTo, LinkInOrder, SortedNodes;
    ghost var nodes := item.kids;
    ghost var target := if nodes == [] then null else nodes[0].prev;
    Heading(item.child, nodes);
    var head, sorted := SortList(item.child, nodes, caseSensitive);
    item.child := head;
    item.kids := sorted;
    Heading(head, sorted);
    SortedInside(nodes, sorted, caseSensitive);
    SortedAreKeyed(nodes, sorted, caseSensitive);
    if nodes != [] { SortedLeads(nodes, target, link, caseSensitive); }
  }

  lemma Heading(head: Node?, nodes: seq<Node>)
    requires Linked(head, nodes)
    ensures head == if nodes == [] then null else nodes[0]
  {
  }

  /** The first and the last child keep their places. */
  predicate EndsStay(nodes: seq<Node>, sorted: seq<Node>)
    requires |nodes| == |sorted|
  {
    nodes == [] || (sorted[0] == nodes[0] && sorted[|nodes| - 1] == nodes[|nodes| - 1])
  }

  /** An item appended to an object that has just been sorted is where it belongs exactly when the first and the
      last child have kept their places. Otherwise the item is lost, if the first child is another one, or the
      item is there and everything behind the old last child is lost. The call reports success in any case. */
  method SortThenAppend(parent: Node, item: Node, caseSensitive: bool) returns (added: bool)
    requires parent.Valid() && item !in parent.kids && item != parent && item.next == null
    modifies parent`child, parent`kids, parent.kids`next, parent.kids`prev, item`next, item`prev
    ensures added
    ensures var was, sorted := old(parent.kids), SortedNodes(old(parent.kids), caseSensitive);
            (parent.kids == sorted + [item] <==> EndsStay(was, sorted))
            && (was != [] && sorted[0] != was[0] ==> parent.kids == sorted)
            && (was != [] && sorted[0] == was[0] && !EndsStay(was, sorted) ==>
                  exists p ::
                    0 <= p < |sorted| - 1 && sorted[p] == was[|was| - 1] && parent.kids == sorted[..p + 1] + [item])
  {
    hide Distinct, Linked, Sort, Order, LeadsTo, LinkInOrder, SortedNodes, EndsStay;
    ghost var was := parent.kids;
    SortObject(parent, caseSensitive, Right);
    ghost var sorted, link := parent.kids, LinkInOrder(Right, Order(Keyed(was), caseSensitive));
    EndsAndLink(was, caseSensitive);
    assert forall i | 0 <= i < |parent.kids| :: parent.kids[i] in was;
    added := parent.AddItemToArray(item, link);
    AppendedSorted(was, sorted, link, item);
  }

  /** The link after sorting a list whose link was right. */
  lemma EndsAndLink(nodes: seq<Node>, cs: bool)
    requires Distinct(nodes)
    ensures var sorted, link := SortedNodes(nodes, cs), LinkInOrder(Right, Order(Keyed(nodes), cs));
            AfterSort(nodes, sorted, link)
  {
    if nodes != [] {
      hide Order, SortedNodes, Distinct, Keyed;
      var sorted, order, last := SortedNodes(nodes, cs), Order(Keyed(nodes), cs), |nodes| - 1;
      NodesFollowOrder(nodes, cs);
      OnlyOnce(nodes, order[0], 0);
      OnlyOnce(nodes, order[last], last);
      assert last in order;
      EndsOfOrder(order);
    }
  }

  lemma OnlyOnce(nodes: seq<Node>, i: nat, k: nat)
    requires Distinct(nodes) && i < |nodes| && k < |nodes|
    ensures nodes[i] == nodes[k] <==> i == k
  {
  }

  ghost predicate AfterSort(nodes: seq<Node>, sorted: seq<Node>, link: Link)
    requires |sorted| == |nodes|
  {
    if EndsStay(nodes, sorted) then link.Right?
    else if sorted[0] != nodes[0] then link.Missing?
    else link.To? && link.i + 1 < |sorted| && sorted[link.i] == nodes[|nodes| - 1]
  }

  lemma AppendedSorted(nodes: seq<Node>, sorted: seq<Node>, link: Link, item: Node)
    requires |sorted| == |nodes| && AfterSort(nodes, sorted, link) && item !in sorted
    ensures var kids := Appended(Chain(sorted, link), item).items;
            !Normal(link, |sorted|).Gone?
            && (kids == sorted + [item] <==> EndsStay(nodes, sorted))
            && (nodes != [] && sorted[0] != nodes[0] ==> kids == sorted)
            && (nodes != [] && sorted[0] == nodes[0] && !EndsStay(nodes, sorted) ==>
                  exists p ::
                    0 <= p < |sorted| - 1 && sorted[p] == nodes[|nodes| - 1] && kids == sorted[..p + 1] + [item])
  {
    if link.To? { assert |sorted[..link.i + 1] + [item]| < |sorted + [item]|; }
  }
}
