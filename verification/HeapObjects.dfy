/** The operations on the children of a node, seen from the trees that the nodes stand for: sorting, appending and
    detaching do to a tree on the heap what the patch and merge code is proved to do to the tree as a value. */
module HeapObjects {
  import opened CStrings
  import opened SiblingLinks
  import opened JsonTrees
  import opened Sorting
  import opened Siblings
  import opened LinkedSort
  import opened Duplicating
  import Pointers
  import Parsing

  // ---------- blocks of lists with the same nodes ----------

  lemma {:induction false} BlocksWithout(nodes: seq<Node>, i: nat)
    requires i < |nodes|
    ensures BlocksOf(nodes) == nodes[i].blocks + BlocksOf(RemoveAt(nodes, i))
    decreases nodes
  {
    if i == 0 {
      assert RemoveAt(nodes, 0) == nodes[1..];
    } else {
      BlocksWithout(nodes[1..], i - 1);
      assert RemoveAt(nodes, i) == [nodes[0]] + RemoveAt(nodes[1..], i - 1);
    }
  }

  lemma {:induction false} BlocksPermute(a: seq<Node>, b: seq<Node>)
    requires multiset(a) == multiset(b)
    ensures BlocksOf(a) == BlocksOf(b)
    decreases a
  {
    if a == [] {
      assert |b| == |multiset(b)| == |multiset(a)| == 0;
    } else {
      hide RemoveAt;
      assert a[0] in multiset(b);
      var i :| 0 <= i < |b| && b[i] == a[0];
      BothWithout(a, b, i);
      BlocksWithout(b, i);
      BlocksPermute(a[1..], RemoveAt(b, i));
    }
  }

  lemma BothWithout(a: seq<Node>, b: seq<Node>, i: nat)
    requires multiset(a) == multiset(b) && a != [] && i < |b| && b[i] == a[0]
    ensures multiset(a[1..]) == multiset(RemoveAt(b, i))
  {
    hide RemoveAt;
    TakenOut(a, 0);
    TakenOut(b, i);
    assert RemoveAt(a, 0) == a[1..] by { FirstRemoved(a); }
  }

  lemma FirstRemoved(a: seq<Node>)
    requires a != []
    ensures RemoveAt(a, 0) == a[1..]
  {
  }

  lemma TakenOut(nodes: seq<Node>, i: nat)
    requires i < |nodes|
    ensures multiset(RemoveAt(nodes, i)) == multiset(nodes) - multiset{nodes[i]}
  {
    var front, back := nodes[..i], nodes[i + 1..];
    assert nodes == front + ([nodes[i]] + back);
    Cancelled(multiset(front), multiset{nodes[i]}, multiset(back));
  }

  lemma Cancelled(f: multiset<Node>, x: multiset<Node>, b: multiset<Node>)
    ensures f + (x + b) - x == f + b
  {
  }

  lemma {:induction false} DistinctPermute(a: seq<Node>, b: seq<Node>)
    requires Distinct(a) && Distinct(b) && forall n :: n in a <==> n in b
    ensures multiset(a) == multiset(b)
  {
    forall n ensures multiset(a)[n] == multiset(b)[n] {
      OnceAtMost(a, n);
      OnceAtMost(b, n);
      assert n in a <==> n in multiset(a);
      assert n in b <==> n in multiset(b);
    }
  }

  lemma {:induction false} OnceAtMost(nodes: seq<Node>, n: Node)
    requires Distinct(nodes)
    ensures multiset(nodes)[n] <= 1
  {
    if nodes != [] {
      assert nodes == [nodes[0]] + nodes[1..];
      OnceAtMost(nodes[1..], n);
      assert forall i | 1 <= i < |nodes| :: nodes[i] != nodes[0];
    }
  }

  // ---------- a node and its tree before and after a call ----------

  /** The object that a node stands for, as far as its own children are concerned. */
  lemma ObjectParts(n: Node, t: Json)
    requires Stands(n, t, true) && t.Object?
    ensures n in n.repr && n.data == Object([]) && |n.kids| == |t.members| && n !in n.kids && n.Holds(t.link)
    ensures forall i | 0 <= i < |n.kids| ::
              n.kids[i] in n.repr - {n} && n.kids[i].repr <= n.repr - {n} && n.kids[i] in n.kids[i].repr
              && n.kids[i].key == t.members[i].key && Stands(n.kids[i], t.members[i].value, true)
    ensures Disjoint(n.kids) && n.blocks == Own(n) + BlocksOf(n.kids)
  {
  }

  lemma ObjectStands(n: Node, t: Json)
    requires t.Object? && n in n.repr && n.data == Object([]) && |n.kids| == |t.members| && n.Holds(t.link)
    requires forall i | 0 <= i < |n.kids| ::
               n.kids[i] in n.repr - {n} && n.kids[i].repr <= n.repr - {n}
               && n.kids[i].key == t.members[i].key && Stands(n.kids[i], t.members[i].value, true)
    requires Disjoint(n.kids) && n.blocks == Own(n) + BlocksOf(n.kids)
    ensures Stands(n, t, true)
  {
  }

  /** Sorting the members by their keys sorts the nodes the same way. */
  lemma SameOrder(nodes: seq<Node>, ms: seq<Member<Json>>, cs: bool)
    requires |nodes| == |ms| && forall i | 0 <= i < |ms| :: nodes[i].key == ms[i].key
    ensures Order(Keyed(nodes), cs) == Order(ms, cs)
  {
    assert Numbered(Keyed(nodes)) == Numbered(ms);
  }

  /** Nodes whose own places alone have changed stand for what they stood for. */
  twostate lemma KidsStill(p: (seq<Node>, seq<Member<Json>>))
    requires |p.0| == |p.1| && old(Disjoint(p.0))
             && forall i | 0 <= i < |p.0| :: old(Stands(p.0[i], p.1[i].value, true))
    requires forall i | 0 <= i < |p.0| :: old(p.0[i] in p.0[i].repr)
    requires forall i | 0 <= i < |p.0| ::
               p.0[i].child == old(p.0[i].child) && p.0[i].kids == old(p.0[i].kids)
               && p.0[i].repr == old(p.0[i].repr) && p.0[i].blocks == old(p.0[i].blocks)
    requires forall i, m | 0 <= i < |p.0| && m in old(p.0[i].repr) && m !in p.0 :: unchanged(m)
    ensures forall i | 0 <= i < |p.0| :: Stands(p.0[i], p.1[i].value, true)
    ensures forall i | 0 <= i < |p.0| :: p.0[i] in p.0[i].repr
    ensures Disjoint(p.0) && BlocksOf(p.0) == old(BlocksOf(p.0))
  {
    hide Stands;
    forall i | 0 <= i < |p.0| ensures Stands(p.0[i], p.1[i].value, true) {
      forall m | m in old(p.0[i].repr) - {p.0[i]} ensures unchanged(m) {
        assert forall k | 0 <= k < |p.0| && k != i :: old(p.0[k].repr !! p.0[i].repr);
        assert forall k | 0 <= k < |p.0| :: m != p.0[k];
        assert m !in p.0;
      }
      StandStill((p.0[i], p.1[i].value));
    }
  }

  /** sort_object on a tree. */
  method SortTree(parent: Node, caseSensitive: bool, ghost t: Json)
    requires Stands(parent, t, true) && t.Object?
    modifies parent`child, parent`kids, parent.kids`next, parent.kids`prev
    ensures Stands(parent, SortedObject(t, caseSensitive), true)
    ensures parent.repr == old(parent.repr) && parent.blocks == old(parent.blocks)
  {
    hide Stands, Distinct, Linked, LeadsTo, SortedNodes, Order, Sort, Own, Disjoint, Keyed, LinkInOrder, BlocksOf;
    ghost var was := parent.kids;
    ObjectParts(parent, t);
    SameOrder(was, t.members, caseSensitive);
    SortObject(parent, caseSensitive, t.link);
    KidsStill((was, t.members));
    SortedKids(was, parent.kids, t, caseSensitive);
    ObjectStands(parent, SortedObject(t, caseSensitive));
  }

  /** Nodes in order stand for members in order. */
  lemma SortedKids(was: seq<Node>, now: seq<Node>, t: Json, cs: bool)
    requires t.Object? && |was| == |t.members| && Distinct(was) && Distinct(now) && now == SortedNodes(was, cs)
    requires Disjoint(was) && forall i | 0 <= i < |was| ::
               was[i].key == t.members[i].key && Stands(was[i], t.members[i].value, true)
    ensures var sorted := SortedObject(t, cs);
            |now| == |sorted.members| && sorted.link == LinkInOrder(t.link, Order(Keyed(was), cs))
            && (forall i | 0 <= i < |now| ::
                  now[i] in was && now[i].key == sorted.members[i].key && Stands(now[i], sorted.members[i].value, true))
            && Disjoint(now) && BlocksOf(now) == BlocksOf(was)
  {
    hide Stands, Distinct, SortedNodes, Order, Sort, Disjoint;
    SameOrder(was, t.members, cs);
    NodesFollowOrder(was, cs);
    SortFollowsOrder(t.members, cs);
    var order := Order(t.members, cs);
    assert forall i | 0 <= i < |now| :: now[i] == was[order[i]] && Sort(t.members, cs)[i] == t.members[order[i]];
    DisjointInOrder(was, now, order);
    forall n ensures n in now <==> n in was {
      if n in was {
        var i :| 0 <= i < |was| && was[i] == n;
        assert i in order;
      }
    }
    DistinctPermute(was, now);
    BlocksPermute(was, now);
  }

  lemma DisjointInOrder(was: seq<Node>, now: seq<Node>, order: seq<nat>)
    requires |now| == |was| == |order| && Disjoint(was)
    requires forall i | 0 <= i < |now| :: order[i] < |was| && now[i] == was[order[i]]
    requires forall i, k | 0 <= i < k < |order| :: order[i] != order[k]
    ensures Disjoint(now)
  {
    forall i, k | 0 <= i < k < |now| ensures now[i].repr !! now[k].repr {
      var p, q := order[i], order[k];
      assert now[i] == was[p] && now[k] == was[q] && p != q;
      if p < q { assert was[p].repr !! was[q].repr; } else { assert was[q].repr !! was[p].repr; }
    }
  }

  // ---------- appending and detaching ----------

  lemma DisjointMore(nodes: seq<Node>, n: Node)
    requires Disjoint(nodes) && forall i | 0 <= i < |nodes| :: nodes[i].repr !! n.repr
    ensures Disjoint(nodes + [n])
  {
  }

  lemma DisjointPart(nodes: seq<Node>, part: seq<Node>, at: seq<nat>)
    requires Disjoint(nodes) && |part| == |at|
    requires forall i | 0 <= i < |part| :: at[i] < |nodes| && part[i] == nodes[at[i]]
    requires forall i, k | 0 <= i < k < |at| :: at[i] < at[k]
    ensures Disjoint(part)
  {
    forall i, k | 0 <= i < k < |part| ensures part[i].repr !! part[k].repr {
      assert nodes[at[i]].repr !! nodes[at[k]].repr;
    }
  }

  /** What an append leaves of some nodes and members. */
  lemma AppendedKids(was: seq<Node>, item: Node, t: Json, x: Json)
    requires t.Object? && |was| == |t.members| && Disjoint(was + [item])
    requires Stands(item, x, true)
    requires forall i | 0 <= i < |was| :: was[i].key == t.members[i].key && Stands(was[i], t.members[i].value, true)
    ensures var c, added := Appended(Chain(was, t.link), item), AddedMember(t, Member(item.key, x));
            |c.items| == |added.members| && c.link == added.link && Disjoint(c.items)
            && forall i | 0 <= i < |c.items| ::
                 c.items[i] in was + [item] && c.items[i].key == added.members[i].key
                 && Stands(c.items[i], added.members[i].value, true)
  {
    hide Stands;
    var link, all := Normal(t.link, |was|), was + [item];
    assert forall i | 0 <= i < |was| :: all[i] == was[i];
    match link
    case Right =>
    case To(k) => CutDisjoint(all, was, k, item);
    case _ => FrontDisjoint(all, was);
  }

  lemma FrontDisjoint(all: seq<Node>, front: seq<Node>)
    requires Disjoint(all) && front <= all
    ensures Disjoint(front)
  {
    forall i, k | 0 <= i < k < |front| ensures front[i].repr !! front[k].repr {
      assert front[i] == all[i] && front[k] == all[k];
    }
  }

  lemma CutDisjoint(all: seq<Node>, was: seq<Node>, k: nat, item: Node)
    requires all == was + [item] && Disjoint(all) && k < |was|
    ensures Disjoint(was[..k + 1] + [item])
  {
    var front := was[..k + 1];
    FrontDisjoint(all, front);
    forall i | 0 <= i < |front| ensures front[i].repr !! item.repr {
      assert all[i] == front[i] && all[|was|] == item;
    }
    DisjointMore(front, item);
  }

  /** cJSON_AddItemToObject on a tree; what is cut off or lost does not belong to it any more. */
  method AppendTree(parent: Node, item: Node, ghost t: Json, ghost x: Json) returns (added: bool)
    requires Stands(parent, t, true) && t.Object? && Appendable(t)
    requires Stands(item, x, true) && item in item.repr && item.repr !! parent.repr && item.next == null
    modifies parent`child, parent`kids, parent`repr, parent`blocks, parent.kids`next, parent.kids`prev
    modifies item`next, item`prev
    ensures added && Stands(parent, AddedMember(t, Member(item.key, x)), true)
    ensures parent.repr == old(parent.repr + item.repr)
  {
    hide Stands, Distinct, Linked, LeadsTo, Own, Disjoint, BlocksOf, Appended;
    ghost var was, members := parent.kids, t.members + [Member(item.key, x)];
    ghost var all, grown := was + [item], AddedMember(t, Member(item.key, x));
    ObjectParts(parent, t);
    ToAppend(parent, item, was);
    AllStand(was, item, t, x);
    ghost var repr := parent.repr + item.repr;
    added := parent.AddItemToArray(item, t.link);
    KidsStill((all, members));
    AppendedKids(was, item, t, x);
    Settle(parent, grown, repr);
  }

  /** A parent takes its children for its own again. */
  ghost method Settle(parent: Node, t: Json, repr: set<Node>)
    requires t.Object? && parent in repr && parent.data == Object([]) && |parent.kids| == |t.members|
    requires parent.Holds(t.link) && Disjoint(parent.kids)
    requires forall i | 0 <= i < |parent.kids| ::
               parent.kids[i] in repr - {parent} && parent.kids[i].repr <= repr - {parent}
               && parent.kids[i].key == t.members[i].key && Stands(parent.kids[i], t.members[i].value, true)
    modifies parent`repr, parent`blocks
    ensures Stands(parent, t, true) && parent.repr == repr
  {
    hide Stands, Distinct, Linked, LeadsTo, Own, Disjoint, BlocksOf;
    parent.repr := repr;
    parent.blocks := Own(parent) + BlocksOf(parent.kids);
    ObjectStands(parent, t);
  }

  lemma ToAppend(parent: Node, item: Node, was: seq<Node>)
    requires parent in parent.repr && item in item.repr && item.repr !! parent.repr && Disjoint(was)
    requires forall i | 0 <= i < |was| :: was[i] in parent.repr && was[i].repr <= parent.repr
    ensures item !in was && item != parent && Disjoint(was + [item])
  {
    hide Disjoint;
    DisjointMore(was, item);
  }

  lemma AllStand(was: seq<Node>, item: Node, t: Json, x: Json)
    requires t.Object? && |was| == |t.members| && Stands(item, x, true) && item in item.repr
    requires forall i | 0 <= i < |was| :: was[i] in was[i].repr && Stands(was[i], t.members[i].value, true)
    ensures var all, members := was + [item], t.members + [Member(item.key, x)];
            forall i | 0 <= i < |all| :: all[i] in all[i].repr && Stands(all[i], members[i].value, true)
  {
    hide Stands;
  }

  /** What is left of some nodes and members when one is taken out. */
  lemma LeftKids(was: seq<Node>, t: Json, at: nat)
    requires t.Object? && |was| == |t.members| && at < |was| && Disjoint(was)
    requires forall i | 0 <= i < |was| :: was[i].key == t.members[i].key && Stands(was[i], t.members[i].value, true)
    ensures var now, left := RemoveAt(was, at), RemoveAt(t.members, at);
            |now| == |left| && Disjoint(now)
            && forall i | 0 <= i < |now| ::
                 now[i] in was && now[i].repr !! was[at].repr
                 && now[i].key == left[i].key && Stands(now[i], left[i].value, true)
  {
    hide Stands;
    var now, from := RemoveAt(was, at), seq(|was| - 1, (i: nat) => if i < at then i else i + 1);
    assert forall i | 0 <= i < |now| :: now[i] == was[from[i]];
    DisjointPart(was, now, from);
  }

  /** cJSON_DetachItemViaPointer on a tree. */
  method DetachTree(parent: Node, item: Node, ghost at: nat, ghost t: Json)
    requires Stands(parent, t, true) && t.Object? && at < |parent.kids| && item == parent.kids[at]
    modifies parent`child, parent`kids, parent`repr, parent`blocks, parent.kids`next, parent.kids`prev
    ensures var c := Detached(Chain(t.members, t.link), at); Stands(parent, Object(c.items, c.link), true)
    ensures Stands(item, t.members[at].value, true) && item.repr !! parent.repr
    ensures parent.repr == old(parent.repr - item.repr) && item.next == null && item.prev == null
  {
    hide Stands, Distinct, Linked, LeadsTo, Own, Disjoint, BlocksOf, RemoveAt, LinkWithout;
    ghost var was := parent.kids;
    ObjectParts(parent, t);
    LeftKids(was, t, at);
    ghost var repr := parent.repr - item.repr;
    parent.DetachItemViaPointer(item, at, t.link);
    KidsStill((was, t.members));
    LeftKids(was, t, at);
    ghost var c := Detached(Chain(t.members, t.link), at);
    Settle(parent, Object(c.items, c.link), repr);
  }

  /** Sorting an object can break its list; whatever is appended to a duplicate of it is there all the same, behind
      the sorted members. There is no duplicate, and the heap is as it was, when memory is refused. */
  method SortThenAppendToDuplicate(heap: Parsing.Heap, parent: Node, item: Node, caseSensitive: bool, ghost t: Json,
                                   ghost x: Json)
    returns (copy: Node?)
    requires heap.Valid() && Stands(parent, t, true) && t.Object?
    requires Stands(item, x, true) && item in item.repr && item.repr !! parent.repr && item.next == null
    modifies heap, parent`child, parent`kids, parent.kids`next, parent.kids`prev, item`next, item`prev
    ensures copy == null ==> heap.live == old(heap.live) && heap.refused
    ensures copy != null ==>
              Stands(copy, Object(RelinkedMembers(Sort(t.members, caseSensitive)) + [Member(item.key, x)]), true)
  {
    hide Stands, Distinct, Linked, LeadsTo, Own, Disjoint, BlocksOf, Parsing.Heap.Valid, Sort, Order;
    ObjectParts(parent, t);
    SortTree(parent, caseSensitive, t);
    ghost var sorted := SortedObject(t, caseSensitive);
    StandsAnyhow(parent, sorted);
    copy := Duplicate(heap, parent, sorted);
    if copy != null {
      ObjectParts(copy, Relinked(sorted));
      var _ := AppendTree(copy, item, Relinked(sorted), x);
    }
  }
}
