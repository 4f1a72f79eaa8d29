/** The merge sort of object members as a function on sequences. LinkedSort does the same by
    rewiring nodes; the comparison and diff code uses it through sort_object. */
module Sorting {
  import opened CStrings
  import opened JsonTrees
  import opened SiblingLinks

  predicate Sorted<T>(s: seq<Member<T>>, cs: bool) {
    forall i, j | 0 <= i < j < |s| :: Cmp(s[i].key, s[j].key, cs) <= 0
  }

  /** The test with which the sort recognises a list it can leave alone. */
  predicate StrictlyIncreasing<T>(s: seq<Member<T>>, cs: bool) {
    forall i | 0 <= i < |s| - 1 :: Cmp(s[i].key, s[i + 1].key, cs) < 0
  }

  /** Ties are taken from the second list, as the strict comparison of the source does. */
  function MergeSorted<T>(a: seq<Member<T>>, b: seq<Member<T>>, cs: bool): (r: seq<Member<T>>)
    ensures |r| == |a| + |b|
  {
    if a == [] then b
    else if b == [] then a
    else if Cmp(a[0].key, b[0].key, cs) < 0 then [a[0]] + MergeSorted(a[1..], b, cs)
    else [b[0]] + MergeSorted(a, b[1..], cs)
  }

  /** The first half holds the middle element of a list of odd length. */
  function Sort<T>(s: seq<Member<T>>, cs: bool): (r: seq<Member<T>>)
    ensures |r| == |s|
    decreases |s|
  {
    if |s| < 2 || StrictlyIncreasing(s, cs) then s
    else
      var mid := (|s| + 1) / 2;
      MergeSorted(Sort(s[..mid], cs), Sort(s[mid..], cs), cs)
  }

  lemma {:induction false} MergePermutes<T>(a: seq<Member<T>>, b: seq<Member<T>>, cs: bool)
    ensures multiset(MergeSorted(a, b, cs)) == multiset(a) + multiset(b)
  {
    if a != [] && b != [] {
      assert a == [a[0]] + a[1..] && b == [b[0]] + b[1..];
      if Cmp(a[0].key, b[0].key, cs) < 0 {
        MergePermutes(a[1..], b, cs);
      } else {
        MergePermutes(a, b[1..], cs);
      }
    }
  }

  lemma {:induction false} MergeMembers<T>(a: seq<Member<T>>, b: seq<Member<T>>, m: Member<T>, cs: bool)
    ensures m in MergeSorted(a, b, cs) <==> m in a || m in b
  {
    MergePermutes(a, b, cs);
    assert m in MergeSorted(a, b, cs) <==> m in multiset(MergeSorted(a, b, cs));
    assert m in a <==> m in multiset(a);
    assert m in b <==> m in multiset(b);
  }

  lemma {:induction false} MergeSorts<T>(a: seq<Member<T>>, b: seq<Member<T>>, cs: bool)
    requires Sorted(a, cs) && Sorted(b, cs)
    ensures Sorted(MergeSorted(a, b, cs), cs)
  {
    if a != [] && b != [] {
      if Cmp(a[0].key, b[0].key, cs) < 0 {
        MergeSorts(a[1..], b, cs);
        MergeHead(a, b, a[0], a[1..], b, cs);
      } else {
        MergeSorts(a, b[1..], cs);
        CmpFlip(a[0].key, b[0].key, cs);
        MergeHead(a, b, b[0], a, b[1..], cs);
      }
    }
  }

  /** The smaller head goes in front of the merge of what is left. */
  lemma MergeHead<T>(a: seq<Member<T>>, b: seq<Member<T>>, head: Member<T>,
                     restA: seq<Member<T>>, restB: seq<Member<T>>, cs: bool)
    requires a != [] && b != [] && Sorted(a, cs) && Sorted(b, cs)
    requires head == a[0] || head == b[0]
    requires Cmp(head.key, a[0].key, cs) <= 0 || head == a[0]
    requires Cmp(head.key, b[0].key, cs) <= 0 || head == b[0]
    requires restA == a || restA == a[1..]
    requires restB == b || restB == b[1..]
    requires Sorted(MergeSorted(restA, restB, cs), cs)
    ensures Sorted([head] + MergeSorted(restA, restB, cs), cs)
  {
    var rest := MergeSorted(restA, restB, cs);
    forall k | 0 <= k < |rest|
      ensures Cmp(head.key, rest[k].key, cs) <= 0
    {
      MergeMembers(restA, restB, rest[k], cs);
      HeadBelow(a, b, head, rest[k], cs);
    }
  }

  /** The smaller of two heads is below everything in both sorted lists. */
  lemma HeadBelow<T>(a: seq<Member<T>>, b: seq<Member<T>>, head: Member<T>, m: Member<T>, cs: bool)
    requires a != [] && b != [] && Sorted(a, cs) && Sorted(b, cs)
    requires head == a[0] || head == b[0]
    requires Cmp(head.key, a[0].key, cs) <= 0 || head == a[0]
    requires Cmp(head.key, b[0].key, cs) <= 0 || head == b[0]
    requires m in a || m in b
    ensures Cmp(head.key, m.key, cs) <= 0
  {
    CmpZero(m.key, m.key, cs);
    if m in a {
      var i :| 0 <= i < |a| && a[i] == m;
      if head != a[0] && i > 0 { CmpTransitive(head.key, a[0].key, m.key, cs); }
    } else {
      var i :| 0 <= i < |b| && b[i] == m;
      if head != b[0] && i > 0 { CmpTransitive(head.key, b[0].key, m.key, cs); }
    }
  }

  lemma {:induction false} IncreasingIsSorted<T>(s: seq<Member<T>>, cs: bool)
    requires StrictlyIncreasing(s, cs)
    ensures forall i, j | 0 <= i < j < |s| :: Cmp(s[i].key, s[j].key, cs) < 0
    ensures Sorted(s, cs)
  {
    forall i, j | 0 <= i < j < |s|
      ensures Cmp(s[i].key, s[j].key, cs) < 0
    {
      IncreasingFrom(s, i, j, cs);
    }
  }

  lemma {:induction false} IncreasingFrom<T>(s: seq<Member<T>>, i: nat, j: nat, cs: bool)
    requires StrictlyIncreasing(s, cs) && i < j < |s|
    ensures Cmp(s[i].key, s[j].key, cs) < 0
    decreases j
  {
    if i < j - 1 {
      IncreasingFrom(s, i, j - 1, cs);
      CmpTransitive(s[i].key, s[j - 1].key, s[j].key, cs);
    }
  }

  lemma {:induction false} SortPermutes<T>(s: seq<Member<T>>, cs: bool)
    ensures multiset(Sort(s, cs)) == multiset(s)
    decreases |s|
  {
    if |s| >= 2 && !StrictlyIncreasing(s, cs) {
      var mid := (|s| + 1) / 2;
      var l, r := s[..mid], s[mid..];
      assert multiset(s) == multiset(l) + multiset(r) by { assert s == l + r; }
      SortPermutes(l, cs);
      SortPermutes(r, cs);
      MergePermutes(Sort(l, cs), Sort(r, cs), cs);
    }
  }

  lemma {:induction false} SortSorts<T>(s: seq<Member<T>>, cs: bool)
    ensures Sorted(Sort(s, cs), cs)
    decreases |s|
  {
    if |s| >= 2 {
      if StrictlyIncreasing(s, cs) {
        IncreasingIsSorted(s, cs);
      } else {
        var mid := (|s| + 1) / 2;
        SortSorts(s[..mid], cs);
        SortSorts(s[mid..], cs);
        MergeSorts(Sort(s[..mid], cs), Sort(s[mid..], cs), cs);
      }
    }
  }

  /** Sorting returns the same members, in order. */
  lemma {:induction false} SortCorrect<T>(s: seq<Member<T>>, cs: bool)
    ensures multiset(Sort(s, cs)) == multiset(s)
    ensures Sorted(Sort(s, cs), cs)
    ensures forall m :: m in Sort(s, cs) <==> m in s
  {
    SortPermutes(s, cs);
    SortSorts(s, cs);
    forall m ensures m in Sort(s, cs) <==> m in s {
      assert m in Sort(s, cs) <==> m in multiset(Sort(s, cs));
      assert m in s <==> m in multiset(s);
    }
  }

  /** Sorting an object changes the order of its members and nothing else. */
  lemma {:induction false} SortKeepsMeaning(ms: seq<Member<Json>>, cs: bool)
    requires DistinctKeys(ms, cs)
    ensures DistinctKeys(Sort(ms, cs), cs)
    ensures AbsMembers(Sort(ms, cs), cs) == AbsMembers(ms, cs)
  {
    SortCorrect(ms, cs);
    AbsPermutation(ms, Sort(ms, cs), cs);
  }

  // ----- The order that the sort makes, and what it does to the link -----

  function Numbered<T>(ms: seq<Member<T>>): (ns: seq<Member<nat>>)
    ensures |ns| == |ms| && forall i | 0 <= i < |ms| :: ns[i] == Member(ms[i].key, i)
  {
    seq(|ms|, i requires 0 <= i < |ms| => Member(ms[i].key, i))
  }

  /** The old positions of the sorted members. */
  function Order<T>(ms: seq<Member<T>>, cs: bool): (order: seq<nat>)
    ensures |order| == |ms|
  {
    var ns := Sort(Numbered(ms), cs);
    seq(|ms|, i requires 0 <= i < |ms| => ns[i].value)
  }

  /** sort_object: the members in order, and the link from the first to the last as it happens to be then. */
  function SortedObject(j: Json, cs: bool): (r: Json)
    requires j.Object?
    ensures r.Object?
  {
    Object(Sort(j.members, cs), LinkInOrder(j.link, Order(j.members, cs)))
  }

  ghost predicate Numbers<T>(ns: seq<Member<nat>>, ms: seq<Member<T>>, all: seq<Member<T>>) {
    |ns| == |ms|
    && forall i | 0 <= i < |ns| :: ns[i].value < |all| && ms[i] == all[ns[i].value] && ns[i].key == ms[i].key
  }

  lemma {:induction false} MergeNumbers<T>(na: seq<Member<nat>>, nb: seq<Member<nat>>,
                                           a: seq<Member<T>>, b: seq<Member<T>>, all: seq<Member<T>>, cs: bool)
    requires Numbers(na, a, all) && Numbers(nb, b, all)
    ensures Numbers(MergeSorted(na, nb, cs), MergeSorted(a, b, cs), all)
    decreases |a| + |b|
  {
    hide Cmp, Numbers;
    if na != [] { NumbersHead(na, a, all); }
    if nb != [] { NumbersHead(nb, b, all); }
    SameLength(na, a, all);
    SameLength(nb, b, all);
    if a != [] && b != [] {
      if Cmp(a[0].key, b[0].key, cs) < 0 {
        MergeNumbers(na[1..], nb, a[1..], b, all, cs);
        NumbersCons(na[0], a[0], MergeSorted(na[1..], nb, cs), MergeSorted(a[1..], b, cs), all);
      } else {
        MergeNumbers(na, nb[1..], a, b[1..], all, cs);
        NumbersCons(nb[0], b[0], MergeSorted(na, nb[1..], cs), MergeSorted(a, b[1..], cs), all);
      }
    }
  }

  lemma SameLength<T>(ns: seq<Member<nat>>, ms: seq<Member<T>>, all: seq<Member<T>>)
    requires Numbers(ns, ms, all)
    ensures |ns| == |ms|
  {
  }

  lemma NumbersHead<T>(ns: seq<Member<nat>>, ms: seq<Member<T>>, all: seq<Member<T>>)
    requires ns != [] && Numbers(ns, ms, all)
    ensures ms != [] && Numbers(ns[1..], ms[1..], all)
    ensures ns[0].value < |all| && ms[0] == all[ns[0].value] && ns[0].key == ms[0].key
  {
  }

  lemma NumbersCons<T>(n: Member<nat>, m: Member<T>, ns: seq<Member<nat>>, ms: seq<Member<T>>, all: seq<Member<T>>)
    requires Numbers(ns, ms, all) && n.value < |all| && m == all[n.value] && n.key == m.key
    ensures Numbers([n] + ns, [m] + ms, all)
  {
  }

  lemma SameIncreasing<T>(ns: seq<Member<nat>>, ms: seq<Member<T>>, all: seq<Member<T>>, cs: bool)
    requires Numbers(ns, ms, all)
    ensures |ns| == |ms| && (StrictlyIncreasing(ns, cs) <==> StrictlyIncreasing(ms, cs))
  {
    hide Cmp;
    assert forall i | 0 <= i < |ms| - 1 :: Cmp(ns[i].key, ns[i + 1].key, cs) == Cmp(ms[i].key, ms[i + 1].key, cs);
  }

  lemma HalvesNumber<T>(ns: seq<Member<nat>>, ms: seq<Member<T>>, all: seq<Member<T>>, mid: nat)
    requires Numbers(ns, ms, all) && mid <= |ms|
    ensures Numbers(ns[..mid], ms[..mid], all) && Numbers(ns[mid..], ms[mid..], all)
  {
  }

  lemma SortUnfolds<T>(s: seq<Member<T>>, cs: bool)
    ensures var mid := (|s| + 1) / 2;
            Sort(s, cs) == if |s| < 2 || StrictlyIncreasing(s, cs) then s
                           else MergeSorted(Sort(s[..mid], cs), Sort(s[mid..], cs), cs)
  {
    hide MergeSorted, StrictlyIncreasing;
  }

  lemma {:induction false} SortNumbers<T>(ns: seq<Member<nat>>, ms: seq<Member<T>>, all: seq<Member<T>>, cs: bool)
    requires Numbers(ns, ms, all)
    ensures Numbers(Sort(ns, cs), Sort(ms, cs), all)
    decreases |ms|
  {
    hide Numbers, StrictlyIncreasing, Sort, MergeSorted;
    SameIncreasing(ns, ms, all, cs);
    SortUnfolds(ns, cs);
    SortUnfolds(ms, cs);
    if |ms| >= 2 && !StrictlyIncreasing(ms, cs) {
      var mid := (|ms| + 1) / 2;
      HalvesNumber(ns, ms, all, mid);
      SortNumbers(ns[..mid], ms[..mid], all, cs);
      SortNumbers(ns[mid..], ms[mid..], all, cs);
      MergeNumbers(Sort(ns[..mid], cs), Sort(ns[mid..], cs), Sort(ms[..mid], cs), Sort(ms[mid..], cs), all, cs);
    }
  }

  /** The order says where every member comes from, and every member is in it. */
  lemma SortFollowsOrder<T>(ms: seq<Member<T>>, cs: bool)
    ensures var order := Order(ms, cs);
            (forall i | 0 <= i < |ms| :: order[i] < |ms| && Sort(ms, cs)[i] == ms[order[i]])
            && (forall i | 0 <= i < |ms| :: i in order)
            && (forall i, k | 0 <= i < k < |ms| :: order[i] != order[k])
  {
    hide Sort;
    var ns, order := Numbered(ms), Order(ms, cs);
    SortNumbers(ns, ms, ms, cs);
    SortPermutes(ns, cs);
    forall i | 0 <= i < |ms| ensures i in order {
      assert ns[i] in multiset(Sort(ns, cs));
      var k :| 0 <= k < |ms| && Sort(ns, cs)[k] == ns[i];
      assert order[k] == i;
    }
    forall i, k | 0 <= i < k < |ms| ensures order[i] != order[k] {
      OrderOnce(ms, i, k, cs);
    }
  }

  lemma TwiceIn<T>(s: seq<T>, i: nat, k: nat)
    requires i < k < |s| && s[i] == s[k]
    ensures multiset(s)[s[i]] >= 2
  {
    assert s == s[..i] + [s[i]] + s[i + 1..k] + [s[k]] + s[k + 1..];
  }

  lemma OrderOnce<T>(ms: seq<Member<T>>, i: nat, k: nat, cs: bool)
    requires i < k < |ms|
    ensures Order(ms, cs)[i] != Order(ms, cs)[k]
  {
    hide Sort;
    var ns := Numbered(ms);
    var s := Sort(ns, cs);
    SortNumbers(ns, ms, ms, cs);
    SortPermutes(ns, cs);
    if s[i].value == s[k].value {
      assert s[i] == s[k];
      TwiceIn(s, i, k);
      NumberedOnce(ms, s[i]);
    }
  }

  lemma NumberedOnce<T>(ms: seq<Member<T>>, n: Member<nat>)
    ensures multiset(Numbered(ms))[n] <= 1
  {
    NumbersOnce(Numbered(ms), 0, n);
  }

  lemma {:induction false} NumbersOnce(ns: seq<Member<nat>>, from: nat, n: Member<nat>)
    requires forall i | 0 <= i < |ns| :: ns[i].value == from + i
    ensures multiset(ns)[n] <= 1 && (n.value < from ==> multiset(ns)[n] == 0)
    decreases ns
  {
    if ns != [] {
      assert ns == [ns[0]] + ns[1..];
      NumbersOnce(ns[1..], from + 1, n);
    }
  }

  // ----- Short lists -----

  lemma SortTwo<T>(f: Member<T>, g: Member<T>, cs: bool)
    ensures Sort([f, g], cs) == if Cmp(f.key, g.key, cs) < 0 then [f, g] else [g, f]
  {
    hide Cmp, Sort, MergeSorted;
    var s := [f, g];
    assert s[..1] == [f] && s[1..] == [g];
    SortUnfolds(s, cs);
    SortUnfolds([f], cs);
    SortUnfolds([g], cs);
    assert StrictlyIncreasing(s, cs) <==> Cmp(s[0].key, s[1].key, cs) < 0;
    MergeOnes(f, g, cs);
  }

  lemma MergeOnes<T>(f: Member<T>, g: Member<T>, cs: bool)
    ensures MergeSorted([f], [g], cs) == if Cmp(f.key, g.key, cs) < 0 then [f, g] else [g, f]
  {
    hide Cmp;
    assert [f][1..] == [] && [g][1..] == [];
    assert MergeSorted([f], [], cs) == [f] && MergeSorted([], [g], cs) == [g];
  }

  /** Three members whose third belongs last, after the other two have changed places. */
  lemma SortSwapped<T>(f: Member<T>, g: Member<T>, h: Member<T>, cs: bool)
    requires Cmp(f.key, g.key, cs) < 0 && Cmp(g.key, h.key, cs) < 0
    ensures Sort([g, f, h], cs) == [f, g, h]
  {
    hide Cmp, Sort, MergeSorted;
    var s := [g, f, h];
    CmpFlip(f.key, g.key, cs);
    CmpTransitive(f.key, g.key, h.key, cs);
    assert s[..2] == [g, f] && s[2..] == [h];
    SortUnfolds(s, cs);
    SortUnfolds([h], cs);
    SortTwo(g, f, cs);
    assert Cmp(s[0].key, s[1].key, cs) >= 0;
    MergeBehind(f, g, h, cs);
  }

  /** Three members whose third belongs in the middle: the first one stays. */
  lemma SortMiddle<T>(f: Member<T>, g: Member<T>, h: Member<T>, cs: bool)
    requires Cmp(f.key, g.key, cs) < 0 && Cmp(g.key, h.key, cs) < 0
    ensures Sort([f, h, g], cs) == [f, g, h]
  {
    hide Cmp, Sort, MergeSorted;
    var s := [f, h, g];
    CmpFlip(g.key, h.key, cs);
    CmpTransitive(f.key, g.key, h.key, cs);
    assert s[..2] == [f, h] && s[2..] == [g];
    SortUnfolds(s, cs);
    SortUnfolds([g], cs);
    SortTwo(f, h, cs);
    assert Cmp(s[1].key, s[2].key, cs) >= 0;
    MergeBetween(f, g, h, cs);
  }

  lemma MergeBehind<T>(f: Member<T>, g: Member<T>, h: Member<T>, cs: bool)
    requires Cmp(f.key, h.key, cs) < 0 && Cmp(g.key, h.key, cs) < 0
    ensures MergeSorted([f, g], [h], cs) == [f, g, h]
  {
    hide Cmp;
    assert [f, g][1..] == [g];
    MergeOnes(g, h, cs);
  }

  lemma MergeBetween<T>(f: Member<T>, g: Member<T>, h: Member<T>, cs: bool)
    requires Cmp(f.key, g.key, cs) < 0 && Cmp(h.key, g.key, cs) >= 0
    ensures MergeSorted([f, h], [g], cs) == [f, g, h]
  {
    hide Cmp;
    assert [f, h][1..] == [h];
    MergeOnes(h, g, cs);
  }

  // ----- Members with the same key -----

  function Reversed<T>(s: seq<T>): (r: seq<T>)
    ensures |r| == |s|
  {
    if s == [] then [] else Reversed(s[1..]) + [s[0]]
  }

  /** The members whose key counts as `key`, in their order. */
  function WithKey<T>(s: seq<Member<T>>, key: Str, cs: bool): seq<Member<T>> {
    if s == [] then []
    else (if Cmp(s[0].key, key, cs) == 0 then [s[0]] else []) + WithKey(s[1..], key, cs)
  }

  lemma WithKeyStep<T>(s: seq<Member<T>>, key: Str, cs: bool)
    requires s != []
    ensures WithKey(s, key, cs) == (if Cmp(s[0].key, key, cs) == 0 then [s[0]] else []) + WithKey(s[1..], key, cs)
  {
  }

  lemma {:induction false} WithKeyParts<T>(a: seq<Member<T>>, b: seq<Member<T>>, key: Str, cs: bool)
    ensures WithKey(a + b, key, cs) == WithKey(a, key, cs) + WithKey(b, key, cs)
    decreases |a|
  {
    if a == [] {
      assert a + b == b && [] + WithKey(b, key, cs) == WithKey(b, key, cs);
    } else {
      hide Cmp, WithKey;
      DropHead(a, b);
      WithKeyStep(a, key, cs);
      WithKeyStep(a + b, key, cs);
      WithKeyParts(a[1..], b, key, cs);
      Assoc(if Cmp(a[0].key, key, cs) == 0 then [a[0]] else [], WithKey(a[1..], key, cs), WithKey(b, key, cs));
    }
  }

  lemma {:induction false} ReversedParts<T>(a: seq<T>, b: seq<T>)
    ensures Reversed(a + b) == Reversed(b) + Reversed(a)
    decreases |a|
  {
    if a == [] {
      assert a + b == b;
    } else {
      DropHead(a, b);
      ReversedParts(a[1..], b);
    }
  }

  /** Nothing in a sorted list has a smaller key than the first. */
  lemma {:induction false} NoSmaller<T>(s: seq<Member<T>>, key: Str, cs: bool)
    requires Sorted(s, cs) && s != [] && Cmp(key, s[0].key, cs) < 0
    ensures WithKey(s, key, cs) == []
    decreases |s|
  {
    CmpFlip(key, s[0].key, cs);
    if |s| > 1 {
      CmpTransitive(key, s[0].key, s[1].key, cs);
      NoSmaller(s[1..], key, cs);
    }
  }

  lemma SortedRest<T>(s: seq<Member<T>>, cs: bool)
    requires Sorted(s, cs) && s != []
    ensures Sorted(s[1..], cs)
  {
    hide Cmp;
  }

  lemma NothingInFront<T>(s: seq<T>)
    ensures [] + s == s
  {
  }

  lemma MergeNothing<T>(a: seq<Member<T>>, b: seq<Member<T>>, key: Str, cs: bool)
    requires a == [] || b == []
    ensures WithKey(MergeSorted(a, b, cs), key, cs) == WithKey(b, key, cs) + WithKey(a, key, cs)
  {
    hide Cmp;
  }

  lemma MergeHeads<T>(a: seq<Member<T>>, b: seq<Member<T>>, cs: bool)
    requires a != [] && b != []
    ensures MergeSorted(a, b, cs)
            == if Cmp(a[0].key, b[0].key, cs) < 0 then [a[0]] + MergeSorted(a[1..], b, cs)
               else [b[0]] + MergeSorted(a, b[1..], cs)
  {
    hide Cmp;
  }

  lemma HeadWithKey<T>(m: Member<T>, s: seq<Member<T>>, key: Str, cs: bool)
    ensures WithKey([m] + s, key, cs) == (if Cmp(m.key, key, cs) == 0 then [m] else []) + WithKey(s, key, cs)
  {
    hide Cmp;
    assert ([m] + s)[1..] == s;
  }

  /** Merging takes the members of one key from the second list first. */
  lemma {:induction false} MergeTies<T>(a: seq<Member<T>>, b: seq<Member<T>>, key: Str, cs: bool)
    requires Sorted(a, cs) && Sorted(b, cs)
    ensures WithKey(MergeSorted(a, b, cs), key, cs) == WithKey(b, key, cs) + WithKey(a, key, cs)
    decreases |a| + |b|
  {
    if a == [] || b == [] {
      MergeNothing(a, b, key, cs);
    } else {
      hide Cmp, WithKey, MergeSorted, Sorted;
      SortedRest(a, cs);
      SortedRest(b, cs);
      MergeHeads(a, b, cs);
      WithKeyStep(a, key, cs);
      WithKeyStep(b, key, cs);
      if Cmp(a[0].key, b[0].key, cs) < 0 {
        MergeTies(a[1..], b, key, cs);
        HeadWithKey(a[0], MergeSorted(a[1..], b, cs), key, cs);
        if Cmp(a[0].key, key, cs) == 0 {
          SameKeyBelow(a[0].key, key, b[0].key, cs);
          NoSmaller(b, key, cs);
          NothingInFront(WithKey(a, key, cs));
          NothingInFront(WithKey(a[1..], key, cs));
        } else {
          NothingInFront(WithKey(a[1..], key, cs));
          NothingInFront(WithKey(MergeSorted(a[1..], b, cs), key, cs));
        }
      } else {
        MergeTies(a, b[1..], key, cs);
        HeadWithKey(b[0], MergeSorted(a, b[1..], cs), key, cs);
        Assoc(if Cmp(b[0].key, key, cs) == 0 then [b[0]] else [], WithKey(b[1..], key, cs), WithKey(a, key, cs));
      }
    }
  }

  lemma SameKeyBelow(a: Str, key: Str, b: Str, cs: bool)
    requires Cmp(a, key, cs) == 0 && Cmp(a, b, cs) < 0
    ensures Cmp(key, b, cs) < 0
  {
    CmpFlip(a, key, cs);
    CmpTransitive(key, a, b, cs);
  }

  /** The sort turns the members of one key around. With SortCorrect this says what the sort returns. */
  lemma {:induction false} TiesReversed<T>(s: seq<Member<T>>, key: Str, cs: bool)
    ensures WithKey(Sort(s, cs), key, cs) == Reversed(WithKey(s, key, cs))
    decreases |s|
  {
    hide Cmp;
    if |s| < 2 {
    } else if StrictlyIncreasing(s, cs) {
      OneOfKey(s, key, cs);
    } else {
      var mid := (|s| + 1) / 2;
      var l, r := s[..mid], s[mid..];
      assert s == l + r;
      TiesReversed(l, key, cs);
      TiesReversed(r, key, cs);
      SortSorts(l, cs);
      SortSorts(r, cs);
      MergeTies(Sort(l, cs), Sort(r, cs), key, cs);
      WithKeyParts(l, r, key, cs);
      ReversedParts(WithKey(l, key, cs), WithKey(r, key, cs));
    }
  }

  lemma {:induction false} OneOfKey<T>(s: seq<Member<T>>, key: Str, cs: bool)
    requires StrictlyIncreasing(s, cs)
    ensures |WithKey(s, key, cs)| <= 1 && Reversed(WithKey(s, key, cs)) == WithKey(s, key, cs)
    decreases |s|
  {
    hide Cmp;
    if s != [] {
      assert StrictlyIncreasing(s[1..], cs) by {
        forall i | 0 <= i < |s[1..]| - 1 ensures Cmp(s[1..][i].key, s[1..][i + 1].key, cs) < 0 {
          assert Cmp(s[i + 1].key, s[i + 2].key, cs) < 0;
        }
      }
      OneOfKey(s[1..], key, cs);
      if |s| > 1 && Cmp(s[0].key, key, cs) == 0 {
        SameKeyBelow(s[0].key, key, s[1].key, cs);
        IncreasingIsSorted(s[1..], cs);
        NoSmaller(s[1..], key, cs);
      }
    }
  }

  /** Two sorted lists with the same members of every key are the same. */
  lemma {:induction false} SortedIsUnique<T>(a: seq<Member<T>>, b: seq<Member<T>>, cs: bool)
    requires Sorted(a, cs) && Sorted(b, cs) && forall key :: WithKey(a, key, cs) == WithKey(b, key, cs)
    ensures a == b
    decreases |a|
  {
    if a == [] {
      if b != [] { FirstWithKey(b, cs); }
    } else {
      HeadsAgree(a, b, cs);
      forall key ensures WithKey(a[1..], key, cs) == WithKey(b[1..], key, cs) {
        assert WithKey(a, key, cs) == WithKey(b, key, cs);
        WithKeyRest(a, key, cs);
        WithKeyRest(b, key, cs);
      }
      SortedIsUnique(a[1..], b[1..], cs);
      assert a == [a[0]] + a[1..] && b == [b[0]] + b[1..];
    }
  }

  lemma WithKeyRest<T>(s: seq<Member<T>>, key: Str, cs: bool)
    requires s != []
    ensures var all := WithKey(s, key, cs);
            if Cmp(s[0].key, key, cs) == 0 then all != [] && WithKey(s[1..], key, cs) == all[1..]
            else WithKey(s[1..], key, cs) == all
  {
    hide Cmp;
  }

  lemma FirstWithKey<T>(s: seq<Member<T>>, cs: bool)
    requires s != []
    ensures WithKey(s, s[0].key, cs) != [] && WithKey(s, s[0].key, cs)[0] == s[0]
  {
    CmpZero(s[0].key, s[0].key, cs);
  }

  lemma HeadsAgree<T>(a: seq<Member<T>>, b: seq<Member<T>>, cs: bool)
    requires Sorted(a, cs) && Sorted(b, cs) && (forall key :: WithKey(a, key, cs) == WithKey(b, key, cs)) && a != []
    ensures b != [] && a[0] == b[0]
  {
    FirstWithKey(a, cs);
    assert b != [] by { NoneWithKey<T>(a[0].key, cs); }
    hide Cmp, WithKey;
    FirstWithKey(b, cs);
    if Cmp(a[0].key, b[0].key, cs) < 0 { NoSmaller(b, a[0].key, cs); }
    CmpFlip(a[0].key, b[0].key, cs);
    if Cmp(b[0].key, a[0].key, cs) < 0 { NoSmaller(a, b[0].key, cs); }
    CmpFlip(b[0].key, a[0].key, cs);
    SameClass(b, b[0].key, a[0].key, cs);
  }

  lemma NoneWithKey<T>(key: Str, cs: bool)
    ensures var none: seq<Member<T>> := []; WithKey(none, key, cs) == []
  {
  }

  lemma {:induction false} SameClass<T>(s: seq<Member<T>>, x: Str, y: Str, cs: bool)
    requires Cmp(x, y, cs) == 0
    ensures WithKey(s, x, cs) == WithKey(s, y, cs)
  {
    hide Cmp;
    if s != [] {
      CmpZero(x, y, cs);
      CmpZero(s[0].key, x, cs);
      CmpZero(s[0].key, y, cs);
      SameClass(s[1..], x, y, cs);
    }
  }

  /** What the sort returns: the members in order, those of the same key turned around. Nothing else is such a list. */
  lemma SortExactly<T>(s: seq<Member<T>>, r: seq<Member<T>>, cs: bool)
    ensures Sorted(Sort(s, cs), cs) && forall key :: WithKey(Sort(s, cs), key, cs) == Reversed(WithKey(s, key, cs))
    ensures Sorted(r, cs) && (forall key :: WithKey(r, key, cs) == Reversed(WithKey(s, key, cs))) ==> r == Sort(s, cs)
  {
    hide Sort, Sorted, Cmp;
    SortSorts(s, cs);
    forall key ensures WithKey(Sort(s, cs), key, cs) == Reversed(WithKey(s, key, cs)) { TiesReversed(s, key, cs); }
    if Sorted(r, cs) && forall key :: WithKey(r, key, cs) == Reversed(WithKey(s, key, cs)) {
      SortedIsUnique(r, Sort(s, cs), cs);
    }
  }
}
