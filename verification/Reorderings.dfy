/** Trees that differ only in the order of members and in their links: what compare_json leaves of its two
    arguments, and what a duplicate is of its original. */
module Reorderings {
  import opened CStrings
  import opened JsonTrees
  import opened SiblingLinks
  import opened Sorting
  import opened Comparing
  import opened Vocabularies

  /** The same tree up to the order of members and links. */
  ghost predicate Reordered(a: Json, b: Json)
    decreases a
  {
    SameType(a, b) &&
    match a
    case Array(es) => |es| == |b.elems| && forall i | 0 <= i < |es| :: Reordered(es[i], b.elems[i])
    case Object(ms, _) => exists part: seq<Member<Json>> :: Rearranged(a, part, b.members)
    case _ => a == b
  }

  /** A permutation of the members, with every value reordered in its place. */
  ghost predicate Rearranged(owner: Json, part: seq<Member<Json>>, ns: seq<Member<Json>>)
    requires owner.Object?
    decreases owner, 0
  {
    multiset(part) == multiset(owner.members) && |part| == |ns|
    && (forall m | m in part :: m in owner.members)
    && forall i | 0 <= i < |part| ::
         part[i].value < owner && part[i].key == ns[i].key && Reordered(part[i].value, ns[i].value)
  }

  /** Reordering keeps the meaning and the vocabulary, in any mode. */
  lemma {:induction false} ReorderedMeans(a: Json, b: Json, keys: iset<Str>, cs: bool)
    requires Reordered(a, b) && Fits(a, keys, cs)
    ensures Fits(b, keys, cs) && Abs(b, cs) == Abs(a, cs)
    decreases a
  {
    match a {
      case Array(es) =>
        forall i | 0 <= i < |es| ensures Fits(b.elems[i], keys, cs) && Abs(b.elems[i], cs) == Abs(es[i], cs) {
          assert es[i] in es;
          ReorderedMeans(es[i], b.elems[i], keys, cs);
        }
        assert AbsElems(b.elems, cs) == AbsElems(es, cs);
      case Object(ms, _) =>
        var part: seq<Member<Json>> :| Rearranged(a, part, b.members);
        RearrangedMeans(a, part, b, keys, cs);
      case _ =>
    }
  }

  lemma {:induction false} RearrangedMeans(a: Json, part: seq<Member<Json>>, b: Json, keys: iset<Str>, cs: bool)
    requires a.Object? && b.Object? && Rearranged(a, part, b.members) && Fits(a, keys, cs)
    ensures Fits(b, keys, cs) && Abs(b, cs) == Abs(a, cs)
    decreases a, 0
  {
    hide AbsMembers, Norm;
    AbsPermutation(a.members, part, cs);
    forall i | 0 <= i < |part|
      ensures b.members[i].key in keys
      ensures Fits(b.members[i].value, keys, cs) && Abs(b.members[i].value, cs) == Abs(part[i].value, cs)
    {
      assert part[i] in part;
      ReorderedMeans(part[i].value, b.members[i].value, keys, cs);
    }
    SameValues(part, b.members, cs);
    ObjectAbs(a, cs);
    ObjectAbs(b, cs);
  }

  lemma {:induction false} SameValues(xs: seq<Member<Json>>, ys: seq<Member<Json>>, cs: bool)
    requires |xs| == |ys|
    requires forall i | 0 <= i < |xs| :: xs[i].key == ys[i].key && Abs(xs[i].value, cs) == Abs(ys[i].value, cs)
    ensures AbsMembers(xs, cs) == AbsMembers(ys, cs)
    ensures DistinctKeys(xs, cs) ==> DistinctKeys(ys, cs)
    decreases xs
  {
    hide Abs, Norm;
    if xs != [] { SameValues(xs[1..], ys[1..], cs); }
  }

  lemma {:induction false} ReorderedSelf(a: Json)
    ensures Reordered(a, a)
    decreases a
  {
    match a {
      case Array(es) =>
        forall i | 0 <= i < |es| ensures Reordered(es[i], es[i]) { ReorderedSelf(es[i]); }
      case Object(ms, _) =>
        forall i | 0 <= i < |ms| ensures ms[i].value < a && Reordered(ms[i].value, ms[i].value) {
          assert ms[i] in ms;
          ReorderedSelf(ms[i].value);
        }
        assert Rearranged(a, ms, ms);
      case _ =>
    }
  }

  /** A duplicate has the same order and other links. */
  lemma {:induction false} RelinkedReorders(a: Json)
    ensures Reordered(a, Relinked(a))
    decreases a
  {
    match a {
      case Array(es) =>
        forall i | 0 <= i < |es| ensures Reordered(es[i], Relinked(es[i])) { RelinkedReorders(es[i]); }
      case Object(ms, _) =>
        forall i | 0 <= i < |ms| ensures ms[i].value < a && Reordered(ms[i].value, Relinked(ms[i].value)) {
          assert ms[i] in ms;
          RelinkedReorders(ms[i].value);
        }
        assert Rearranged(a, ms, RelinkedMembers(ms));
      case _ =>
    }
  }

  /** The same tree, with every member at its place, up to links. */
  predicate SamePlaces(a: Json, b: Json)
    decreases a
  {
    SameType(a, b) &&
    match a
    case Array(es) => |es| == |b.elems| && forall i | 0 <= i < |es| :: SamePlaces(es[i], b.elems[i])
    case Object(ms, _) =>
      |ms| == |b.members|
      && forall i | 0 <= i < |ms| ::
           assert ms[i] in ms; ms[i].key == b.members[i].key && SamePlaces(ms[i].value, b.members[i].value)
    case _ => a == b
  }

  /** A duplicate has everything at its place, and all its links. */
  lemma {:induction false} RelinkedPlaces(a: Json)
    ensures SamePlaces(a, Relinked(a)) && WellLinked(Relinked(a))
    decreases a
  {
    RelinkedIsWellLinked(a);
    match a {
      case Array(es) =>
        forall i | 0 <= i < |es| ensures SamePlaces(es[i], Relinked(es[i])) { RelinkedPlaces(es[i]); }
      case Object(ms, _) =>
        forall i | 0 <= i < |ms| ensures SamePlaces(ms[i].value, Relinked(ms[i].value)) {
          assert ms[i] in ms;
          RelinkedPlaces(ms[i].value);
        }
      case _ =>
    }
  }

  /** No other tree has both. */
  lemma {:induction false} PlacesDetermine(a: Json, b: Json)
    requires SamePlaces(a, b) && WellLinked(b)
    ensures b == Relinked(a)
    decreases a
  {
    match a {
      case Array(es) =>
        forall i | 0 <= i < |es| ensures b.elems[i] == RelinkedElems(es)[i] { PlacesDetermine(es[i], b.elems[i]); }
        assert b.elems == RelinkedElems(es);
      case Object(ms, _) =>
        forall i | 0 <= i < |ms| ensures b.members[i] == RelinkedMembers(ms)[i] {
          assert ms[i] in ms && b.members[i] in b.members;
          PlacesDetermine(ms[i].value, b.members[i].value);
        }
        assert b.members == RelinkedMembers(ms);
      case _ =>
    }
  }

  lemma RelinkedFits(j: Json, keys: iset<Str>, cs: bool)
    requires Fits(j, keys, cs)
    ensures Fits(Relinked(j), keys, cs) && Abs(Relinked(j), cs) == Abs(j, cs)
  {
    RelinkedReorders(j);
    ReorderedMeans(j, Relinked(j), keys, cs);
  }

  /** An object whose sorted members have been reordered one by one. */
  lemma SortedReorders(a: Json, ns: seq<Member<Json>>, link: Link, cs: bool)
    requires a.Object? && |ns| == |a.members|
    requires forall i | 0 <= i < |ns| ::
               ns[i].key == Sort(a.members, cs)[i].key && Reordered(Sort(a.members, cs)[i].value, ns[i].value)
    ensures Reordered(a, Object(ns, link))
  {
    hide Sort;
    SortCorrect(a.members, cs);
    var part := Sort(a.members, cs);
    forall i | 0 <= i < |part| ensures part[i].value < a { assert part[i] in part; }
    assert Rearranged(a, part, ns);
  }

  /** compare_json only reorders. */
  lemma {:induction false} AfterCompareReorders(a: Json, b: Json, cs: bool)
    ensures Reordered(a, AfterCompare(a, b, cs).0) && Reordered(b, AfterCompare(a, b, cs).1)
    decreases a
  {
    if !SameType(a, b) {
      ReorderedSelf(a);
      ReorderedSelf(b);
    } else {
      match a {
        case Array(es) => AfterElemsReorder(es, b.elems, cs);
        case Object(ms, _) =>
          SortCorrect(ms, cs);
          AfterWalkReorders(a, Sort(ms, cs), Sort(b.members, cs), cs);
          var (xs, ys) := AfterWalk(a, Sort(ms, cs), Sort(b.members, cs), cs);
          SortedReorders(a, xs, SortedObject(a, cs).link, cs);
          SortedReorders(b, ys, SortedObject(b, cs).link, cs);
        case _ =>
          ReorderedSelf(a);
          ReorderedSelf(b);
      }
    }
  }

  lemma {:induction false} AllSelf(xs: seq<Json>)
    ensures forall i | 0 <= i < |xs| :: Reordered(xs[i], xs[i])
  {
    forall i | 0 <= i < |xs| ensures Reordered(xs[i], xs[i]) { ReorderedSelf(xs[i]); }
  }

  lemma {:induction false} AfterElemsReorder(xs: seq<Json>, ys: seq<Json>, cs: bool)
    ensures var (us, vs) := AfterElems(xs, ys, cs);
            (forall i | 0 <= i < |xs| :: Reordered(xs[i], us[i])) && forall i | 0 <= i < |ys| :: Reordered(ys[i], vs[i])
    decreases xs
  {
    hide Reordered, AfterCompare, SameSorted;
    AllSelf(xs);
    AllSelf(ys);
    if xs != [] && ys != [] {
      AfterCompareReorders(xs[0], ys[0], cs);
      if SameSorted(xs[0], ys[0], cs) { AfterElemsReorder(xs[1..], ys[1..], cs); }
    }
  }

  ghost predicate Pairwise(xs: seq<Member<Json>>, us: seq<Member<Json>>) {
    |xs| == |us| && forall i | 0 <= i < |xs| :: us[i].key == xs[i].key && Reordered(xs[i].value, us[i].value)
  }

  lemma PairwiseCons(x: Member<Json>, u: Json, xs: seq<Member<Json>>, us: seq<Member<Json>>)
    requires Reordered(x.value, u) && Pairwise(xs, us)
    ensures Pairwise([x] + xs, [Member(x.key, u)] + us)
  {
    hide Reordered;
  }

  lemma PairwiseSelf(xs: seq<Member<Json>>)
    ensures Pairwise(xs, xs)
  {
    forall i | 0 <= i < |xs| ensures Reordered(xs[i].value, xs[i].value) { ReorderedSelf(xs[i].value); }
  }

  lemma {:induction false} AfterWalkReorders(owner: Json, xs: seq<Member<Json>>, ys: seq<Member<Json>>, cs: bool)
    requires forall m | m in xs :: m.value < owner
    ensures Pairwise(xs, AfterWalk(owner, xs, ys, cs).0) && Pairwise(ys, AfterWalk(owner, xs, ys, cs).1)
    decreases owner, |xs|
  {
    hide Pairwise, Reordered, AfterCompare, SameSorted;
    if xs == [] || ys == [] || Cmp(xs[0].key, ys[0].key, cs) != 0 {
      PairwiseSelf(xs);
      PairwiseSelf(ys);
    } else {
      assert xs[0] in xs && xs == [xs[0]] + xs[1..] && ys == [ys[0]] + ys[1..];
      var (x, y) := AfterCompare(xs[0].value, ys[0].value, cs);
      var us, vs := xs[1..], ys[1..];
      AfterCompareReorders(xs[0].value, ys[0].value, cs);
      if SameSorted(xs[0].value, ys[0].value, cs) {
        AfterWalkReorders(owner, xs[1..], ys[1..], cs);
        us, vs := AfterWalk(owner, xs[1..], ys[1..], cs).0, AfterWalk(owner, xs[1..], ys[1..], cs).1;
      } else {
        PairwiseSelf(us);
        PairwiseSelf(vs);
      }
      PairwiseCons(xs[0], x, xs[1..], us);
      PairwiseCons(ys[0], y, ys[1..], vs);
    }
  }

  // ---------- how deep a tree is ----------

  ghost function Depth(j: Json): nat
    decreases j, 0
  {
    match j
    case Array(es) => 1 + DepthElems(es)
    case Object(ms, _) => 1 + DepthMembers(ms)
    case _ => 0
  }

  ghost function DepthElems(es: seq<Json>): (d: nat)
    ensures forall e | e in es :: Depth(e) <= d
    decreases es
  {
    if es == [] then 0
    else
      var rest := DepthElems(es[1..]);
      if Depth(es[0]) > rest then Depth(es[0]) else rest
  }

  ghost function DepthMembers(ms: seq<Member<Json>>): (d: nat)
    ensures forall m | m in ms :: Depth(m.value) <= d
    decreases ms
  {
    if ms == [] then 0
    else
      var rest := DepthMembers(ms[1..]);
      if Depth(ms[0].value) > rest then Depth(ms[0].value) else rest
  }

  lemma {:induction false} ElemsDepth(es: seq<Json>, d: nat)
    requires forall i | 0 <= i < |es| :: Depth(es[i]) <= d
    ensures DepthElems(es) <= d
  {
    hide Depth;
    if es != [] { ElemsDepth(es[1..], d); }
  }

  lemma {:induction false} MembersDepth(ms: seq<Member<Json>>, d: nat)
    requires forall i | 0 <= i < |ms| :: Depth(ms[i].value) <= d
    ensures DepthMembers(ms) <= d
  {
    hide Depth;
    if ms != [] { MembersDepth(ms[1..], d); }
  }

  /** Reordering makes no tree deeper. */
  lemma {:induction false} ReorderedDepth(a: Json, b: Json)
    requires Reordered(a, b)
    ensures Depth(b) <= Depth(a)
    decreases a
  {
    match a {
      case Array(es) =>
        forall i | 0 <= i < |es| ensures Depth(b.elems[i]) <= DepthElems(es) {
          assert es[i] in es;
          ReorderedDepth(es[i], b.elems[i]);
        }
        ElemsDepth(b.elems, DepthElems(es));
      case Object(ms, _) =>
        var part: seq<Member<Json>> :| Rearranged(a, part, b.members);
        forall i | 0 <= i < |part| ensures Depth(b.members[i].value) <= DepthMembers(ms) {
          assert part[i] in part;
          ReorderedDepth(part[i].value, b.members[i].value);
        }
        MembersDepth(b.members, DepthMembers(ms));
      case _ =>
    }
  }

  lemma AfterCompareDepth(a: Json, b: Json, cs: bool)
    ensures Depth(AfterCompare(a, b, cs).0) <= Depth(a)
  {
    AfterCompareReorders(a, b, cs);
    ReorderedDepth(a, AfterCompare(a, b, cs).0);
  }

  lemma SortedDepth(j: Json, cs: bool)
    requires j.Object?
    ensures forall m | m in Sort(j.members, cs) :: Depth(m.value) < Depth(j)
  {
    hide Sort;
    SortCorrect(j.members, cs);
  }
}
