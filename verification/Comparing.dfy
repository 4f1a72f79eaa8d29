/** The two tree comparisons: compare_json sorts and walks, cJSON_Compare looks every member
    up in the other object, twice. */
module Comparing {
  import opened CStrings
  import opened JsonTrees
  import opened Sorting

  /** What compare_json answers; what it does to the two trees is AfterCompare. */
  function SameSorted(a: Json, b: Json, cs: bool): bool
    decreases a
  {
    SameType(a, b) &&
    match a
    case Number(d) => d == b.num
    case String(s) => s == b.text
    case Array(es) => SameElems(es, b.elems, cs)
    case Object(ms, _) =>
      SortCorrect(ms, cs);
      SameWalk(a, Sort(ms, cs), Sort(b.members, cs), cs)
    case _ => true
  }

  function SameElems(xs: seq<Json>, ys: seq<Json>, cs: bool): bool
    decreases xs
  {
    if xs == [] || ys == [] then xs == [] && ys == []
    else SameSorted(xs[0], ys[0], cs) && SameElems(xs[1..], ys[1..], cs)
  }

  function SameWalk(ghost owner: Json, xs: seq<Member<Json>>, ys: seq<Member<Json>>, cs: bool): bool
    requires forall m | m in xs :: m.value < owner
    decreases owner, |xs|
  {
    if xs == [] || ys == [] then xs == [] && ys == []
    else
      Cmp(xs[0].key, ys[0].key, cs) == 0
      && SameSorted(xs[0].value, ys[0].value, cs)
      && SameWalk(owner, xs[1..], ys[1..], cs)
  }

  /** Both trees after compare_json: objects are sorted when the walk comes to them, and the walk stops at
      the first difference. */
  function AfterCompare(a: Json, b: Json, cs: bool): (r: (Json, Json))
    ensures SameType(a, r.0) && SameType(b, r.1)
    decreases a
  {
    if !SameType(a, b) then (a, b)
    else
      match a
      case Array(es) =>
        var (xs, ys) := AfterElems(es, b.elems, cs);
        (Array(xs), Array(ys))
      case Object(ms, _) =>
        SortCorrect(ms, cs);
        var sa, sb := SortedObject(a, cs), SortedObject(b, cs);
        var (xs, ys) := AfterWalk(a, sa.members, sb.members, cs);
        (Object(xs, sa.link), Object(ys, sb.link))
      case _ => (a, b)
  }

  function AfterElems(xs: seq<Json>, ys: seq<Json>, cs: bool): (r: (seq<Json>, seq<Json>))
    ensures |r.0| == |xs| && |r.1| == |ys|
    decreases xs
  {
    if xs == [] || ys == [] then (xs, ys)
    else
      var (x, y) := AfterCompare(xs[0], ys[0], cs);
      if !SameSorted(xs[0], ys[0], cs) then ([x] + xs[1..], [y] + ys[1..])
      else
        var (us, vs) := AfterElems(xs[1..], ys[1..], cs);
        ([x] + us, [y] + vs)
  }

  function AfterWalk(ghost owner: Json, xs: seq<Member<Json>>, ys: seq<Member<Json>>, cs: bool)
    : (r: (seq<Member<Json>>, seq<Member<Json>>))
    requires forall m | m in xs :: m.value < owner
    ensures |r.0| == |xs| && |r.1| == |ys|
    ensures forall i | 0 <= i < |xs| :: r.0[i].key == xs[i].key
    ensures forall i | 0 <= i < |ys| :: r.1[i].key == ys[i].key
    decreases owner, |xs|
  {
    if xs == [] || ys == [] || Cmp(xs[0].key, ys[0].key, cs) != 0 then (xs, ys)
    else
      var (x, y) := AfterCompare(xs[0].value, ys[0].value, cs);
      var m, n := Member(xs[0].key, x), Member(ys[0].key, y);
      if !SameSorted(xs[0].value, ys[0].value, cs) then ([m] + xs[1..], [n] + ys[1..])
      else
        var (us, vs) := AfterWalk(owner, xs[1..], ys[1..], cs);
        ([m] + us, [n] + vs)
  }

  /** What cJSON_Compare answers for two items that are not the same object. */
  function SameLookup(a: Json, b: Json, cs: bool): bool
    decreases Size(a) + Size(b)
  {
    SameType(a, b) &&
    match a
    case Invalid => false
    case Number(d) => d == b.num
    case String(s) => s == b.text
    case Raw(s) => s == b.text
    case Array(es) =>
      |es| == |b.elems|
      && forall i | 0 <= i < |es| ::
           SizeElem(es, i); SizeElem(b.elems, i); SameLookup(es[i], b.elems[i], cs)
    case Object(ms, _) => Included(a, b, cs) && Included(b, a, cs)
    case _ => true
  }

  /** Every member of `a` has an equal member in `b`. */
  function Included(a: Json, b: Json, cs: bool): bool
    requires a.Object? && b.Object?
    decreases Size(a) + Size(b), 0
  {
    forall i | 0 <= i < |a.members| ::
      var m := a.members[i];
      var k := FindKey(b.members, m.key, cs);
      k < |b.members| &&
      (SizeMember(a.members, i); SizeMember(b.members, k); SameLookup(m.value, b.members[k].value, cs))
  }

  ghost function Size(j: Json): nat
    decreases j, 0
  {
    match j
    case Array(es) => 1 + SizeElems(es)
    case Object(ms, _) => 1 + SizeMembers(ms)
    case _ => 1
  }

  ghost function SizeElems(es: seq<Json>): nat
    decreases es
  {
    if es == [] then 0 else Size(es[0]) + SizeElems(es[1..])
  }

  ghost function SizeMembers(ms: seq<Member<Json>>): nat
    decreases ms
  {
    if ms == [] then 0 else Size(ms[0].value) + SizeMembers(ms[1..])
  }

  lemma {:induction false} SizeElem(es: seq<Json>, i: nat)
    requires i < |es|
    ensures Size(es[i]) <= SizeElems(es)
    decreases es
  {
    if i > 0 { SizeElem(es[1..], i - 1); }
  }

  lemma {:induction false} SizeMember(ms: seq<Member<Json>>, i: nat)
    requires i < |ms|
    ensures Size(ms[i].value) <= SizeMembers(ms)
    decreases ms
  {
    if i > 0 { SizeMember(ms[1..], i - 1); }
  }

  /** Trees of JSON proper: no Raw and no Invalid item anywhere. */
  predicate Standard(j: Json)
    decreases j
  {
    match j
    case Invalid => false
    case Raw(_) => false
    case Array(es) => forall e | e in es :: Standard(e)
    case Object(ms, _) => forall m | m in ms :: Standard(m.value)
    case _ => true
  }

  /** compare_json decides equality up to member order. */
  lemma {:induction false} SameSortedMeans(a: Json, b: Json, cs: bool)
    requires Standard(a) && Unique(a, cs) && Unique(b, cs)
    ensures SameSorted(a, b, cs) <==> Abs(a, cs) == Abs(b, cs)
    decreases a
  {
    if SameType(a, b) {
      match a
      case Array(es) =>
        SameElemsMeans(es, b.elems, cs);
      case Object(ms, _) =>
        SortKeepsMeaning(ms, cs);
        SortKeepsMeaning(b.members, cs);
        SortCorrect(ms, cs);
        SortCorrect(b.members, cs);
        SameWalkMeans(a, Sort(ms, cs), Sort(b.members, cs), cs);
      case _ =>
    }
  }

  lemma {:induction false} SameElemsMeans(xs: seq<Json>, ys: seq<Json>, cs: bool)
    requires forall e | e in xs :: Standard(e) && Unique(e, cs)
    requires forall e | e in ys :: Unique(e, cs)
    ensures SameElems(xs, ys, cs) <==> AbsElems(xs, cs) == AbsElems(ys, cs)
    decreases xs
  {
    if xs != [] && ys != [] {
      SameSortedMeans(xs[0], ys[0], cs);
      SameElemsMeans(xs[1..], ys[1..], cs);
      var ax, ay := AbsElems(xs, cs), AbsElems(ys, cs);
      assert ax == ay ==> ax[0] == ay[0] && ax[1..] == ay[1..];
    }
  }

  lemma {:induction false} SameWalkMeans(owner: Json, xs: seq<Member<Json>>, ys: seq<Member<Json>>, cs: bool)
    requires forall m | m in xs :: m.value < owner && Standard(m.value) && Unique(m.value, cs)
    requires forall m | m in ys :: Unique(m.value, cs)
    requires Sorted(xs, cs) && DistinctKeys(xs, cs) && Sorted(ys, cs) && DistinctKeys(ys, cs)
    ensures SameWalk(owner, xs, ys, cs) <==> AbsMembers(xs, cs) == AbsMembers(ys, cs)
    decreases owner, |xs|
  {
    if xs == [] && ys != [] {
      assert Norm(ys[0].key, cs) in AbsMembers(ys, cs);
    } else if xs != [] && ys == [] {
      assert Norm(xs[0].key, cs) in AbsMembers(xs, cs);
    } else if xs != [] {
      SameSortedMeans(xs[0].value, ys[0].value, cs);
      SameWalkMeans(owner, xs[1..], ys[1..], cs);
      if Cmp(xs[0].key, ys[0].key, cs) == 0 {
        CmpZero(xs[0].key, ys[0].key, cs);
        EqualHeads(xs, ys, cs);
      } else {
        UnequalHeads(xs, ys, cs);
      }
    }
  }

  lemma UnequalHeads(xs: seq<Member<Json>>, ys: seq<Member<Json>>, cs: bool)
    requires Sorted(xs, cs) && Sorted(ys, cs) && xs != [] && ys != []
    requires Cmp(xs[0].key, ys[0].key, cs) != 0
    ensures AbsMembers(xs, cs) != AbsMembers(ys, cs)
  {
    AbsKeys(xs, cs);
    AbsKeys(ys, cs);
    if Cmp(xs[0].key, ys[0].key, cs) < 0 {
      BelowAll(ys, xs[0].key, cs);
    } else {
      CmpFlip(ys[0].key, xs[0].key, cs);
      BelowAll(xs, ys[0].key, cs);
    }
  }

  lemma EqualHeads(xs: seq<Member<Json>>, ys: seq<Member<Json>>, cs: bool)
    requires xs != [] && ys != [] && Norm(xs[0].key, cs) == Norm(ys[0].key, cs)
    requires DistinctKeys(xs, cs) && DistinctKeys(ys, cs)
    ensures AbsMembers(xs, cs) == AbsMembers(ys, cs)
            <==> Abs(xs[0].value, cs) == Abs(ys[0].value, cs)
                 && AbsMembers(xs[1..], cs) == AbsMembers(ys[1..], cs)
  {
    SplitHead(xs, cs);
    SplitHead(ys, cs);
    var k := Norm(xs[0].key, cs);
    var tx, ty := AbsMembers(xs[1..], cs), AbsMembers(ys[1..], cs);
    var vx, vy := Abs(xs[0].value, cs), Abs(ys[0].value, cs);
    if tx[k := vx] == ty[k := vy] {
      assert tx == tx[k := vx] - {k} && ty == ty[k := vy] - {k};
      assert tx[k := vx][k] == vx && ty[k := vy][k] == vy;
    }
  }

  /** A key below the head of a sorted list is not in it. */
  lemma BelowAll(ms: seq<Member<Json>>, k: Str, cs: bool)
    requires Sorted(ms, cs) && (ms != [] ==> Cmp(k, ms[0].key, cs) < 0)
    ensures Norm(k, cs) !in AbsMembers(ms, cs)
  {
    AbsKeys(ms, cs);
    forall m | m in ms
      ensures Norm(m.key, cs) != Norm(k, cs)
    {
      var i :| 0 <= i < |ms| && ms[i] == m;
      if i > 0 { CmpTransitive(k, ms[0].key, m.key, cs); }
      CmpZero(k, m.key, cs);
    }
  }

  /** cJSON_Compare decides equality up to member order. */
  lemma {:induction false} SameLookupMeans(a: Json, b: Json, cs: bool)
    requires Standard(a) && Standard(b) && Unique(a, cs) && Unique(b, cs)
    ensures SameLookup(a, b, cs) <==> Abs(a, cs) == Abs(b, cs)
    decreases Size(a) + Size(b)
  {
    if SameType(a, b) {
      match a
      case Array(es) =>
        if |es| == |b.elems| {
          forall i | 0 <= i < |es|
            ensures SameLookup(es[i], b.elems[i], cs) <==> Abs(es[i], cs) == Abs(b.elems[i], cs)
          {
            SizeElem(es, i);
            SizeElem(b.elems, i);
            SameLookupMeans(es[i], b.elems[i], cs);
          }
        }
      case Object(ms, _) =>
        IncludedMeans(a, b, cs);
        IncludedMeans(b, a, cs);
        SubMapBothWays(AbsMembers(ms, cs), AbsMembers(b.members, cs));
      case _ =>
    }
  }

  ghost predicate SubMap(m: map<Str, Val>, n: map<Str, Val>) {
    forall k | k in m :: k in n && n[k] == m[k]
  }

  lemma SubMapBothWays(m: map<Str, Val>, n: map<Str, Val>)
    ensures SubMap(m, n) && SubMap(n, m) <==> m == n
  {
    if SubMap(m, n) && SubMap(n, m) {
      assert forall k :: k in m <==> k in n;
    }
  }

  lemma {:induction false} IncludedMeans(a: Json, b: Json, cs: bool)
    requires a.Object? && b.Object?
    requires Standard(a) && Standard(b) && Unique(a, cs) && Unique(b, cs)
    ensures Included(a, b, cs) <==> SubMap(AbsMembers(a.members, cs), AbsMembers(b.members, cs))
    decreases Size(a) + Size(b), 0
  {
    var am, bm := AbsMembers(a.members, cs), AbsMembers(b.members, cs);
    AbsKeys(a.members, cs);
    forall i | 0 <= i < |a.members|
      ensures var m := a.members[i];
              var k := FindKey(b.members, m.key, cs);
              Norm(m.key, cs) in am && am[Norm(m.key, cs)] == Abs(m.value, cs)
              && (k < |b.members| <==> Norm(m.key, cs) in bm)
              && (k < |b.members| ==>
                    bm[Norm(m.key, cs)] == Abs(b.members[k].value, cs)
                    && (SameLookup(m.value, b.members[k].value, cs)
                        <==> am[Norm(m.key, cs)] == bm[Norm(m.key, cs)]))
    {
      var m := a.members[i];
      var k := FindKey(b.members, m.key, cs);
      AbsAt(a.members, i, cs);
      AbsLookup(b.members, m.key, cs);
      if k < |b.members| {
        SizeMember(a.members, i);
        SizeMember(b.members, k);
        SameLookupMeans(m.value, b.members[k].value, cs);
      }
    }
  }

  /** Both comparisons give the same answer, and it is equality of meaning: an equivalence
      that does not see the order of members. */
  lemma ComparisonsAgree(a: Json, b: Json, cs: bool)
    requires Standard(a) && Standard(b) && Unique(a, cs) && Unique(b, cs)
    ensures SameSorted(a, b, cs) <==> SameLookup(a, b, cs)
    ensures SameSorted(a, b, cs) <==> Abs(a, cs) == Abs(b, cs)
  {
    SameSortedMeans(a, b, cs);
    SameLookupMeans(a, b, cs);
  }
}
