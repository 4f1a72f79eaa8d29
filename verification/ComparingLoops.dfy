/** The loops of the two comparisons and of the member lookup. */
module ComparingLoops {
  import opened CStrings
  import opened JsonTrees
  import opened Sorting
  import opened Comparing

  /** get_object_item: the first member with the name, in the order of the list. */
  method GetObjectItem(members: seq<Member<Json>>, name: Str, caseSensitive: bool) returns (index: nat)
    ensures index == FindKey(members, name, caseSensitive)
    ensures index < |members| ==> Norm(members[index].key, caseSensitive) == Norm(name, caseSensitive)
    ensures forall i | 0 <= i < index :: Norm(members[i].key, caseSensitive) != Norm(name, caseSensitive)
  {
    index := 0;
    assert members[0..] == members;
    while index < |members|
      invariant index <= |members|
      invariant FindKey(members, name, caseSensitive) == index + FindKey(members[index..], name, caseSensitive)
      invariant forall i | 0 <= i < index :: Norm(members[i].key, caseSensitive) != Norm(name, caseSensitive)
    {
      assert members[index..][1..] == members[index + 1..];
      var diff := CompareStrings(name, members[index].key, caseSensitive);
      CmpZero(name, members[index].key, caseSensitive);
      if diff == 0 { return; }
      index := index + 1;
    }
  }

  /** compare_json: the answer, and both trees as they are afterwards, with the objects that were walked
      sorted. */
  method CompareJson(a: Json, b: Json, caseSensitive: bool) returns (same: bool, a': Json, b': Json)
    ensures same == SameSorted(a, b, caseSensitive)
    ensures (a', b') == AfterCompare(a, b, caseSensitive)
    decreases a, 1
  {
    a', b' := a, b;
    if !SameType(a, b) { return false, a, b; }
    match a {
      case Number(d) => same := d == b.num;
      case String(s) =>
        var diff := CompareStrings(s, b.text, true);
        CmpZero(s, b.text, true);
        same := diff == 0;
      case Array(es) =>
        var xs, ys;
        same, xs, ys := CompareElements(es, b.elems, caseSensitive);
        a', b' := Array(xs), Array(ys);
      case Object(ms, _) =>
        SortCorrect(ms, caseSensitive);
        var first, second := SortedObject(a, caseSensitive), SortedObject(b, caseSensitive);
        var xs, ys;
        same, xs, ys := CompareMembers(a, first.members, second.members, caseSensitive);
        a', b' := Object(xs, first.link), Object(ys, second.link);
      case _ => same := true;
    }
  }

  method CompareElements(xs: seq<Json>, ys: seq<Json>, caseSensitive: bool)
    returns (same: bool, xs': seq<Json>, ys': seq<Json>)
    ensures same == SameElems(xs, ys, caseSensitive)
    ensures (xs', ys') == AfterElems(xs, ys, caseSensitive)
    decreases xs, 0
  {
    hide SameSorted, SameElems, AfterCompare, AfterElems;
    var i := 0;
    xs', ys' := [], [];
    assert xs[0..] == xs && ys[0..] == ys;
    while i < |xs| && i < |ys|
      invariant i <= |xs| && i <= |ys|
      invariant SameElems(xs[i..], ys[i..], caseSensitive) == SameElems(xs, ys, caseSensitive)
      invariant xs' + AfterElems(xs[i..], ys[i..], caseSensitive).0 == AfterElems(xs, ys, caseSensitive).0
      invariant ys' + AfterElems(xs[i..], ys[i..], caseSensitive).1 == AfterElems(xs, ys, caseSensitive).1
    {
      assert xs[i..][1..] == xs[i + 1..] && ys[i..][1..] == ys[i + 1..];
      var identical, x, y := CompareJson(xs[i], ys[i], caseSensitive);
      ElemsUnfold(xs[i..], ys[i..], caseSensitive);
      Assoc(xs', [x], AfterElems(xs[i + 1..], ys[i + 1..], caseSensitive).0);
      Assoc(ys', [y], AfterElems(xs[i + 1..], ys[i + 1..], caseSensitive).1);
      if !identical { return false, xs' + ([x] + xs[i + 1..]), ys' + ([y] + ys[i + 1..]); }
      xs', ys' := xs' + [x], ys' + [y];
      i := i + 1;
    }
    ElemsUnfold(xs[i..], ys[i..], caseSensitive);
    same, xs', ys' := i == |xs| && i == |ys|, xs' + xs[i..], ys' + ys[i..];
  }

  lemma ElemsUnfold(xs: seq<Json>, ys: seq<Json>, cs: bool)
    ensures AfterElems(xs, ys, cs)
            == if xs == [] || ys == [] then (xs, ys)
               else
                 var (x, y) := AfterCompare(xs[0], ys[0], cs);
                 if !SameSorted(xs[0], ys[0], cs) then ([x] + xs[1..], [y] + ys[1..])
                 else ([x] + AfterElems(xs[1..], ys[1..], cs).0, [y] + AfterElems(xs[1..], ys[1..], cs).1)
    ensures SameElems(xs, ys, cs)
            == if xs == [] || ys == [] then xs == [] && ys == []
               else SameSorted(xs[0], ys[0], cs) && SameElems(xs[1..], ys[1..], cs)
  {
    hide SameSorted, AfterCompare;
  }

  method CompareMembers(ghost owner: Json, xs: seq<Member<Json>>, ys: seq<Member<Json>>, caseSensitive: bool)
    returns (same: bool, xs': seq<Member<Json>>, ys': seq<Member<Json>>)
    requires forall m | m in xs :: m.value < owner
    ensures same == SameWalk(owner, xs, ys, caseSensitive)
    ensures (xs', ys') == AfterWalk(owner, xs, ys, caseSensitive)
    decreases owner, 0
  {
    hide SameSorted, SameWalk, AfterCompare, AfterWalk, Cmp, Compared;
    var i := 0;
    xs', ys' := [], [];
    WalkBegins(owner, xs, ys, caseSensitive);
    while i < |xs| && i < |ys|
      invariant i <= |xs| && i <= |ys| && Compared(owner, xs, ys, i, xs', ys', caseSensitive)
    {
      WalkStep(owner, xs, ys, i, xs', ys', caseSensitive);
      var diff := CompareStrings(xs[i].key, ys[i].key, caseSensitive);
      if diff != 0 { return false, xs' + xs[i..], ys' + ys[i..]; }
      assert xs[i] in xs;
      var identical, x, y := CompareJson(xs[i].value, ys[i].value, caseSensitive);
      xs', ys' := xs' + [Member(xs[i].key, x)], ys' + [Member(ys[i].key, y)];
      i := i + 1;
      if !identical { return false, xs' + xs[i..], ys' + ys[i..]; }
    }
    WalkEnd(owner, xs, ys, i, xs', ys', caseSensitive);
    same, xs', ys' := i == |xs| && i == |ys|, xs' + xs[i..], ys' + ys[i..];
  }

  /** What is left to walk over from position i decides, behind what has been walked over. */
  ghost predicate Compared(owner: Json, xs: seq<Member<Json>>, ys: seq<Member<Json>>, i: nat,
                         xs': seq<Member<Json>>, ys': seq<Member<Json>>, cs: bool)
    requires i <= |xs| && i <= |ys| && forall m | m in xs :: m.value < owner
  {
    SameWalk(owner, xs[i..], ys[i..], cs) == SameWalk(owner, xs, ys, cs)
    && AfterWalk(owner, xs, ys, cs)
       == (xs' + AfterWalk(owner, xs[i..], ys[i..], cs).0, ys' + AfterWalk(owner, xs[i..], ys[i..], cs).1)
  }

  lemma WalkBegins(owner: Json, xs: seq<Member<Json>>, ys: seq<Member<Json>>, cs: bool)
    requires forall m | m in xs :: m.value < owner
    ensures Compared(owner, xs, ys, 0, [], [], cs)
  {
    hide SameWalk, AfterWalk;
    var r := AfterWalk(owner, xs, ys, cs);
    assert xs[0..] == xs && ys[0..] == ys && [] + r.0 == r.0 && [] + r.1 == r.1;
  }

  lemma WalkStep(owner: Json, xs: seq<Member<Json>>, ys: seq<Member<Json>>, i: nat,
                 xs': seq<Member<Json>>, ys': seq<Member<Json>>, cs: bool)
    requires i < |xs| && i < |ys| && forall m | m in xs :: m.value < owner
    requires Compared(owner, xs, ys, i, xs', ys', cs)
    ensures var (x, y) := AfterCompare(xs[i].value, ys[i].value, cs);
            var us, vs := xs' + [Member(xs[i].key, x)], ys' + [Member(ys[i].key, y)];
            if Cmp(xs[i].key, ys[i].key, cs) != 0 then
              !SameWalk(owner, xs, ys, cs) && AfterWalk(owner, xs, ys, cs) == (xs' + xs[i..], ys' + ys[i..])
            else if !SameSorted(xs[i].value, ys[i].value, cs) then
              !SameWalk(owner, xs, ys, cs) && AfterWalk(owner, xs, ys, cs) == (us + xs[i + 1..], vs + ys[i + 1..])
            else Compared(owner, xs, ys, i + 1, us, vs, cs)
  {
    hide SameSorted, SameWalk, AfterCompare, AfterWalk, Cmp;
    var (x, y) := AfterCompare(xs[i].value, ys[i].value, cs);
    var m, n := Member(xs[i].key, x), Member(ys[i].key, y);
    assert xs[i..][1..] == xs[i + 1..] && ys[i..][1..] == ys[i + 1..];
    WalkUnfold(owner, xs[i..], ys[i..], cs);
    Assoc(xs', [m], xs[i + 1..]);
    Assoc(ys', [n], ys[i + 1..]);
    Assoc(xs', [m], AfterWalk(owner, xs[i + 1..], ys[i + 1..], cs).0);
    Assoc(ys', [n], AfterWalk(owner, xs[i + 1..], ys[i + 1..], cs).1);
  }

  lemma WalkEnd(owner: Json, xs: seq<Member<Json>>, ys: seq<Member<Json>>, i: nat,
                xs': seq<Member<Json>>, ys': seq<Member<Json>>, cs: bool)
    requires i <= |xs| && i <= |ys| && (i == |xs| || i == |ys|) && forall m | m in xs :: m.value < owner
    requires Compared(owner, xs, ys, i, xs', ys', cs)
    ensures SameWalk(owner, xs, ys, cs) <==> i == |xs| && i == |ys|
    ensures AfterWalk(owner, xs, ys, cs) == (xs' + xs[i..], ys' + ys[i..])
  {
    hide SameWalk, AfterWalk;
    WalkUnfold(owner, xs[i..], ys[i..], cs);
  }

  lemma WalkUnfold(owner: Json, xs: seq<Member<Json>>, ys: seq<Member<Json>>, cs: bool)
    requires forall m | m in xs :: m.value < owner
    ensures AfterWalk(owner, xs, ys, cs)
            == if xs == [] || ys == [] || Cmp(xs[0].key, ys[0].key, cs) != 0 then (xs, ys)
               else
                 var (x, y) := AfterCompare(xs[0].value, ys[0].value, cs);
                 var m, n := Member(xs[0].key, x), Member(ys[0].key, y);
                 if !SameSorted(xs[0].value, ys[0].value, cs) then ([m] + xs[1..], [n] + ys[1..])
                 else ([m] + AfterWalk(owner, xs[1..], ys[1..], cs).0, [n] + AfterWalk(owner, xs[1..], ys[1..], cs).1)
    ensures SameWalk(owner, xs, ys, cs)
            == if xs == [] || ys == [] then xs == [] && ys == []
               else Cmp(xs[0].key, ys[0].key, cs) == 0 && SameSorted(xs[0].value, ys[0].value, cs)
                    && SameWalk(owner, xs[1..], ys[1..], cs)
  {
    hide SameSorted, AfterCompare, Cmp;
  }

  /** cJSON_Compare, for items that are not the same object. */
  method Compare(a: Json, b: Json, caseSensitive: bool) returns (same: bool)
    ensures same == SameLookup(a, b, caseSensitive)
    decreases Size(a) + Size(b), 1
  {
    if !SameType(a, b) { return false; }
    match a {
      case Invalid => same := false;
      case Number(d) => same := d == b.num;
      case String(s) =>
        var diff := CompareStrings(s, b.text, true);
        CmpZero(s, b.text, true);
        same := diff == 0;
      case Raw(s) =>
        var diff := CompareStrings(s, b.text, true);
        CmpZero(s, b.text, true);
        same := diff == 0;
      case Array(es) =>
        var i := 0;
        while i < |es| && i < |b.elems|
          invariant i <= |es| && i <= |b.elems|
          invariant forall k | 0 <= k < i :: SameLookup(es[k], b.elems[k], caseSensitive)
        {
          SizeElem(es, i);
          SizeElem(b.elems, i);
          var identical := Compare(es[i], b.elems[i], caseSensitive);
          if !identical { return false; }
          i := i + 1;
        }
        same := i == |es| && i == |b.elems|;
      case Object(ms, _) =>
        same := Includes(a, b, caseSensitive);
        if !same { return; }
        same := Includes(b, a, caseSensitive);
      case _ => same := true;
    }
  }

  /** One of its two loops over members: each is looked up in the other object. */
  method Includes(a: Json, b: Json, caseSensitive: bool) returns (all: bool)
    requires a.Object? && b.Object?
    ensures all == Included(a, b, caseSensitive)
    decreases Size(a) + Size(b), 0
  {
    hide SameLookup;
    var i := 0;
    while i < |a.members|
      invariant i <= |a.members|
      invariant forall n | 0 <= n < i ::
          var k := FindKey(b.members, a.members[n].key, caseSensitive);
          k < |b.members| && SameLookup(a.members[n].value, b.members[k].value, caseSensitive)
    {
      var k := GetObjectItem(b.members, a.members[i].key, caseSensitive);
      if k == |b.members| { return false; }
      SizeMember(a.members, i);
      SizeMember(b.members, k);
      var identical := Compare(a.members[i].value, b.members[k].value, caseSensitive);
      if !identical { return false; }
      i := i + 1;
    }
    all := true;
  }
}
