/** The tree of cJSON items as values, and its meaning with the order of object members forgotten. */
module JsonTrees {
  import opened CStrings
  import opened SiblingLinks

  datatype Member<T> = Member(key: Str, value: T)

  /** One constructor per cJSON type. A number carries valuedouble, exactly; valueint follows from it. An object
      carries the link from its first member to its last, which sorting can break; arrays are never sorted. */
  datatype Json =
    | Invalid
    | Null
    | False
    | True
    | Number(num: real)
    | String(text: Str)
    | Raw(text: Str)
    | Array(elems: seq<Json>)
    | Object(members: seq<Member<Json>>, link: Link := Right)

  /** A tree whose objects are maps from key norms to values. */
  datatype Val =
    | VInvalid
    | VNull
    | VFalse
    | VTrue
    | VNumber(num: real)
    | VString(text: Str)
    | VRaw(text: Str)
    | VArray(elems: seq<Val>)
    | VObject(fields: map<Str, Val>)

  predicate SameType(a: Json, b: Json) {
    match a
    case Invalid => b.Invalid?
    case Null => b.Null?
    case False => b.False?
    case True => b.True?
    case Number(_) => b.Number?
    case String(_) => b.String?
    case Raw(_) => b.Raw?
    case Array(_) => b.Array?
    case Object(_, _) => b.Object?
  }

  /** The meaning of a tree: two trees are equal up to member order (under a case mode)
      iff they mean the same. */
  function Abs(j: Json, cs: bool): Val
    decreases j, 0
  {
    match j
    case Invalid => VInvalid
    case Null => VNull
    case False => VFalse
    case True => VTrue
    case Number(d) => VNumber(d)
    case String(s) => VString(s)
    case Raw(s) => VRaw(s)
    case Array(es) => VArray(AbsElems(es, cs))
    case Object(ms, _) => VObject(AbsMembers(ms, cs))
  }

  function AbsElems(es: seq<Json>, cs: bool): (vs: seq<Val>)
    ensures |vs| == |es|
    ensures forall i | 0 <= i < |es| :: vs[i] == Abs(es[i], cs)
    decreases es
  {
    if es == [] then [] else [Abs(es[0], cs)] + AbsElems(es[1..], cs)
  }

  /** The first member with a key wins, as it does in every lookup. */
  function AbsMembers(ms: seq<Member<Json>>, cs: bool): (m: map<Str, Val>)
    decreases ms
  {
    if ms == [] then map[] else AbsMembers(ms[1..], cs)[Norm(ms[0].key, cs) := Abs(ms[0].value, cs)]
  }

  lemma ObjectAbs(j: Json, cs: bool)
    requires j.Object?
    ensures Abs(j, cs) == VObject(AbsMembers(j.members, cs))
  {
  }

  /** The norms of the keys of a member list. */
  ghost function Norms<T>(ms: seq<Member<T>>, cs: bool): set<Str> {
    set m | m in ms :: Norm(m.key, cs)
  }

  predicate DistinctKeys<T>(ms: seq<Member<T>>, cs: bool) {
    forall i, j | 0 <= i < j < |ms| :: Norm(ms[i].key, cs) != Norm(ms[j].key, cs)
  }

  /** Every object in the tree has distinct keys. */
  predicate Unique(j: Json, cs: bool)
    decreases j
  {
    match j
    case Array(es) => forall e | e in es :: Unique(e, cs)
    case Object(ms, _) => DistinctKeys(ms, cs) && forall m | m in ms :: Unique(m.value, cs)
    case _ => true
  }

  /** The index of the first member called `name`, or the number of members. */
  function FindKey<T>(ms: seq<Member<T>>, name: Str, cs: bool): (i: nat)
    ensures i <= |ms|
    ensures i < |ms| ==> Norm(ms[i].key, cs) == Norm(name, cs)
    ensures forall k | 0 <= k < i :: Norm(ms[k].key, cs) != Norm(name, cs)
  {
    if ms == [] || Norm(ms[0].key, cs) == Norm(name, cs) then 0
    else
      assert forall k | 1 <= k < |ms| :: ms[k] == ms[1..][k - 1];
      1 + FindKey(ms[1..], name, cs)
  }

  /** get_object_item; only objects have keyed children. */
  function GetMember(j: Json, name: Str, cs: bool): Option<Json> {
    if !j.Object? then None
    else
      var i := FindKey(j.members, name, cs);
      if i < |j.members| then Some(j.members[i].value) else None
  }

  /** The keys of the meaning are the norms of the keys. */
  lemma {:induction false} AbsKeys(ms: seq<Member<Json>>, cs: bool)
    ensures AbsMembers(ms, cs).Keys == Norms(ms, cs)
    decreases ms
  {
    if ms != [] {
      AbsKeys(ms[1..], cs);
      assert ms == [ms[0]] + ms[1..];
    }
  }

  /** A lookup by first match reads the meaning. */
  lemma {:induction false} AbsLookup(ms: seq<Member<Json>>, name: Str, cs: bool)
    ensures var i, m := FindKey(ms, name, cs), AbsMembers(ms, cs);
            (i < |ms| <==> Norm(name, cs) in m)
            && (i < |ms| ==> m[Norm(name, cs)] == Abs(ms[i].value, cs))
    decreases ms
  {
    if ms != [] && Norm(ms[0].key, cs) != Norm(name, cs) {
      AbsLookup(ms[1..], name, cs);
    }
  }

  /** With distinct keys any member, not only the first, reads its own value. */
  lemma {:induction false} AbsAt(ms: seq<Member<Json>>, i: nat, cs: bool)
    requires DistinctKeys(ms, cs) && i < |ms|
    ensures Norm(ms[i].key, cs) in AbsMembers(ms, cs)
    ensures AbsMembers(ms, cs)[Norm(ms[i].key, cs)] == Abs(ms[i].value, cs)
  {
    AbsLookup(ms, ms[i].key, cs);
    var k := FindKey(ms, ms[i].key, cs);
    assert k == i;
  }

  /** The meaning of a member list with distinct keys is determined by its members alone. */
  lemma {:induction false} AbsPermutation(xs: seq<Member<Json>>, ys: seq<Member<Json>>, cs: bool)
    requires DistinctKeys(xs, cs) && multiset(xs) == multiset(ys)
    ensures DistinctKeys(ys, cs) && AbsMembers(xs, cs) == AbsMembers(ys, cs)
  {
    DistinctPermutation(xs, ys, cs);
    AbsKeys(xs, cs);
    AbsKeys(ys, cs);
    SameMembers(xs, ys);
    var ax, ay := AbsMembers(xs, cs), AbsMembers(ys, cs);
    assert ax.Keys == ay.Keys;
    forall k | k in ax
      ensures ax[k] == ay[k]
    {
      var m :| m in xs && Norm(m.key, cs) == k;
      AbsOf(xs, m, cs);
      AbsOf(ys, m, cs);
    }
  }

  lemma SameMembers<T>(xs: seq<T>, ys: seq<T>)
    requires multiset(xs) == multiset(ys)
    ensures forall m :: m in xs <==> m in ys
  {
    assert forall m :: m in xs <==> m in multiset(xs);
    assert forall m :: m in ys <==> m in multiset(ys);
  }

  lemma AbsOf(ms: seq<Member<Json>>, m: Member<Json>, cs: bool)
    requires DistinctKeys(ms, cs) && m in ms
    ensures Norm(m.key, cs) in AbsMembers(ms, cs)
    ensures AbsMembers(ms, cs)[Norm(m.key, cs)] == Abs(m.value, cs)
  {
    var i :| 0 <= i < |ms| && ms[i] == m;
    AbsAt(ms, i, cs);
  }

  /** Distinctness of keys survives reordering. */
  lemma {:induction false} DistinctPermutation<T>(xs: seq<Member<T>>, ys: seq<Member<T>>, cs: bool)
    requires DistinctKeys(xs, cs) && multiset(xs) == multiset(ys)
    ensures DistinctKeys(ys, cs)
  {
    forall i, j | 0 <= i < j < |ys|
      ensures Norm(ys[i].key, cs) != Norm(ys[j].key, cs)
    {
      if ys[i] == ys[j] {
        assert ys == ys[..i] + [ys[i]] + ys[i + 1..j] + [ys[j]] + ys[j + 1..];
        assert multiset(ys)[ys[i]] >= 2;
        DistinctOnce(xs, ys[i], cs);
      } else {
        assert ys[i] in multiset(ys) && ys[j] in multiset(ys);
        assert ys[i] in xs && ys[j] in xs;
      }
    }
  }

  lemma {:induction false} DistinctOnce<T>(xs: seq<Member<T>>, m: Member<T>, cs: bool)
    requires DistinctKeys(xs, cs)
    ensures multiset(xs)[m] <= 1
  {
    if xs != [] {
      DistinctOnce(xs[1..], m, cs);
      assert xs == [xs[0]] + xs[1..];
      assert forall k | 1 <= k < |xs| :: xs[k] != xs[0];
    }
  }

  // ---------- the meaning of changed member lists ----------

  lemma {:induction false} AbsUpdate(ms: seq<Member<Json>>, i: nat, x: Json, cs: bool)
    requires i < |ms| && DistinctKeys(ms, cs)
    ensures var ns := ms[i := Member(ms[i].key, x)];
            DistinctKeys(ns, cs) && AbsMembers(ns, cs) == AbsMembers(ms, cs)[Norm(ms[i].key, cs) := Abs(x, cs)]
    decreases i
  {
    hide Norm, Abs;
    var ns := ms[i := Member(ms[i].key, x)];
    if i == 0 {
      assert ns[1..] == ms[1..];
    } else {
      assert ns[1..] == ms[1..][i - 1 := Member(ms[i].key, x)];
      AbsUpdate(ms[1..], i - 1, x, cs);
    }
  }

  lemma DistinctAppend<T>(ms: seq<Member<T>>, m: Member<T>, cs: bool)
    requires DistinctKeys(ms, cs) && Norm(m.key, cs) !in Norms(ms, cs)
    ensures DistinctKeys(ms + [m], cs)
  {
    hide Norm;
    assert forall i | 0 <= i < |ms| :: ms[i] in ms;
  }

  lemma {:induction false} AppendMeans(ms: seq<Member<Json>>, m: Member<Json>, cs: bool)
    requires Norm(m.key, cs) !in Norms(ms, cs)
    ensures AbsMembers(ms + [m], cs) == AbsMembers(ms, cs)[Norm(m.key, cs) := Abs(m.value, cs)]
    decreases ms
  {
    hide Norm, Abs;
    if ms == [] {
      assert ms + [m] == [m] && [m][1..] == [];
    } else {
      DropHead(ms, [m]);
      assert ms[0] in ms;
      AppendMeans(ms[1..], m, cs);
    }
  }

  lemma AbsAppend(ms: seq<Member<Json>>, m: Member<Json>, cs: bool)
    requires DistinctKeys(ms, cs) && Norm(m.key, cs) !in Norms(ms, cs)
    ensures DistinctKeys(ms + [m], cs)
    ensures AbsMembers(ms + [m], cs) == AbsMembers(ms, cs)[Norm(m.key, cs) := Abs(m.value, cs)]
  {
    DistinctAppend(ms, m, cs);
    AppendMeans(ms, m, cs);
  }

  /** The meaning of a list with distinct keys splits into its head and the rest. */
  lemma SplitHead(ms: seq<Member<Json>>, cs: bool)
    requires ms != [] && DistinctKeys(ms, cs)
    ensures var k := Norm(ms[0].key, cs);
            AbsMembers(ms, cs) == AbsMembers(ms[1..], cs)[k := Abs(ms[0].value, cs)]
            && k !in AbsMembers(ms[1..], cs)
  {
    AbsKeys(ms[1..], cs);
    forall m | m in ms[1..]
      ensures Norm(m.key, cs) != Norm(ms[0].key, cs)
    {
      var i :| 0 <= i < |ms[1..]| && ms[1..][i] == m;
      assert ms[i + 1] == m;
    }
  }

  lemma DistinctRemove<T>(ms: seq<Member<T>>, i: nat, cs: bool)
    requires i < |ms| && DistinctKeys(ms, cs)
    ensures DistinctKeys(RemoveAt(ms, i), cs)
    ensures Norm(ms[i].key, cs) !in Norms(RemoveAt(ms, i), cs)
  {
    hide Norm;
    var rs := RemoveAt(ms, i);
    assert forall k | 0 <= k < |rs| :: rs[k] == ms[if k < i then k else k + 1];
  }

  lemma {:induction false} AbsRemove(ms: seq<Member<Json>>, i: nat, cs: bool)
    requires i < |ms| && DistinctKeys(ms, cs)
    ensures AbsMembers(RemoveAt(ms, i), cs) == AbsMembers(ms, cs) - {Norm(ms[i].key, cs)}
    decreases i
  {
    hide AbsMembers, Norm, Abs;
    SplitHead(ms, cs);
    if i == 0 {
      assert RemoveAt(ms, 0) == ms[1..];
    } else {
      AbsRemove(ms[1..], i - 1, cs);
      RemoveHead(ms, i, cs);
    }
  }

  lemma RemoveHead(ms: seq<Member<Json>>, i: nat, cs: bool)
    requires 0 < i < |ms|
    ensures AbsMembers(RemoveAt(ms, i), cs)
            == AbsMembers(RemoveAt(ms[1..], i - 1), cs)[Norm(ms[0].key, cs) := Abs(ms[0].value, cs)]
  {
    assert RemoveAt(ms, i)[0] == ms[0] && RemoveAt(ms, i)[1..] == RemoveAt(ms[1..], i - 1);
  }

  /** The members without the first one called `name`. */
  function Without<T>(ms: seq<Member<T>>, name: Str, cs: bool): seq<Member<T>> {
    var i := FindKey(ms, name, cs);
    if i < |ms| then RemoveAt(ms, i) else ms
  }

  lemma WithoutMeans(ms: seq<Member<Json>>, name: Str, cs: bool)
    requires DistinctKeys(ms, cs)
    ensures var kept := Without(ms, name, cs);
            DistinctKeys(kept, cs) && Norm(name, cs) !in Norms(kept, cs)
            && AbsMembers(kept, cs) == AbsMembers(ms, cs) - {Norm(name, cs)}
  {
    hide AbsMembers, Norm;
    var i := FindKey(ms, name, cs);
    if i < |ms| {
      DistinctRemove(ms, i, cs);
      AbsRemove(ms, i, cs);
    } else {
      AbsKeys(ms, cs);
    }
  }

  /** Setting a member the way the library does, by deleting the old one and appending the new one. */
  lemma AbsSet(ms: seq<Member<Json>>, name: Str, x: Json, cs: bool)
    requires DistinctKeys(ms, cs)
    ensures var ns := Without(ms, name, cs) + [Member(name, x)];
            DistinctKeys(ns, cs) && AbsMembers(ns, cs) == AbsMembers(ms, cs)[Norm(name, cs) := Abs(x, cs)]
  {
    hide AbsMembers, Norm, Abs, Without, DistinctKeys;
    WithoutMeans(ms, name, cs);
    AbsAppend(Without(ms, name, cs), Member(name, x), cs);
  }

  // ---------- objects as lists of members ----------

  /** cJSON_DetachItemFromObject: the object without the first member called `name`, if there is one. */
  function WithoutMember(j: Json, name: Str, cs: bool): (r: Json)
    requires j.Object?
    ensures r.Object?
  {
    var i := FindKey(j.members, name, cs);
    if i < |j.members| then
      var c := Detached(Chain(j.members, j.link), i);
      Object(c.items, c.link)
    else j
  }

  /** Nothing is promised about appending when the link leads to a member that has left the object. */
  predicate Appendable(j: Json)
    requires j.Object?
  {
    !Normal(j.link, |j.members|).Gone?
  }

  /** cJSON_AddItemToObject. */
  function AddedMember(j: Json, m: Member<Json>): (r: Json)
    requires j.Object?
    ensures r.Object?
  {
    var c := Appended(Chain(j.members, j.link), m);
    Object(c.items, c.link)
  }

  /** While the link is right, an object is just the list of its members. */
  lemma RightObjects(ms: seq<Member<Json>>, name: Str, x: Json, cs: bool)
    ensures WithoutMember(Object(ms), name, cs) == Object(Without(ms, name, cs))
    ensures Appendable(WithoutMember(Object(ms), name, cs))
    ensures AddedMember(WithoutMember(Object(ms), name, cs), Member(name, x))
            == Object(Without(ms, name, cs) + [Member(name, x)])
  {
    hide FindKey;
  }

  /** Every object of the tree has its link from the first member to the last. */
  predicate WellLinked(j: Json)
    decreases j
  {
    match j
    case Array(es) => forall e | e in es :: WellLinked(e)
    case Object(ms, link) => link.Right? && forall m | m in ms :: WellLinked(m.value)
    case _ => true
  }

  /** cJSON_Duplicate: the same tree with all its links. */
  function Relinked(j: Json): (r: Json)
    ensures SameType(j, r)
    decreases j, 0
  {
    match j
    case Array(es) => Array(RelinkedElems(es))
    case Object(ms, _) => Object(RelinkedMembers(ms))
    case _ => j
  }

  function RelinkedElems(es: seq<Json>): (r: seq<Json>)
    ensures |r| == |es| && forall i | 0 <= i < |es| :: r[i] == Relinked(es[i])
    decreases es
  {
    if es == [] then [] else [Relinked(es[0])] + RelinkedElems(es[1..])
  }

  function RelinkedMembers(ms: seq<Member<Json>>): (r: seq<Member<Json>>)
    ensures |r| == |ms| && forall i | 0 <= i < |ms| :: r[i] == Member(ms[i].key, Relinked(ms[i].value))
    decreases ms
  {
    if ms == [] then [] else [Member(ms[0].key, Relinked(ms[0].value))] + RelinkedMembers(ms[1..])
  }

  /** A duplicate means the same. */
  lemma {:induction false} RelinkedMeans(j: Json, cs: bool)
    ensures Abs(Relinked(j), cs) == Abs(j, cs)
    decreases j, 1
  {
    match j
    case Array(es) => RelinkedElemsMean(es, cs);
    case Object(ms, _) => RelinkedMembersMean(ms, cs);
    case _ =>
  }

  lemma {:induction false} RelinkedElemsMean(es: seq<Json>, cs: bool)
    ensures AbsElems(RelinkedElems(es), cs) == AbsElems(es, cs)
    decreases es
  {
    if es != [] {
      hide Abs, Relinked;
      RelinkedMeans(es[0], cs);
      RelinkedElemsMean(es[1..], cs);
    }
  }

  lemma {:induction false} RelinkedMembersMean(ms: seq<Member<Json>>, cs: bool)
    ensures AbsMembers(RelinkedMembers(ms), cs) == AbsMembers(ms, cs)
    decreases ms
  {
    if ms != [] {
      hide Abs, Relinked, Norm;
      RelinkedMeans(ms[0].value, cs);
      RelinkedMembersMean(ms[1..], cs);
    }
  }

  /** It is well linked, and is the tree itself when that is. */
  lemma {:induction false} RelinkedIsWellLinked(j: Json)
    ensures WellLinked(Relinked(j)) && (WellLinked(j) ==> Relinked(j) == j)
    decreases j
  {
    match j {
      case Array(es) =>
        forall i | 0 <= i < |es|
          ensures WellLinked(Relinked(es[i])) && (WellLinked(es[i]) ==> Relinked(es[i]) == es[i])
        {
          RelinkedIsWellLinked(es[i]);
        }
        assert WellLinked(j) ==> RelinkedElems(es) == es;
      case Object(ms, _) =>
        forall i | 0 <= i < |ms|
          ensures WellLinked(Relinked(ms[i].value))
                  && (WellLinked(ms[i].value) ==> Relinked(ms[i].value) == ms[i].value)
        {
          assert ms[i] in ms;
          RelinkedIsWellLinked(ms[i].value);
        }
        assert WellLinked(j) ==> RelinkedMembers(ms) == ms;
      case _ =>
    }
  }
}
