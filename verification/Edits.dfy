/** The meaning of add, remove and replace (section 4 of RFC 6902) on trees whose objects are maps. */
module Edits {
  import opened CStrings
  import opened SiblingLinks
  import opened JsonTrees

  /** One step of a path: a member name, an array index, or the position after the last element. */
  datatype Token = Key(name: Str) | Index(i: nat) | End

  datatype Action = Add | Remove | Replace

  function ChildOf(v: Val, t: Token, cs: bool): Option<Val> {
    match (v, t)
    case (VObject(m), Key(k)) => if Norm(k, cs) in m then Some(m[Norm(k, cs)]) else None
    case (VArray(es), Index(i)) => if i < |es| then Some(es[i]) else None
    case _ => None
  }

  function WithChild(v: Val, t: Token, x: Val, cs: bool): Val
    requires ChildOf(v, t, cs).Some?
  {
    match (v, t)
    case (VObject(m), Key(k)) => VObject(m[Norm(k, cs) := x])
    case (VArray(es), Index(i)) => VArray(es[i := x])
  }

  function Look(v: Val, path: seq<Token>, cs: bool): Option<Val> {
    if path == [] then Some(v)
    else
      match ChildOf(v, path[0], cs)
      case None => None
      case Some(c) => Look(c, path[1..], cs)
  }

  function Put(v: Val, path: seq<Token>, x: Val, cs: bool): Val
    requires Look(v, path, cs).Some?
  {
    if path == [] then x
    else WithChild(v, path[0], Put(ChildOf(v, path[0], cs).value, path[1..], x, cs), cs)
  }

  /** What an action does to the container that holds its target. */
  function Act(v: Val, t: Token, action: Action, x: Val, cs: bool): Option<Val> {
    match (v, t, action)
    case (VObject(m), Key(k), Add) => Some(VObject(m[Norm(k, cs) := x]))
    case (VObject(m), Key(k), Remove) => if Norm(k, cs) in m then Some(VObject(m - {Norm(k, cs)})) else None
    case (VObject(m), Key(k), Replace) => if Norm(k, cs) in m then Some(VObject(m[Norm(k, cs) := x])) else None
    case (VArray(es), End, Add) => Some(VArray(es + [x]))
    case (VArray(es), Index(i), Add) => if i <= |es| then Some(VArray(es[..i] + [x] + es[i..])) else None
    case (VArray(es), Index(i), Remove) => if i < |es| then Some(VArray(RemoveAt(es, i))) else None
    case (VArray(es), Index(i), Replace) => if i < |es| then Some(VArray(es[i := x])) else None
    case _ => None
  }

  /** What an action does to the whole document. */
  function Step(v: Val, path: seq<Token>, action: Action, x: Val, cs: bool): Option<Val> {
    if path == [] then (if action == Remove then None else Some(x))
    else
      var up, last := path[..|path| - 1], path[|path| - 1];
      match Look(v, up, cs)
      case None => None
      case Some(p) =>
        match Act(p, last, action, x, cs)
        case None => None
        case Some(q) => Some(Put(v, up, q, cs))
  }

  // ---------- a path is a lens ----------

  lemma {:induction false} PutLook(v: Val, path: seq<Token>, x: Val, cs: bool)
    requires Look(v, path, cs).Some?
    ensures Look(Put(v, path, x, cs), path, cs) == Some(x)
    decreases path
  {
    if path != [] {
      PutLook(ChildOf(v, path[0], cs).value, path[1..], x, cs);
    }
  }

  lemma {:induction false} LookPut(v: Val, path: seq<Token>, cs: bool)
    requires Look(v, path, cs).Some?
    ensures Put(v, path, Look(v, path, cs).value, cs) == v
    decreases path
  {
    if path != [] {
      LookPut(ChildOf(v, path[0], cs).value, path[1..], cs);
    }
  }

  lemma {:induction false} PutPut(v: Val, path: seq<Token>, x: Val, y: Val, cs: bool)
    requires Look(v, path, cs).Some?
    ensures Look(Put(v, path, x, cs), path, cs).Some?
    ensures Put(Put(v, path, x, cs), path, y, cs) == Put(v, path, y, cs)
    decreases path
  {
    PutLook(v, path, x, cs);
    if path != [] {
      PutPut(ChildOf(v, path[0], cs).value, path[1..], x, y, cs);
    }
  }

  lemma {:induction false} LookFurther(v: Val, path: seq<Token>, t: Token, cs: bool)
    requires Look(v, path, cs).Some?
    ensures Look(v, path + [t], cs) == ChildOf(Look(v, path, cs).value, t, cs)
    decreases path
  {
    if path == [] {
      assert path + [t] == [t];
    } else {
      DropHead(path, [t]);
      LookFurther(ChildOf(v, path[0], cs).value, path[1..], t, cs);
    }
  }

  lemma {:induction false} PutFurther(v: Val, path: seq<Token>, t: Token, x: Val, cs: bool)
    requires Look(v, path, cs).Some? && ChildOf(Look(v, path, cs).value, t, cs).Some?
    ensures Look(v, path + [t], cs).Some?
    ensures Put(v, path + [t], x, cs) == Put(v, path, WithChild(Look(v, path, cs).value, t, x, cs), cs)
    decreases path
  {
    LookFurther(v, path, t, cs);
    if path == [] {
      assert path + [t] == [t];
    } else {
      DropHead(path, [t]);
      PutFurther(ChildOf(v, path[0], cs).value, path[1..], t, x, cs);
    }
  }

  /** An action below `path` changes what is at `path` and nothing else. */
  lemma StepBelow(v: Val, path: seq<Token>, t: Token, action: Action, x: Val, cs: bool)
    requires Look(v, path, cs).Some?
    ensures var q := Act(Look(v, path, cs).value, t, action, x, cs);
            Step(v, path + [t], action, x, cs) ==
            match q { case None => None case Some(p) => Some(Put(v, path, p, cs)) }
  {
    assert (path + [t])[..|path + [t]| - 1] == path;
  }

  /** Replacing at a path is putting the new value there. */
  lemma StepReplace(v: Val, path: seq<Token>, x: Val, cs: bool)
    requires Look(v, path, cs).Some?
    ensures Step(v, path, Replace, x, cs) == Some(Put(v, path, x, cs))
  {
    if path != [] {
      hide Look, Put, Act, WithChild, ChildOf;
      var up, last := path[..|path| - 1], path[|path| - 1];
      assert path == up + [last];
      ReplaceChild(v, up, last, x, cs);
      LookPrefix(v, up, last, cs);
      LookFurther(v, up, last, cs);
      PutFurther(v, up, last, x, cs);
    }
  }

  lemma ReplaceChild(v: Val, up: seq<Token>, t: Token, x: Val, cs: bool)
    requires Look(v, up + [t], cs).Some?
    ensures Look(v, up, cs).Some? && ChildOf(Look(v, up, cs).value, t, cs).Some?
    ensures Act(Look(v, up, cs).value, t, Replace, x, cs) == Some(WithChild(Look(v, up, cs).value, t, x, cs))
  {
    LookPrefix(v, up, t, cs);
    LookFurther(v, up, t, cs);
  }

  lemma {:induction false} LookPrefix(v: Val, path: seq<Token>, t: Token, cs: bool)
    requires Look(v, path + [t], cs).Some?
    ensures Look(v, path, cs).Some?
    decreases path
  {
    if path != [] {
      DropHead(path, [t]);
      LookPrefix(ChildOf(v, path[0], cs).value, path[1..], t, cs);
    }
  }
}
