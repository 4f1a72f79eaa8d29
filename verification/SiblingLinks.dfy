/** What the link from the first sibling to the last does to a list: appending goes through it, detaching
    and sorting change it. The operations on nodes are proved to do exactly this. */
module SiblingLinks {
  /** Where the prev of the first of some siblings leads: to the last one, as it should (also when there are
      no siblings), nowhere, to an earlier one, or to an item that has left the list. */
  datatype Link = Right | Missing | To(i: nat) | Gone

  datatype Chain<+T> = Chain(items: seq<T>, link: Link)

  /** The link of n siblings in normal form. */
  function Normal(link: Link, n: nat): (r: Link)
    ensures r.To? ==> r.i + 1 < n
    ensures n == 0 ==> r.Right?
  {
    if n == 0 then Right
    else if link.To? then (if link.i + 1 < n then link else if link.i + 1 == n then Right else Gone)
    else link
  }

  /** Appending: without the link the item is lost; with a link to an earlier sibling everything behind that
      one is lost. Nothing is promised when the link leads out of the list. */
  function Appended<T>(c: Chain<T>, x: T): Chain<T> {
    match Normal(c.link, |c.items|)
    case Right => Chain(c.items + [x], Right)
    case To(i) => Chain(c.items[..i + 1] + [x], Right)
    case _ => c
  }

  function RemoveAt<T>(s: seq<T>, i: nat): (r: seq<T>)
    requires i < |s|
  {
    s[..i] + s[i + 1..]
  }

  /** Where the link leads when the sibling at position i is detached: detaching the last one repairs it. */
  function LinkWithout(link: Link, n: nat, i: nat): Link
    requires i < n
  {
    if i == n - 1 then Right
    else
      match Normal(link, n)
      case To(k) => if k == i then Gone else if k > i then To(k - 1) else To(k)
      case other => other
  }

  function Detached<T>(c: Chain<T>, i: nat): Chain<T>
    requires i < |c.items|
  {
    Chain(RemoveAt(c.items, i), LinkWithout(c.link, |c.items|, i))
  }

  /** Where the link leads when an item is put in front of the sibling at position i. */
  function LinkWith(link: Link, n: nat, i: nat): Link
    requires i < n
  {
    match Normal(link, n)
    case To(k) => if k >= i then To(k + 1) else To(k)
    case other => other
  }

  function Inserted<T>(c: Chain<T>, i: nat, x: T): Chain<T> {
    if i < |c.items| then Chain(c.items[..i] + [x] + c.items[i..], LinkWith(c.link, |c.items|, i)) else Appended(c, x)
  }

  /** Where the link leads when the sibling at position i is replaced: replacing the last one repairs it, and a
      link to any other replaced sibling but the first leads out of the list. */
  function LinkReplaced(link: Link, n: nat, i: nat): Link
    requires i < n
  {
    if i == n - 1 && i > 0 then Right
    else
      match Normal(link, n)
      case To(k) => if k == i && k > 0 then Gone else To(k)
      case other => other
  }

  function Substituted<T>(c: Chain<T>, i: nat, x: T): Chain<T>
    requires i < |c.items|
  {
    Chain(c.items[i := x], LinkReplaced(c.link, |c.items|, i))
  }

  /** Where the link leads when the siblings are put into an order: it moves along with the item it leads to
      as long as the first item stays the first, and is lost otherwise. */
  function LinkInOrder(link: Link, order: seq<nat>): Link {
    var n := |order|;
    if n == 0 then Right
    else if order[0] != 0 then Missing
    else
      match Normal(link, n)
      case Right => Normal(To(Place(order, n - 1)), n)
      case To(i) => Normal(To(Place(order, i)), n)
      case other => other
  }

  /** Where an item is in an order. */
  function Place(order: seq<nat>, i: nat): (p: nat)
    ensures p <= |order|
    ensures p < |order| ==> order[p] == i
    ensures forall k | 0 <= k < p :: order[k] != i
  {
    if order == [] || order[0] == i then 0
    else
      assert forall k | 1 <= k < |order| :: order[k] == order[1..][k - 1];
      1 + Place(order[1..], i)
  }

  /** The link of a list whose link was right, after it has been put into an order. */
  lemma EndsOfOrder(order: seq<nat>)
    requires order != [] && |order| - 1 in order && forall i, k | 0 <= i < k < |order| :: order[i] != order[k]
    ensures var n, link := |order|, LinkInOrder(Right, order);
            if order[0] != 0 then link.Missing?
            else if order[n - 1] == n - 1 then link.Right?
            else link.To? && link.i + 1 < n && order[link.i] == n - 1
  {
  }

  // ---------- who stands where afterwards ----------

  /** An item in front of position i: it stands there, those in front stay, and the others move up by one. */
  lemma InsertedPlaces<T>(c: Chain<T>, i: nat, x: T)
    requires i < |c.items|
    ensures var r := Inserted(c, i, x).items;
            |r| == |c.items| + 1 && r[i] == x
            && (forall k | 0 <= k < i :: r[k] == c.items[k]) && forall k | i <= k < |c.items| :: r[k + 1] == c.items[k]
  {
    hide LinkWith;
  }

  /** Without the item at position i: those in front stay, and the others move down by one. */
  lemma DetachedPlaces<T>(c: Chain<T>, i: nat)
    requires i < |c.items|
    ensures var r := Detached(c, i).items;
            |r| == |c.items| - 1
            && (forall k | 0 <= k < i :: r[k] == c.items[k]) && forall k | i < k < |c.items| :: r[k - 1] == c.items[k]
  {
    hide LinkWithout;
  }

  /** With another item at position i: all others stay. */
  lemma ReplacedPlaces<T>(c: Chain<T>, i: nat, x: T)
    requires i < |c.items|
    ensures var r := Substituted(c, i, x).items;
            |r| == |c.items| && r[i] == x && forall k | 0 <= k < |r| && k != i :: r[k] == c.items[k]
  {
    hide LinkReplaced;
  }

  /** With an item behind the last one, or behind the one that the link leads to: all in front of it stay. */
  lemma AppendedPlaces<T>(c: Chain<T>, x: T)
    ensures var r, link := Appended(c, x).items, Normal(c.link, |c.items|);
            if link.Missing? || link.Gone? then r == c.items
            else
              |r| == (if link.To? then link.i + 1 else |c.items|) + 1 && r[|r| - 1] == x
              && forall k | 0 <= k < |r| - 1 :: r[k] == c.items[k]
  {
  }
}
