/**
 * The index of address ranges in pattern.c: search, and insertion that rejects overlapping ranges.
 */
module PrefixIndex {
  import opened AvlModel
  import opened AvlRotations
  import opened AvlTree
  import opened AvlRemoval

  ghost predicate Covers(x: Item, targ: nat) { x.low <= targ <= x.high }

  ghost predicate Overlaps(x: Item, y: Item) { x.low <= y.high && y.low <= x.high }

  /** The ranges are proper, ascending and pairwise disjoint. */
  ghost predicate Sorted(s: seq<Item>) {
    (forall i :: 0 <= i < |s| ==> s[i].low <= s[i].high)
    && (forall i, j :: 0 <= i < j < |s| ==> s[i].high < s[j].low)
  }

  ghost predicate ValidIndex(rootp: Root)
    reads rootp, Items(rootp.shape)`left, Items(rootp.shape)`right, Items(rootp.shape)`up
    reads Items(rootp.shape)`balance, Items(rootp.shape)`indexed
  {
    Valid(rootp) && Sorted(InOrder(rootp.shape))
  }

  /** Where a range can still be: not among the items before or after the hole. */
  lemma SortedAround(t: Shape, c: Context)
    requires t.Node? && Sorted(Around(t, c))
    ensures t.item.low <= t.item.high
    ensures forall x :: x in InOrder(t.left) ==> x.high < t.item.low
    ensures forall x :: x in InOrder(t.right) ==> t.item.high < x.low
  {
    var s, n, m := Around(t, c), |Before(c)|, |InOrder(t.left)|;
    assert s[n + m] == t.item;
    forall x | x in InOrder(t.left) ensures x.high < t.item.low {
      var i :| 0 <= i < m && InOrder(t.left)[i] == x;
      assert s[n + i] == x;
    }
    forall x | x in InOrder(t.right) ensures t.item.high < x.low {
      var i :| 0 <= i < |InOrder(t.right)| && InOrder(t.right)[i] == x;
      assert s[n + m + 1 + i] == x;
    }
  }

  lemma DownOrder(t: Shape, c: Context)
    requires t.Node?
    ensures var l := InLeft(t.item, t.bal, t.right, c);
      Around(t.left, l) == Around(t, c) && Before(l) == Before(c) && After(l) == [t.item] + InOrder(t.right) + After(c)
    ensures var r := InRight(t.left, t.item, t.bal, c);
      Around(t.right, r) == Around(t, c) && Before(r) == Before(c) + InOrder(t.left) + [t.item] && After(r) == After(c)
  {
    UpOrder(t.left, InLeft(t.item, t.bal, t.right, c));
    UpOrder(t.right, InRight(t.left, t.item, t.bal, c));
  }

  ghost predicate AllBelow(s: seq<Item>, v: nat) { forall x :: x in s ==> x.high < v }

  ghost predicate AllAbove(s: seq<Item>, v: nat) { forall x :: x in s ==> v < x.low }

  /** Only the subtree in the hole of c can hold a range that meets [low, high]. */
  ghost predicate Narrowed(t: Shape, c: Context, order: seq<Item>, low: nat, high: nat) {
    Around(t, c) == order && AllBelow(Before(c), low) && AllAbove(After(c), high)
  }

  lemma NarrowLeft(t: Shape, c: Context, order: seq<Item>, low: nat, high: nat)
    requires t.Node? && Sorted(order) && Narrowed(t, c, order, low, high) && high < t.item.low
    ensures Narrowed(t.left, LeftOf(t, c), order, low, high)
  {
    SortedAround(t, c);
    DownOrder(t, c);
  }

  lemma NarrowRight(t: Shape, c: Context, order: seq<Item>, low: nat, high: nat)
    requires t.Node? && Sorted(order) && Narrowed(t, c, order, low, high) && t.item.high < low
    ensures Narrowed(t.right, RightOf(t, c), order, low, high)
  {
    SortedAround(t, c);
    DownOrder(t, c);
  }

  lemma NarrowedOut(c: Context, order: seq<Item>, low: nat, high: nat)
    requires Narrowed(Leaf, c, order, low, high) && low <= high
    ensures forall x :: x in order ==> x.high < low || high < x.low
  {
  }

  lemma NarrowedHere(t: Shape, c: Context, order: seq<Item>, low: nat, high: nat)
    requires t.Node? && Narrowed(t, c, order, low, high)
    ensures t.item in order
  {
    assert t.item in InOrder(t);
  }

  /** vg_prefix_avl_search: the range that contains targ. */
  method Search(rootp: Root, targ: nat) returns (vp: Item?)
    requires ValidIndex(rootp)
    ensures ValidIndex(rootp)
    ensures vp != null ==> vp in InOrder(rootp.shape) && Covers(vp, targ)
    ensures vp == null ==> forall x :: x in InOrder(rootp.shape) ==> !Covers(x, targ)
  {
    var itemp := rootp.root;
    ghost var t, c, order := rootp.shape, Top, InOrder(rootp.shape);
    assert [] + order + [] == order;
    while itemp != null
      invariant ValidIndex(rootp) && Placed(rootp, t, c) && itemp == RootOf(t)
      invariant Narrowed(t, c, order, targ, targ)
      decreases t
    {
      GoDown(rootp, t, c);
      if itemp.low > targ {
        NarrowLeft(t, c, order, targ, targ);
        itemp := itemp.left;
        t, c := t.left, LeftOf(t, c);
      } else {
        if itemp.high < targ {
          NarrowRight(t, c, order, targ, targ);
          itemp := itemp.right;
          t, c := t.right, RightOf(t, c);
        } else {
          NarrowedHere(t, c, order, targ, targ);
          return itemp;
        }
      }
    }
    NarrowedOut(c, order, targ, targ);
    return null;
  }

  /** Filling an empty hole changes one link. */
  lemma FillHole(c: Context, newp: Item, k: Links) returns (j: Links)
    requires k in PathLinks(c, newp) && CtxDistinct(c)
    ensures j in PathLinks(c, null) && j.item in CtxItems(c)
    ensures if j.item != Parent(c) then k == j else if c.InLeft? then k == j.(left := newp) else k == j.(right := newp)
  {
    j := if k.item != Parent(c) then k else if c.InLeft? then k.(left := null) else k.(right := null);
    match c
    case InLeft(it, _, r, a) =>
      TreeLinksItems(r, it);
      PathLinksItems(a, it);
    case InRight(l, it, _, a) =>
      TreeLinksItems(l, it);
      PathLinksItems(a, it);
  }

  /** Writes newp through the pointer the search ended at. */
  method Hook(rootp: Root, newp: Item, itemp: Item?, atLeft: bool, ghost c: Context)
    requires Placed(rootp, Leaf, c) && newp !in CtxItems(c) && newp.balance == CENT && !newp.indexed
    requires itemp == Parent(c) && (itemp != null ==> (atLeft <==> c.InLeft?))
    modifies rootp`root, newp`up, CtxItems(c)`left, CtxItems(c)`right
    ensures Hooked(rootp, newp, c)
  {
    PathLinksItems(c, null);
    ghost var ks := PathLinks(c, null);
    assert ks == Wiring(Leaf, c);
    if !c.Top? {
      assert c.item in CtxItems(c);
    }
    newp.up := itemp;
    if itemp == null {
      rootp.root := newp;
    } else if atLeft {
      itemp.left := newp;
    } else {
      itemp.right := newp;
    }
    FirstIsHighest(c, null);
    FirstIsHighest(c, newp);
    forall k | k in PathLinks(c, newp) ensures Holds(k) {
      var j := FillHole(c, newp, k);
      assert j in ks;
    }
  }

  /** The new range sits between the ranges below and above it. */
  lemma SortedInsert(a: seq<Item>, x: Item, b: seq<Item>)
    requires Sorted(a + b) && AllBelow(a, x.low) && AllAbove(b, x.high) && x.low <= x.high
    ensures Sorted(a + [x] + b)
  {
    var s, n := a + [x] + b, |a|;
    forall i | 0 <= i < |s| ensures s[i].low <= s[i].high {
      if i < n {
        assert s[i] == (a + b)[i];
      } else if i > n {
        assert s[i] == (a + b)[i - 1];
      }
    }
    forall i, j | 0 <= i < j < |s| ensures s[i].high < s[j].low {
      if i != n && j != n {
        assert s[i] == (a + b)[if i < n then i else i - 1];
        assert s[j] == (a + b)[if j < n then j else j - 1];
      } else if i == n {
        assert s[j] == b[j - n - 1];
      } else {
        assert s[i] == a[i];
      }
    }
  }

  lemma WithoutInserted(a: seq<Item>, x: Item, b: seq<Item>, order: seq<Item>)
    requires a + [] + b == order && x !in order
    ensures Without(a + [x] + b, x) == order
  {
    assert a + b == a + [] + b;
    assert forall y :: y in a ==> y in a + b;
    WithoutMiddle(a, x, b);
  }

  lemma AddedOrder(a: seq<Item>, x: Item, b: seq<Item>, order: seq<Item>)
    requires a + [] + b == order && Sorted(order) && x !in order
    requires AllBelow(a, x.low) && AllAbove(b, x.high) && x.low <= x.high
    ensures Sorted(a + [x] + b) && Without(a + [x] + b, x) == order
  {
    assert a + [] + b == a + b;
    SortedInsert(a, x, b);
    WithoutInserted(a, x, b, order);
  }

  /** The tree has become the old one with a range more, which met none of the old ones. */
  ghost predicate Added(was: Shape, now: Shape, x: Item) {
    (forall y :: y in InOrder(was) ==> !Overlaps(y, x))
    && Items(now) == Items(was) + {x} && Without(InOrder(now), x) == InOrder(was)
  }

  lemma AddedAt(c: Context, was: Shape, now: Shape, x: Item)
    requires Sorted(InOrder(was)) && x !in Items(was) && x.low <= x.high
    requires Narrowed(Leaf, c, InOrder(was), x.low, x.high) && CtxItems(c) == Items(was)
    requires Items(now) == {x} + CtxItems(c) && InOrder(now) == Before(c) + [x] + After(c)
    ensures Added(was, now, x) && Sorted(InOrder(now))
  {
    NarrowedOut(c, InOrder(was), x.low, x.high);
    InOrderItems(was);
    AddedOrder(Before(c), x, After(c), InOrder(was));
  }

  lemma FitsBelow(t: Shape, c: Context)
    requires t.Node? && Fits(t, c)
    ensures Fits(t.left, LeftOf(t, c)) && Fits(t.right, RightOf(t, c))
    ensures Everything(t.left, LeftOf(t, c)) == Everything(t, c) == Everything(t.right, RightOf(t, c))
  {
    Refocus(t.left, t.item, t.bal, t.right, c);
    AvlBelow(t.left, t.item, t.bal, t.right, c);
  }

  /** The loop of vg_prefix_avl_insert: an overlapping range, or the pointer to write the new range through. */
  method FindPlace(rootp: Root, vpnew: Item) returns (vp: Item?, itemp: Item?, atLeft: bool, ghost c: Context)
    requires ValidIndex(rootp) && vpnew.low <= vpnew.high
    ensures ValidIndex(rootp)
    ensures vp != null ==> vp in InOrder(rootp.shape) && Overlaps(vp, vpnew)
    ensures vp == null ==> Placed(rootp, Leaf, c) && AvlContext(c, 0) && CtxItems(c) == Items(rootp.shape)
    ensures vp == null ==> Narrowed(Leaf, c, InOrder(rootp.shape), vpnew.low, vpnew.high)
    ensures vp == null ==> itemp == Parent(c) && (itemp != null ==> (atLeft <==> c.InLeft?))
  {
    var ptr := rootp.root;
    itemp, atLeft := null, false;
    ghost var t, order := rootp.shape, InOrder(rootp.shape);
    c := Top;
    assert [] + order + [] == order;
    while ptr != null
      invariant ValidIndex(rootp) && Placed(rootp, t, c) && ptr == RootOf(t) && itemp == Parent(c)
      invariant itemp != null ==> (atLeft <==> c.InLeft?)
      invariant Narrowed(t, c, order, vpnew.low, vpnew.high)
      invariant Fits(t, c)
      invariant Everything(t, c) == Items(rootp.shape)
      decreases t
    {
      itemp := ptr;
      GoDown(rootp, t, c);
      FitsBelow(t, c);
      if itemp.low > vpnew.high {
        NarrowLeft(t, c, order, vpnew.low, vpnew.high);
        ptr, atLeft := itemp.left, true;
        t, c := t.left, LeftOf(t, c);
      } else {
        if itemp.high < vpnew.low {
          NarrowRight(t, c, order, vpnew.low, vpnew.high);
          ptr, atLeft := itemp.right, false;
          t, c := t.right, RightOf(t, c);
        } else {
          NarrowedHere(t, c, order, vpnew.low, vpnew.high);
          vp := itemp;
          return;
        }
      }
    }
    vp := null;
  }

  /** The new range is linked at the end of the search, and the tree rebalanced. */
  method Attach(rootp: Root, newp: Item, itemp: Item?, atLeft: bool, ghost c: Context)
    requires Placed(rootp, Leaf, c) && newp !in CtxItems(c) && newp.balance == CENT && !newp.indexed && AvlContext(c, 0)
    requires itemp == Parent(c) && (itemp != null ==> (atLeft <==> c.InLeft?))
    modifies rootp, newp`left, newp`right, newp`up, newp`balance, newp`indexed
    modifies CtxItems(c)`left, CtxItems(c)`right, CtxItems(c)`up, CtxItems(c)`balance
    ensures Valid(rootp) && Items(rootp.shape) == {newp} + CtxItems(c)
    ensures InOrder(rootp.shape) == Before(c) + [newp] + After(c)
  {
    Hook(rootp, newp, itemp, atLeft, c);
    rootp.shape := InsertFix(rootp, newp, c);
  }

  /** vg_prefix_avl_insert: an overlapping range if there is one, and otherwise the new range is in the index. */
  method Insert(rootp: Root, vpnew: Item) returns (vp: Item?)
    requires ValidIndex(rootp) && vpnew !in Items(rootp.shape) && vpnew.low <= vpnew.high
    requires vpnew.balance == CENT && !vpnew.indexed
    modifies rootp, vpnew`left, vpnew`right, vpnew`up, vpnew`balance, vpnew`indexed
    modifies Items(rootp.shape)`left, Items(rootp.shape)`right, Items(rootp.shape)`up, Items(rootp.shape)`balance
    ensures ValidIndex(rootp)
    ensures vp != null ==> vp in InOrder(rootp.shape) && Overlaps(vp, vpnew) && rootp.shape == old(rootp.shape)
    ensures vp == null ==> Added(old(rootp.shape), rootp.shape, vpnew)
  {
    ghost var was := rootp.shape;
    var itemp: Item?, atLeft;
    ghost var c;
    vp, itemp, atLeft, c := FindPlace(rootp, vpnew);
    if vp == null {
      Attach(rootp, vpnew, itemp, atLeft, c);
      AddedAt(c, was, rootp.shape, vpnew);
    }
  }
}
