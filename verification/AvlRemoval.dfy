/**
 * avl_first, avl_next and avl_remove of avl.h.
 *
 * An item with at most one subtree is replaced by it. Otherwise the leftmost item of the right subtree takes its place:
 * `Relocated` is the tree around the hole which that item leaves behind, and `Moved` says that the assignments leave
 * exactly the links of this tree. In both cases the fix-up loop of AvlTree starts at the item above the hole. The walk
 * in order follows the leftmost way down, or the way up to the first item reached from its left subtree.
 */
module AvlRemoval {
  import opened AvlModel
  import opened AvlRotations
  import opened AvlTree

  // ---- The leftmost item

  /** The subtree at the leftmost item of t, and the way from it up to the hole a sits at. */
  ghost function Min(t: Shape): (m: Shape)
    requires t.Node?
    ensures m.Node? && m.left == Leaf
  {
    if t.left.Leaf? then t else Min(t.left)
  }

  ghost function MinContext(t: Shape, a: Context): Context
    requires t.Node?
  {
    if t.left.Leaf? then a else MinContext(t.left, InLeft(t.item, t.bal, t.right, a))
  }

  ghost predicate LeftSpine(c: Context) {
    c.Top? || (c.InLeft? && LeftSpine(c.above))
  }

  lemma {:induction false} MinPlug(t: Shape, a: Context)
    requires t.Node?
    ensures Plug(MinContext(t, a), Min(t)) == Plug(a, t)
    ensures LeftSpine(a) ==> LeftSpine(MinContext(t, a))
    ensures Min(t).item == InOrder(t)[0]
  {
    if t.left.Node? {
      MinPlug(t.left, InLeft(t.item, t.bal, t.right, a));
    }
  }

  // ---- Contexts one on top of the other

  ghost function Graft(c: Context, outer: Context): Context {
    match c
    case Top => outer
    case InLeft(it, b, r, a) => InLeft(it, b, r, Graft(a, outer))
    case InRight(l, it, b, a) => InRight(l, it, b, Graft(a, outer))
  }

  lemma {:induction false} GraftWiring(c: Context, outer: Context, t: Shape)
    ensures Wiring(t, Graft(c, outer)) == Wiring(Plug(c, t), outer)
    ensures Separate(t, Graft(c, outer)) <==> Separate(Plug(c, t), outer)
    ensures FirstOf(Graft(c, outer), RootOf(t)) == FirstOf(outer, RootOf(Plug(c, t)))
  {
    match c
    case Top =>
    case InLeft(it, b, r, a) =>
      Refocus(t, it, b, r, Graft(a, outer));
      GraftWiring(a, outer, Node(t, it, b, r));
    case InRight(l, it, b, a) =>
      Refocus(l, it, b, t, Graft(a, outer));
      GraftWiring(a, outer, Node(l, it, b, t));
  }

  lemma {:induction false} GraftItems(c: Context, outer: Context)
    ensures CtxItems(Graft(c, outer)) == CtxItems(c) + CtxItems(outer)
    ensures CtxDistinct(Graft(c, outer)) <==> CtxDistinct(c) && CtxDistinct(outer) && CtxItems(c) !! CtxItems(outer)
  {
    match c
    case Top =>
    case InLeft(it, b, r, a) => GraftItems(a, outer);
    case InRight(l, it, b, a) => GraftItems(a, outer);
  }

  lemma AvlBelow(t: Shape, it: Item, b: Balance, r: Shape, g: Context)
    ensures Avl(Node(t, it, b, r)) && AvlContext(g, Height(Node(t, it, b, r))) ==>
      Avl(t) && AvlContext(InLeft(it, b, r, g), Height(t))
    ensures Avl(Node(t, it, b, r)) && AvlContext(g, Height(Node(t, it, b, r))) ==>
      Avl(r) && AvlContext(InRight(t, it, b, g), Height(r))
  {
  }

  lemma {:induction false} GraftAvl(c: Context, outer: Context, t: Shape)
    requires Avl(Plug(c, t)) && AvlContext(outer, Height(Plug(c, t)))
    ensures Avl(t) && AvlContext(Graft(c, outer), Height(t))
  {
    match c
    case Top =>
    case InLeft(it, b, r, a) =>
      GraftAvl(a, outer, Node(t, it, b, r));
      AvlBelow(t, it, b, r, Graft(a, outer));
    case InRight(l, it, b, a) =>
      GraftAvl(a, outer, Node(l, it, b, t));
      AvlBelow(l, it, b, t, Graft(a, outer));
  }

  lemma {:induction false} GraftOrder(c: Context, outer: Context)
    requires LeftSpine(c)
    ensures Before(c) == [] && Before(Graft(c, outer)) == Before(outer)
    ensures After(Graft(c, outer)) == After(c) + After(outer)
  {
    if c.InLeft? {
      GraftOrder(c.above, outer);
      assert [c.item] + InOrder(c.right) + (After(c.above) + After(outer))
        == [c.item] + InOrder(c.right) + After(c.above) + After(outer);
    }
  }

  /** The item at the top of a context. */
  ghost function Highest(c: Context): Item? {
    if c.Top? then null else if c.above.Top? then c.item else Highest(c.above)
  }

  lemma {:induction false} HighestInside(c: Context)
    requires !c.Top?
    ensures Highest(c) in CtxItems(c)
  {
    if !c.above.Top? {
      HighestInside(c.above);
    }
  }

  /** Putting a context on top of another one changes one link, the up link of its highest item. */
  lemma {:induction false} Regraft(c: Context, outer: Context, newOuter: Context, hole: Item?, k: Links)
      returns (j: Links)
    requires CtxDistinct(c) && LeftSpine(c)
    requires k in PathLinks(Graft(c, newOuter), hole) && k !in PathLinks(newOuter, FirstOf(c, hole))
    ensures j in PathLinks(Graft(c, outer), hole) && j.item in CtxItems(c)
    ensures if j.item == Highest(c) then k == j.(up := Parent(newOuter)) else k == j
  {
    var InLeft(it, b, r, a) := c;
    if !a.Top? {
      HighestInside(a);
    }
    if k in PathLinks(Graft(a, newOuter), it) {
      j := Regraft(a, outer, newOuter, it, k);
    } else if k in TreeLinks(r, it) {
      j := k;
      TreeLinkItem(r, it, k);
    } else {
      j := Links(it, hole, RootOf(r), Parent(Graft(a, outer)), b);
    }
  }

  // ---- Direct removal

  /** What the links k hold once q takes the place of itemp below u. */
  ghost function Replace(k: Links, itemp: Item, q: Item?, u: Item?): Links {
    if k.item == q then k.(up := u)
    else if k.item == u then Refill(k, itemp, q)
    else k
  }

  ghost function OnlyChild(t: Shape): Shape
    requires t.Node?
  {
    if t.left.Node? then t.left else t.right
  }

  lemma ReplacedWiring(t: Shape, c: Context, k: Links) returns (j: Links)
    requires t.Node? && (t.left.Leaf? || t.right.Leaf?) && Separate(t, c)
    requires k in Wiring(OnlyChild(t), c)
    ensures j in Wiring(t, c) && j.item != t.item && k == Replace(j, t.item, RootOf(OnlyChild(t)), Parent(c))
  {
    var q := OnlyChild(t);
    if k in TreeLinks(q, Parent(c)) {
      j := Rehang(q, t.item, Parent(c), k);
    } else {
      j := Refilling(c, t.item, RootOf(q), k);
    }
  }

  lemma Replaced(t: Shape, c: Context)
    requires t.Node? && (t.left.Leaf? || t.right.Leaf?) && Separate(t, c)
    requires forall j :: j in Wiring(t, c) && j.item != t.item ==> Holds(Replace(j, t.item, RootOf(OnlyChild(t)), Parent(c)))
    ensures AllHold(Wiring(OnlyChild(t), c)) && Separate(OnlyChild(t), c)
    ensures Items(OnlyChild(t)) == Items(t) - {t.item}
  {
    forall k | k in Wiring(OnlyChild(t), c) ensures Holds(k) {
      var j := ReplacedWiring(t, c, k);
    }
  }

  // ---- Indirect removal

  lemma {:induction false} HighestOfMin(t: Shape, a: Context)
    requires t.Node?
    ensures Highest(MinContext(t, a)) == if !a.Top? then Highest(a) else if t.left.Leaf? then null else t.item
  {
    if t.left.Node? {
      HighestOfMin(t.left, InLeft(t.item, t.bal, t.right, a));
    }
  }

  lemma {:induction false} FirstIsHighest(c: Context, hole: Item?)
    ensures FirstOf(c, hole) == if c.Top? then hole else Highest(c)
  {
    if !c.Top? {
      FirstIsHighest(c.above, c.item);
    }
  }

  ghost predicate Full(t: Shape) {
    t.Node? && t.left.Node? && t.right.Node?
  }

  /** The way from the leftmost item right of t up to the right subtree. */
  ghost function Spine(t: Shape): Context
    requires Full(t)
  {
    MinContext(t.right, Top)
  }

  /** The hole that the leftmost item right of t leaves behind once it sits at the place of t's item. */
  ghost function Relocated(t: Shape, c: Context): Context
    requires Full(t)
  {
    Graft(Spine(t), InRight(t.left, Min(t.right).item, t.bal, c))
  }

  /**
   * What the links k hold once m has moved to the place of itemp: lp is the left child of itemp, rp its right child,
   * u the item above it, q the right child of m, and p the item above m unless that is itemp itself.
   */
  ghost function Move(k: Links, itemp: Item, m: Item, lp: Item, rp: Item, u: Item?, q: Item?, p: Item?,
      b: Balance): Links {
    if k.item == m then Links(m, lp, if p == null then q else rp, u, b)
    else if k.item == lp then k.(up := m)
    else if k.item == u then Refill(k, itemp, m)
    else if p == null then (if k.item == q then k.(up := m) else k)
    else if k.item == q then k.(up := p)
    else
      var k1 := if k.item == p then k.(left := q) else k;
      if k.item == rp then k1.(up := m) else k1
  }

  lemma AroundMin(t: Shape, c: Context)
    requires Full(t) && Separate(t, c)
    ensures var it, m, q, ci := t.item, Min(t.right).item, Min(t.right).right, Spine(t);
      && LeftSpine(ci) && CtxDistinct(ci) && Distinct(q)
      && Wiring(Min(t.right), ci) == Wiring(t.right, Top)
      && Items(t.right) == Items(q) + {m} + CtxItems(ci)
      && m !in Items(q) && m !in CtxItems(ci) && Items(q) !! CtxItems(ci)
      && (if ci.Top? then t.right.item == m
          else t.right.item == Highest(ci) && t.right.item in CtxItems(ci) && ci.item in CtxItems(ci))
  {
    MinPlug(t.right, Top);
    PlugWiring(Spine(t), Min(t.right));
    HighestOfMin(t.right, Top);
    if !Spine(t).Top? {
      HighestInside(Spine(t));
    }
  }

  ghost function MoveIn(k: Links, t: Shape, c: Context): Links
    requires Full(t)
  {
    Move(k, t.item, Min(t.right).item, t.left.item, t.right.item, Parent(c),
         RootOf(Min(t.right).right), Parent(Spine(t)), t.bal)
  }

  // How Move acts on an item of the left subtree, of the context, of what is below m, and of the way up from m.
  // The sets stand for the items of those parts.

  lemma MoveInLeft(k: Links, itemp: Item, m: Item, lp: Item, rp: Item, u: Item?, q: Item?, p: Item?, b: Balance,
                   left: set<Item>, right: set<Item>, above: set<Item>)
    requires left !! right !! above && k.item in left && lp in left && m in right && rp in right
    requires (u != null ==> u in above) && (q != null ==> q in right) && (p != null ==> p in right)
    ensures Move(k, itemp, m, lp, rp, u, q, p, b) == if k.item == lp then k.(up := m) else k
  {
  }

  lemma MoveAbove(k: Links, itemp: Item, m: Item, lp: Item, rp: Item, u: Item?, q: Item?, p: Item?, b: Balance,
                  left: set<Item>, right: set<Item>, above: set<Item>)
    requires left !! right !! above && k.item in above && lp in left && m in right && rp in right
    requires (u != null ==> u in above) && (q != null ==> q in right) && (p != null ==> p in right)
    ensures Move(k, itemp, m, lp, rp, u, q, p, b) == if k.item == u then Refill(k, itemp, m) else k
  {
  }

  lemma MoveBelow(k: Links, itemp: Item, m: Item, lp: Item, rp: Item, u: Item?, q: Item?, p: Item?, b: Balance,
                  below: set<Item>, elsewhere: set<Item>)
    requires below !! elsewhere && k.item in below && {lp, m} <= elsewhere && (q != null ==> q in below)
    requires (u != null ==> u in elsewhere) && (p != null ==> {p, rp} <= elsewhere)
    ensures Move(k, itemp, m, lp, rp, u, q, p, b) == if k.item == q then k.(up := if p == null then m else p) else k
  {
  }

  lemma MoveBetween(k: Links, itemp: Item, m: Item, lp: Item, rp: Item, u: Item?, q: Item?, p: Item, b: Balance,
                    between: set<Item>, elsewhere: set<Item>)
    requires between !! elsewhere && k.item in between && {lp, m} <= elsewhere
    requires (u != null ==> u in elsewhere) && (q != null ==> q in elsewhere)
    ensures Move(k, itemp, m, lp, rp, u, q, p, b) ==
      (var k1 := if k.item == p then k.(left := q) else k; if k.item == rp then k1.(up := m) else k1)
  {
  }

  /** The wiring of the whole, seen from m. */
  lemma WiringFromMin(t: Shape, c: Context)
    requires Full(t) && Separate(t, c)
    ensures var o := InRight(t.left, t.item, t.bal, c);
      Wiring(t, c) == Wiring(Min(t.right), Graft(Spine(t), o)) && Separate(Min(t.right), Graft(Spine(t), o))
  {
    Refocus(t.left, t.item, t.bal, t.right, c);
    GraftWiring(Spine(t), InRight(t.left, t.item, t.bal, c), Min(t.right));
    MinPlug(t.right, Top);
  }

  /** The links of the items outside the right subtree, and of the item that moved. */
  lemma MovedOutside(t: Shape, c: Context, k: Links) returns (j: Links)
    requires Full(t) && Separate(t, c)
    requires k in PathLinks(InRight(t.left, Min(t.right).item, t.bal, c), FirstOf(Spine(t), RootOf(Min(t.right).right)))
    ensures j in Wiring(t, c) && j.item != t.item && k == MoveIn(j, t, c)
  {
    AroundMin(t, c);
    FirstIsHighest(Spine(t), RootOf(Min(t.right).right));
    var m, q, p := Min(t.right), RootOf(Min(t.right).right), Parent(Spine(t));
    if k in TreeLinks(t.left, m.item) {
      j := Rehang(t.left, t.item, m.item, k);
      MoveInLeft(j, t.item, m.item, t.left.item, t.right.item, Parent(c), q, p, t.bal,
        Items(t.left), Items(t.right), CtxItems(c));
    } else if k in PathLinks(c, m.item) {
      j := Refilling(c, t.item, m.item, k);
      MoveAbove(j, t.item, m.item, t.left.item, t.right.item, Parent(c), q, p, t.bal,
        Items(t.left), Items(t.right), CtxItems(c));
    } else {
      WiringFromMin(t, c);
      j := Links(m.item, null, q, Parent(Graft(Spine(t), InRight(t.left, t.item, t.bal, c))), m.bal);
      assert j in TreeLinks(m, j.up);
    }
  }

  /** The links of the items below the one that moved. */
  lemma MovedBelow(t: Shape, c: Context, k: Links) returns (j: Links)
    requires Full(t) && Separate(t, c)
    requires k in TreeLinks(Min(t.right).right, Parent(Relocated(t, c)))
    ensures j in Wiring(t, c) && j.item != t.item && k == MoveIn(j, t, c)
  {
    AroundMin(t, c);
    WiringFromMin(t, c);
    var m := Min(t.right);
    j := Rehang(m.right, m.item, Parent(Relocated(t, c)), k);
    assert TreeLinks(m.right, m.item) <= TreeLinks(m, Parent(Graft(Spine(t), InRight(t.left, t.item, t.bal, c))));
    MoveBelow(j, t.item, m.item, t.left.item, t.right.item, Parent(c), RootOf(m.right), Parent(Spine(t)), t.bal,
              Items(m.right), Items(t.left) + {m.item} + CtxItems(Spine(t)) + CtxItems(c));
  }

  /** The links of the items on the way up from the one that moved. */
  lemma MovedBetween(t: Shape, c: Context, k: Links) returns (j: Links)
    requires Full(t) && Separate(t, c)
    requires k in PathLinks(Relocated(t, c), RootOf(Min(t.right).right))
    requires k !in PathLinks(InRight(t.left, Min(t.right).item, t.bal, c), FirstOf(Spine(t), RootOf(Min(t.right).right)))
    ensures j in Wiring(t, c) && j.item != t.item && k == MoveIn(j, t, c)
  {
    AroundMin(t, c);
    WiringFromMin(t, c);
    var m, o := Min(t.right), InRight(t.left, t.item, t.bal, c);
    var c1 := Graft(Spine(t), o);
    var i := Regraft(Spine(t), o, InRight(t.left, m.item, t.bal, c), RootOf(m.right), k);
    j := Refilling(c1, m.item, RootOf(m.right), i);
    if j.item == Parent(c1) {
      Refocus(m, c1.item, c1.bal, c1.right, c1.above);
      RootLinks(Up(m, c1), c1.above, j);
    }
    MoveBetween(j, t.item, m.item, t.left.item, t.right.item, Parent(c), RootOf(m.right), Spine(t).item, t.bal,
                CtxItems(Spine(t)), Items(t.left) + {m.item} + Items(m.right) + CtxItems(c));
  }

  lemma Moved(t: Shape, c: Context)
    requires Full(t) && Separate(t, c)
    requires forall j :: j in Wiring(t, c) && j.item != t.item ==> Holds(MoveIn(j, t, c))
    ensures AllHold(Wiring(Min(t.right).right, Relocated(t, c)))
  {
    var q, n := Min(t.right).right, Relocated(t, c);
    forall k | k in Wiring(q, n) ensures Holds(k) {
      if k in TreeLinks(q, Parent(n)) {
        var j := MovedBelow(t, c, k);
      } else if k in PathLinks(InRight(t.left, Min(t.right).item, t.bal, c), FirstOf(Spine(t), RootOf(q))) {
        var j := MovedOutside(t, c, k);
      } else {
        var j := MovedBetween(t, c, k);
      }
    }
  }

  // What relocating does to the items, the heights and the order.

  lemma RelocatedItems(t: Shape, c: Context)
    requires Full(t) && Separate(t, c)
    ensures Separate(Min(t.right).right, Relocated(t, c))
    ensures Everything(Min(t.right).right, Relocated(t, c)) == Everything(t, c) - {t.item}
    ensures FirstOf(Relocated(t, c), RootOf(Min(t.right).right)) == FirstOf(c, Min(t.right).item)
  {
    hide Min, MinContext, Graft, Wiring;
    AroundMin(t, c);
    var n := InRight(t.left, Min(t.right).item, t.bal, c);
    GraftItems(Spine(t), n);
    GraftWiring(Spine(t), n, Min(t.right).right);
  }

  lemma RelocatedHeight(t: Shape, c: Context)
    requires Full(t) && Avl(t) && AvlContext(c, Height(t))
    ensures Shrinking(Min(t.right).right, Relocated(t, c))
  {
    MinPlug(t.right, Top);
    GraftAvl(Spine(t), InRight(t.left, Min(t.right).item, t.bal, c), Min(t.right));
  }

  lemma Regroup(a: seq<Item>, l: seq<Item>, m: Item, x: seq<Item>, y: seq<Item>, z: seq<Item>)
    ensures (a + l + [m]) + x + (y + z) == a + l + ([m] + x + y) + z
  {
  }

  lemma OrderOfRight(t: Shape)
    requires Full(t)
    ensures InOrder(t.right) == [Min(t.right).item] + InOrder(Min(t.right).right) + After(Spine(t))
      && LeftSpine(Spine(t))
  {
    var m := Min(t.right);
    MinPlug(t.right, Top);
    PlugInOrder(Spine(t), m);
    GraftOrder(Spine(t), Top);
  }

  lemma RelocatedOrder(t: Shape, c: Context)
    requires Full(t)
    ensures Around(Min(t.right).right, Relocated(t, c)) == Before(c) + InOrder(t.left) + InOrder(t.right) + After(c)
  {
    var m := Min(t.right);
    var n := InRight(t.left, m.item, t.bal, c);
    OrderOfRight(t);
    GraftOrder(Spine(t), n);
    assert Before(n) == Before(c) + InOrder(t.left) + [m.item] && After(n) == After(c);
    Regroup(Before(c), InOrder(t.left), m.item, InOrder(m.right), After(Spine(t)), After(c));
  }

  // ---- The walk

  /** The loop of avl_first and avl_next down to the leftmost item. */
  method Leftmost(rootp: Root, item0: Item, ghost t: Shape, ghost c: Context) returns (itemp: Item)
    requires Placed(rootp, t, c) && t.Node? && item0 == t.item
    ensures Placed(rootp, t, c) && itemp == InOrder(t)[0]
  {
    itemp := item0;
    ghost var s, d := t, c;
    GoDown(rootp, s, d);
    while itemp.left != null
      invariant Placed(rootp, t, c)
      invariant Placed(rootp, s, d) && s.Node? && itemp == s.item && InOrder(s)[0] == InOrder(t)[0]
      invariant itemp.left == RootOf(s.left)
      decreases s
    {
      GoDown(rootp, s, d);
      itemp := itemp.left;
      s, d := s.left, LeftOf(s, d);
      GoDown(rootp, s, d);
    }
  }

  /** avl_first */
  method First(rootp: Root, ghost t: Shape) returns (itemp: Item?)
    requires Placed(rootp, t, Top)
    ensures if t.Leaf? then itemp == null else itemp == InOrder(t)[0]
  {
    itemp := rootp.root;
    if itemp != null {
      itemp := Leftmost(rootp, itemp, t, Top);
    }
  }

  /** avl_next: the item that follows in order. */
  method Next(rootp: Root, item0: Item, ghost t: Shape, ghost c: Context) returns (itemp: Item?)
    requires Placed(rootp, t, c) && t.Node? && t.item == item0
    ensures var rest := InOrder(t.right) + After(c); itemp == if rest == [] then null else rest[0]
    ensures Placed(rootp, t, c)
  {
    GoDown(rootp, t, c);
    if item0.right != null {
      itemp := Leftmost(rootp, item0.right, t.right, RightOf(t, c));
      GoBack(rootp, t, c);
      return;
    }
    itemp := Ascend(rootp, item0, t, c);
  }

  /** The loop of avl_next up to the first item reached from its left subtree. */
  method Ascend(rootp: Root, item0: Item, ghost t: Shape, ghost c: Context) returns (itemp: Item?)
    requires Placed(rootp, t, c) && t.Node? && t.item == item0
    ensures itemp == if After(c) == [] then null else After(c)[0]
    ensures Placed(rootp, t, c)
  {
    itemp := item0;
    ghost var s, d := t, c;
    UpOf(rootp, s, d);
    while itemp.up != null && itemp == itemp.up.right
      invariant Placed(rootp, t, c)
      invariant Placed(rootp, s, d) && s.Node? && itemp == s.item && After(d) == After(c)
      invariant itemp.up == Parent(d)
      decreases d
    {
      AboveHole(s, d);
      GoUp(rootp, s, d);
      itemp := itemp.up;
      s, d := Up(s, d), d.above;
    }
    if itemp.up == null {
      return null;
    }
    AboveHole(s, d);
    itemp := itemp.up;
  }

  lemma UpOf(rootp: Root, t: Shape, c: Context)
    requires Placed(rootp, t, c) && t.Node?
    ensures t.item.up == Parent(c)
  {
    assert Links(t.item, RootOf(t.left), RootOf(t.right), Parent(c), t.bal) in Wiring(t, c);
  }

  lemma GoBack(rootp: Root, t: Shape, c: Context)
    requires t.Node? && Placed(rootp, t.right, RightOf(t, c))
    ensures Placed(rootp, t, c)
  {
    Refocus(t.left, t.item, t.bal, t.right, c);
  }

  // ---- The removal

  ghost function MoveUp(k: Links, itemp: Item, m: Item, lp: Item, u: Item?): Links {
    if k.item == m then k.(left := lp)
    else if k.item == lp then k.(up := m)
    else if k.item == u then Refill(k, itemp, m)
    else k
  }

  /** relocp becomes the item above the left subtree of itemp and below the item above itemp. */
  method TakePlace(rootp: Root, itemp: Item, relocp: Item, ghost s: set<Item>, ghost ks: set<Links>)
    requires AllHold(ks) && (forall k :: k in ks ==> k.item in s) && itemp in s && relocp in s && itemp != relocp
    requires itemp.left != null && itemp.left in s && itemp.left != itemp && itemp.left != relocp
    requires itemp.up != null ==> itemp.up in s && (itemp.up.left == itemp <==> itemp.up.right != itemp)
    requires itemp.up !in {itemp, relocp, itemp.left}
    modifies rootp`root, s`left, s`right, s`up
    ensures forall k :: k in ks && k.item != itemp ==> Holds(MoveUp(k, itemp, relocp, old(itemp.left), old(itemp.up)))
    ensures rootp.root == if old(itemp.up) == null then relocp else old(rootp.root)
    ensures itemp.left == old(itemp.left) && itemp.right == old(itemp.right) && itemp.up == old(itemp.up)
    ensures relocp.right == old(relocp.right) && relocp.up == old(relocp.up) && relocp.left == old(itemp.left)
    ensures forall x :: x in s && x !in {itemp, relocp, old(itemp.left), old(itemp.up)} ==> x.left == old(x.left)
  {
    relocp.left := itemp.left;
    if relocp.left != null {
      relocp.left.up := relocp;
    }
    if itemp.up == null {
      rootp.root := relocp;
    } else {
      if itemp == itemp.up.left {
        itemp.up.left := relocp;
      } else {
        itemp.up.right := relocp;
      }
    }
  }

  ghost function MoveOut(k: Links, m: Item, rp: Item, u: Item?, q: Item?, p: Item?, b: Balance): Links {
    if k.item == m then Links(m, k.left, if p == null then q else rp, u, b)
    else if p == null then (if k.item == q then k.(up := m) else k)
    else if k.item == q then k.(up := p)
    else
      var k1 := if k.item == p then k.(left := q) else k;
      if k.item == rp then k1.(up := m) else k1
  }

  /**
   * relocp leaves its right subtree behind and takes over the right subtree of itemp; returns where the fix-up starts.
   */
  method LeavePlace(itemp: Item, relocp: Item, ghost s: set<Item>, ghost ks: set<Links>) returns (parentp: Item)
    requires AllHold(ks) && (forall k :: k in ks ==> k.item in s && k.item != itemp)
    requires itemp in s && relocp in s && itemp != relocp
    requires itemp.right != null && itemp.right in s && itemp.right != itemp
    requires relocp.right != null ==> relocp.right in s && relocp.right !in {itemp, relocp, itemp.right}
    requires relocp.up != null && relocp.up in s && relocp.up != relocp
    requires relocp.up == itemp ==> itemp.right == relocp && itemp.left != relocp
    requires relocp.up != itemp ==> relocp.up.left == relocp && relocp.up != relocp.right && itemp.right != relocp
    modifies s`left, s`right, s`up, s`balance
    ensures var far := old(relocp.up) != itemp; var p := if far then old(relocp.up) else null;
      && parentp == (if far then old(relocp.up) else relocp)
      && forall k :: k in ks ==>
        Holds(MoveOut(k, relocp, old(itemp.right), old(itemp.up), old(relocp.right),
                      p, old(itemp.balance)))
  {
    var replacep := relocp.right;
    if relocp == relocp.up.left {
      assert relocp.up != itemp;
      relocp.up.left := replacep;
      parentp := relocp.up;
      if replacep != null {
        replacep.up := relocp.up;
      }
      relocp.right := itemp.right;
    } else {
      assert relocp.up == itemp;
      relocp.right := replacep;
      parentp := relocp;
    }
    if relocp.right != null {
      relocp.right.up := relocp;
    }
    relocp.up := itemp.up;
    relocp.balance := itemp.balance;
  }

  lemma MoveUpThenOut(k: Links, itemp: Item, m: Item, lp: Item, rp: Item, u: Item?, q: Item?, p: Item?, b: Balance)
    requires itemp != m && lp !in {itemp, m} && u !in {itemp, m, lp} && q !in {itemp, m, lp, rp} && (q != null ==> q != u)
    requires p == null ==> rp == m
    requires p != null ==> p !in {itemp, m, lp, q, u} && rp !in {itemp, m, lp, u}
    requires k.item != itemp
    ensures MoveOut(MoveUp(k, itemp, m, lp, u), m, rp, u, q, p, b) == Move(k, itemp, m, lp, rp, u, q, p, b)
  {
  }

  /** The pointers around an item with two subtrees and around its successor. */
  lemma NearMin(t: Shape, c: Context)
    requires Full(t) && Separate(t, c) && AllHold(Wiring(t, c))
    ensures var it, m, q, u, s := t.item, Min(t.right).item, RootOf(Min(t.right).right), Parent(c), Everything(t, c);
      && it.left == t.left.item && it.right == t.right.item && it.up == u && it.balance == t.bal && it.indexed
      && m.left == null && m.right == q && m.up == (if Spine(t).Top? then it else Spine(t).item)
      && (!Spine(t).Top? ==> Spine(t).item.left == m)
      && {it, m, t.left.item, t.right.item, m.up} <= s && (q != null ==> q in s)
      && (forall k :: k in Wiring(t, c) ==> k.item in s)
  {
    var m, c1 := Min(t.right), Graft(Spine(t), InRight(t.left, t.item, t.bal, c));
    WiringFromMin(t, c);
    AroundMin(t, c);
    TreeLinksItems(t, Parent(c));
    PathLinksItems(c, t.item);
    assert Links(t.item, t.left.item, t.right.item, Parent(c), t.bal) in Wiring(t, c);
    assert Links(m.item, null, RootOf(m.right), Parent(c1), m.bal) in Wiring(m, c1);
    if c1.InLeft? {
      assert Links(c1.item, m.item, RootOf(c1.right), Parent(c1.above), c1.bal) in Wiring(m, c1);
    }
  }

  lemma ApartMin(t: Shape, c: Context)
    requires Full(t) && Separate(t, c)
    ensures var itemp, m, lp, rp, q, u, p :=
        t.item, Min(t.right).item, t.left.item, t.right.item, RootOf(Min(t.right).right), Parent(c), Parent(Spine(t));
      && itemp != m && lp !in {itemp, m} && u !in {itemp, m, lp, rp} && q !in {itemp, m, lp, rp} && (q != null ==> q != u)
      && (p == null ==> rp == m) && rp != itemp && rp != lp
      && (p != null ==> p !in {itemp, m, lp, q, u} && rp !in {itemp, m, lp, u})
  {
    AroundMin(t, c);
    assert t.left.item in Items(t.left) && t.right.item in Items(t.right);
  }

  ghost predicate CanRelocate(itemp: Item, m: Item, s: set<Item>)
    reads s
  {
    {itemp, m} <= s && itemp.left != null && itemp.right != null && {itemp.left, itemp.right} <= s && m.left == null
    && (itemp.up != null ==> itemp.up in s && (itemp.up.left == itemp <==> itemp.up.right != itemp))
    && m.up != null && m.up in s && (m.right != null ==> m.right in s && m.right != itemp.up)
    && itemp != m && itemp.left !in {itemp, m} && itemp.up !in {itemp, m, itemp.left, itemp.right}
    && m.right !in {itemp, m, itemp.left, itemp.right} && itemp.right !in {itemp, itemp.left}
    && (m.up == itemp ==> itemp.right == m)
    && (m.up != itemp ==> m.up.left == m && m.up !in {m, itemp.left, m.right, itemp.up} && itemp.right !in {m, itemp.up})
  }

  method RelocateLinks(rootp: Root, itemp: Item, relocp: Item, ghost s: set<Item>, ghost ks: set<Links>)
      returns (parentp: Item)
    requires AllHold(ks) && (forall k :: k in ks ==> k.item in s) && CanRelocate(itemp, relocp, s)
    modifies rootp`root, s`left, s`right, s`up, s`balance
    ensures var p := if old(relocp.up) != itemp then old(relocp.up) else null;
      && parentp == (if p != null then p else relocp)
      && forall k :: k in ks && k.item != itemp ==>
           Holds(Move(k, itemp, relocp, old(itemp.left), old(itemp.right), old(itemp.up), old(relocp.right),
                      p, old(itemp.balance)))
    ensures rootp.root == if old(itemp.up) == null then relocp else old(rootp.root)
  {
    ghost var lp, rp, u, q, b := itemp.left, itemp.right, itemp.up, relocp.right, itemp.balance;
    ghost var p := if relocp.up != itemp then relocp.up else null;
    TakePlace(rootp, itemp, relocp, s, ks);
    ghost var v := set k | k in ks && k.item != itemp :: MoveUp(k, itemp, relocp, lp, u);
    parentp := LeavePlace(itemp, relocp, s, v);
    forall k | k in ks && k.item != itemp ensures Holds(Move(k, itemp, relocp, lp, rp, u, q, p, b)) {
      MoveUpThenOut(k, itemp, relocp, lp, rp, u, q, p, b);
      assert MoveUp(k, itemp, relocp, lp, u) in v;
    }
  }

  /** The successor of itemp takes its place; returns where the fix-up starts. */
  method Relocate(rootp: Root, itemp: Item, relocp: Item, ghost t: Shape, ghost c: Context) returns (parentp: Item)
    requires Placed(rootp, t, c) && Full(t) && t.item == itemp && relocp == Min(t.right).item
    modifies rootp`root, Everything(t, c)`left, Everything(t, c)`right, Everything(t, c)`up, Everything(t, c)`balance
    ensures parentp == Parent(Relocated(t, c))
    ensures Placed(rootp, Min(t.right).right, Relocated(t, c))
  {
    NearMin(t, c);
    ApartMin(t, c);
    if !c.Top? {
      AboveHole(t, c);
    }
    parentp := RelocateLinks(rootp, itemp, relocp, Everything(t, c), Wiring(t, c));
    Moved(t, c);
    RelocatedItems(t, c);
  }

  /** avl_remove, when the item has two subtrees. */
  method RemoveIndirect(rootp: Root, itemp: Item, ghost t: Shape, ghost c: Context) returns (ghost r: Shape)
    requires Placed(rootp, t, c) && Full(t) && t.item == itemp && Avl(t) && AvlContext(c, Height(t))
    modifies rootp`root, Everything(t, c)`left, Everything(t, c)`right, Everything(t, c)`up, Everything(t, c)`balance
    ensures Settled(rootp, r, Before(c) + InOrder(t.left) + InOrder(t.right) + After(c), Everything(t, c) - {itemp})
  {
    MinPlug(t.right, Top);
    var relocp := Next(rootp, itemp, t, c);
    assert relocp == Min(t.right).item;
    NearMin(t, c);
    assert relocp != null && relocp.up != null && relocp.left == null;
    var replacep := relocp.right;
    var parentp := Relocate(rootp, itemp, relocp, t, c);
    RelocatedItems(t, c);
    RelocatedHeight(t, c);
    RelocatedOrder(t, c);
    r := DeleteFix(rootp, replacep, parentp, Min(t.right).right, Relocated(t, c));
  }

  method ReplaceLinks(rootp: Root, itemp: Item, ghost s: set<Item>, ghost ks: set<Links>)
      returns (replacep: Item?, parentp: Item?)
    requires AllHold(ks) && (forall k :: k in ks ==> k.item in s) && itemp in s && (itemp.left == null || itemp.right == null)
    requires forall q :: q in {itemp.left, itemp.right} && q != null ==> q in s && q != itemp && q != itemp.up
    requires itemp.up != null ==> itemp.up in s && itemp.up != itemp && (itemp.up.left == itemp <==> itemp.up.right != itemp)
    modifies rootp`root, s`left, s`right, s`up
    ensures replacep == old(if itemp.left != null then itemp.left else itemp.right) && parentp == old(itemp.up)
    ensures forall k :: k in ks && k.item != itemp ==> Holds(Replace(k, itemp, replacep, parentp))
    ensures rootp.root == if parentp == null then replacep else old(rootp.root)
  {
    parentp := itemp.up;
    replacep := itemp.left;
    if replacep == null {
      replacep := itemp.right;
    }
    if replacep != null {
      replacep.up := parentp;
    }
    if parentp == null {
      rootp.root := replacep;
    } else {
      if itemp == parentp.left {
        parentp.left := replacep;
      } else {
        parentp.right := replacep;
      }
    }
  }

  /** The only subtree of itemp takes its place; returns it and where the fix-up starts. */
  method Splice(rootp: Root, itemp: Item, ghost t: Shape, ghost c: Context) returns (replacep: Item?, parentp: Item?)
    requires Placed(rootp, t, c) && t.Node? && !Full(t) && t.item == itemp
    modifies rootp`root, Everything(t, c)`left, Everything(t, c)`right, Everything(t, c)`up
    ensures replacep == RootOf(OnlyChild(t)) && parentp == Parent(c)
    ensures Placed(rootp, OnlyChild(t), c) && Everything(OnlyChild(t), c) == Everything(t, c) - {itemp}
  {
    NearOnly(t, c);
    replacep, parentp := ReplaceLinks(rootp, itemp, Everything(t, c), Wiring(t, c));
    Replaced(t, c);
  }

  /** avl_remove, when the item has at most one subtree. */
  method RemoveDirect(rootp: Root, itemp: Item, ghost t: Shape, ghost c: Context) returns (ghost r: Shape)
    requires Placed(rootp, t, c) && t.Node? && !Full(t) && t.item == itemp && Avl(t) && AvlContext(c, Height(t))
    modifies rootp`root, Everything(t, c)`left, Everything(t, c)`right, Everything(t, c)`up, Everything(t, c)`balance
    ensures Settled(rootp, r, Before(c) + InOrder(t.left) + InOrder(t.right) + After(c), Everything(t, c) - {itemp})
  {
    OnlyOrder(t, c);
    var replacep, parentp := Splice(rootp, itemp, t, c);
    if parentp == null {
      Settle(rootp, OnlyChild(t), c);
      r := OnlyChild(t);
    } else {
      r := DeleteFix(rootp, replacep, parentp, OnlyChild(t), c);
    }
  }

  lemma OnlyOrder(t: Shape, c: Context)
    requires t.Node? && !Full(t)
    ensures Around(OnlyChild(t), c) == Before(c) + InOrder(t.left) + InOrder(t.right) + After(c)
    ensures Avl(t) ==> Avl(OnlyChild(t)) && Height(t) == Height(OnlyChild(t)) + 1
  {
    if t.left.Leaf? {
      assert Before(c) + [] == Before(c);
    } else {
      assert Before(c) + InOrder(t.left) + [] == Before(c) + InOrder(t.left);
    }
  }

  lemma NearOnly(t: Shape, c: Context)
    requires t.Node? && !Full(t) && Separate(t, c) && AllHold(Wiring(t, c))
    ensures var it, q, u, s := t.item, RootOf(OnlyChild(t)), Parent(c), Everything(t, c);
      && it.left == RootOf(t.left) && it.right == RootOf(t.right) && it.up == u && it.indexed
      && it in s && (q != null ==> q in s && q != it && q != u) && (u != null ==> u in s && u != it)
      && (u != null ==> (u.left == it <==> u.right != it))
      && (forall k :: k in Wiring(t, c) ==> k.item in s)
  {
    TreeLinksItems(t, Parent(c));
    PathLinksItems(c, t.item);
    if !c.Top? {
      AboveHole(t, c);
    }
    assert Links(t.item, RootOf(t.left), RootOf(t.right), Parent(c), t.bal) in Wiring(t, c);
    assert OnlyChild(t).Node? ==> OnlyChild(t).item in Items(t);
  }

  // ---- The whole tree

  /** The tree in the heap is the AVL tree rootp.shape. */
  ghost predicate Valid(rootp: Root)
    reads rootp, Items(rootp.shape)`left, Items(rootp.shape)`right, Items(rootp.shape)`up
    reads Items(rootp.shape)`balance, Items(rootp.shape)`indexed
  {
    Placed(rootp, rootp.shape, Top) && Avl(rootp.shape)
  }

  ghost function Without(s: seq<Item>, x: Item): seq<Item> {
    if s == [] then [] else if s[0] == x then s[1..] else [s[0]] + Without(s[1..], x)
  }

  lemma {:induction false} WithoutMiddle(a: seq<Item>, x: Item, b: seq<Item>)
    requires x !in a
    ensures Without(a + [x] + b, x) == a + b
  {
    var s := a + [x] + b;
    if a == [] {
      assert s[1..] == b && a + b == b;
    } else {
      assert s[0] == a[0] && s[1..] == a[1..] + [x] + b;
      WithoutMiddle(a[1..], x, b);
      assert [a[0]] + (a[1..] + b) == a + b;
    }
  }

  /** Every item of a tree is the root of a subtree in a context. */
  lemma {:induction false} Focus(t: Shape, a: Context, it: Item) returns (s: Shape, c: Context)
    requires it in Items(t)
    ensures s.Node? && s.item == it && Plug(c, s) == Plug(a, t)
  {
    if t.item == it {
      s, c := t, a;
    } else if it in Items(t.left) {
      s, c := Focus(t.left, InLeft(t.item, t.bal, t.right, a), it);
    } else {
      s, c := Focus(t.right, InRight(t.left, t.item, t.bal, a), it);
    }
  }

  lemma {:induction false} InOrderItems(t: Shape)
    ensures forall x :: x in InOrder(t) <==> x in Items(t)
  {
    if t.Node? {
      InOrderItems(t.left);
      InOrderItems(t.right);
    }
  }

  lemma {:induction false} AroundItems(c: Context, x: Item)
    ensures x in Before(c) || x in After(c) ==> x in CtxItems(c)
  {
    match c
    case Top =>
    case InLeft(_, _, r, a) =>
      AroundItems(a, x);
      InOrderItems(r);
    case InRight(l, _, _, a) =>
      AroundItems(a, x);
      InOrderItems(l);
  }

  lemma WithoutOne(a: seq<Item>, l: seq<Item>, x: Item, r: seq<Item>, b: seq<Item>)
    requires x !in a && x !in l
    ensures Without(a + (l + [x] + r) + b, x) == a + l + r + b
  {
    WithoutMiddle(a + l, x, r + b);
    assert a + (l + [x] + r) + b == (a + l) + [x] + (r + b);
    assert (a + l) + (r + b) == a + l + r + b;
  }

  lemma WithoutFocus(t: Shape, c: Context)
    requires t.Node? && Separate(t, c)
    ensures Before(c) + InOrder(t.left) + InOrder(t.right) + After(c) == Without(Around(t, c), t.item)
  {
    AroundItems(c, t.item);
    InOrderItems(t.left);
    assert t.item in Items(t);
    WithoutOne(Before(c), InOrder(t.left), t.item, InOrder(t.right), After(c));
  }

  lemma {:induction false} UnplugAvl(c: Context, t: Shape)
    requires Avl(Plug(c, t))
    ensures Avl(t) && AvlContext(c, Height(t))
  {
    match c
    case Top =>
    case InLeft(it, b, r, a) => UnplugAvl(a, Node(t, it, b, r));
    case InRight(l, it, b, a) => UnplugAvl(a, Node(l, it, b, t));
  }

  /** The mark of an item outside the tree plays no part in it. */
  method Unmark(rootp: Root, itemp: Item, ghost t: Shape)
    requires Placed(rootp, t, Top) && itemp !in Items(t)
    modifies itemp`indexed
    ensures Placed(rootp, t, Top) && !itemp.indexed
  {
    TreeLinksItems(t, null);
    itemp.indexed := false;
  }

  lemma NearFocus(rootp: Root, itemp: Item) returns (t: Shape, c: Context)
    requires Valid(rootp) && itemp in Items(rootp.shape)
    ensures Placed(rootp, t, c) && t.Node? && t.item == itemp && Avl(t) && AvlContext(c, Height(t))
    ensures Everything(t, c) == Items(rootp.shape)
    ensures Before(c) + InOrder(t.left) + InOrder(t.right) + After(c) == Without(InOrder(rootp.shape), itemp)
    ensures itemp.indexed && itemp.left == RootOf(t.left) && itemp.right == RootOf(t.right)
  {
    t, c := Focus(rootp.shape, Top, itemp);
    PlugWiring(c, t);
    PlugInOrder(c, t);
    UnplugAvl(c, t);
    WithoutFocus(t, c);
    assert Links(itemp, RootOf(t.left), RootOf(t.right), Parent(c), t.bal) in Wiring(t, c);
  }

  /** Takes the item out of the tree; only its mark is left. */
  method Detach(rootp: Root, itemp: Item, ghost t: Shape, ghost c: Context) returns (ghost r: Shape)
    requires Placed(rootp, t, c) && t.Node? && t.item == itemp && Avl(t) && AvlContext(c, Height(t))
    requires itemp.left == RootOf(t.left) && itemp.right == RootOf(t.right)
    modifies rootp`root, Everything(t, c)`left, Everything(t, c)`right, Everything(t, c)`up, Everything(t, c)`balance
    ensures Settled(rootp, r, Before(c) + InOrder(t.left) + InOrder(t.right) + After(c), Everything(t, c) - {itemp})
  {
    if itemp.left == null || itemp.right == null {
      r := RemoveDirect(rootp, itemp, t, c);
    } else {
      r := RemoveIndirect(rootp, itemp, t, c);
    }
  }

  /** avl_remove */
  method Remove(rootp: Root, itemp: Item)
    requires Valid(rootp) && itemp in Items(rootp.shape)
    modifies rootp, Items(rootp.shape)`left, Items(rootp.shape)`right, Items(rootp.shape)`up
    modifies Items(rootp.shape)`balance, Items(rootp.shape)`indexed
    ensures Valid(rootp) && !itemp.indexed
    ensures Items(rootp.shape) == old(Items(rootp.shape)) - {itemp}
    ensures InOrder(rootp.shape) == Without(old(InOrder(rootp.shape)), itemp)
  {
    ghost var t, c := NearFocus(rootp, itemp);
    assert itemp.indexed;
    ghost var r := Detach(rootp, itemp, t, c);
    Unmark(rootp, itemp, r);
    rootp.shape := r;
  }
}
