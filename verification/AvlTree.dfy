/**
 * The fix-up loops of avl.h after an insertion and a removal.
 *
 * The loops keep one place in the tree where the heights are wrong: the subtree in a hole has become one higher
 * (`Growing`) or one lower (`Shrinking`) than the context around it expects. Each round repairs the subtree around the
 * item above the hole, and either the whole is an AVL tree then (`Fits`), or the place moves one level up. The order of
 * the items never changes.
 */
module AvlTree {
  import opened AvlModel
  import opened AvlRotations

  /** The items of the whole tree around t in order. */
  ghost function Around(t: Shape, c: Context): seq<Item> {
    Before(c) + InOrder(t) + After(c)
  }

  ghost function Everything(t: Shape, c: Context): set<Item> {
    Items(t) + CtxItems(c)
  }

  /** r is the AVL tree in the heap, and holds the items of t in c in the same order. */
  ghost predicate Settled(rootp: Root, r: Shape, order: seq<Item>, items: set<Item>)
    reads rootp`root, Items(r)`left, Items(r)`right, Items(r)`up, Items(r)`balance, Items(r)`indexed
  {
    Placed(rootp, r, Top) && Avl(r) && InOrder(r) == order && Items(r) == items
  }

  lemma Settle(rootp: Root, t: Shape, c: Context)
    requires Placed(rootp, t, c) && Avl(t) && AvlContext(c, Height(t))
    ensures Settled(rootp, Plug(c, t), Around(t, c), Everything(t, c))
  {
    PlugWiring(c, t);
    PlugAvl(c, t);
    PlugInOrder(c, t);
  }

  ghost function LeftOf(t: Shape, c: Context): Context
    requires t.Node?
  {
    InLeft(t.item, t.bal, t.right, c)
  }

  ghost function RightOf(t: Shape, c: Context): Context
    requires t.Node?
  {
    InRight(t.left, t.item, t.bal, c)
  }

  /** A step down to a subtree. */
  lemma GoDown(rootp: Root, t: Shape, c: Context)
    requires t.Node? && Placed(rootp, t, c)
    ensures t.item.left == RootOf(t.left) && t.item.right == RootOf(t.right)
    ensures Placed(rootp, t.left, LeftOf(t, c)) && Placed(rootp, t.right, RightOf(t, c))
  {
    Refocus(t.left, t.item, t.bal, t.right, c);
    assert Links(t.item, RootOf(t.left), RootOf(t.right), Parent(c), t.bal) in Wiring(t, c);
  }

  /** The tree around the item above the hole. */
  ghost function Up(t: Shape, c: Context): (n: Shape)
    requires !c.Top?
    ensures n.Node?
  {
    if c.InLeft? then Node(t, c.item, c.bal, c.right) else Node(c.left, c.item, c.bal, t)
  }

  lemma UpOrder(t: Shape, c: Context)
    requires !c.Top?
    ensures Around(Up(t, c), c.above) == Around(t, c)
  {
    if c.InLeft? {
      assert Before(c.above) + (InOrder(t) + [c.item] + InOrder(c.right)) + After(c.above)
          == Before(c.above) + InOrder(t) + ([c.item] + InOrder(c.right) + After(c.above));
    } else {
      assert Before(c.above) + (InOrder(c.left) + [c.item] + InOrder(t)) + After(c.above)
          == (Before(c.above) + InOrder(c.left) + [c.item]) + InOrder(t) + After(c.above);
    }
  }

  lemma GoUp(rootp: Root, t: Shape, c: Context)
    requires Placed(rootp, t, c) && !c.Top?
    ensures Placed(rootp, Up(t, c), c.above) && Everything(Up(t, c), c.above) == Everything(t, c)
    ensures c.item.balance == c.bal && c.item.up == Parent(c.above)
    ensures c.item.left == RootOf(Up(t, c).left) && c.item.right == RootOf(Up(t, c).right)
  {
    if c.InLeft? {
      Refocus(t, c.item, c.bal, c.right, c.above);
    } else {
      Refocus(c.left, c.item, c.bal, t, c.above);
    }
    var n := Up(t, c);
    assert Links(n.item, RootOf(n.left), RootOf(n.right), Parent(c.above), n.bal) in Wiring(n, c.above);
  }

  ghost function Relevel(t: Shape, b: Balance): (n: Shape)
    requires t.Node?
    ensures n.Node?
  {
    Node(t.left, t.item, b, t.right)
  }

  lemma Rebalanced(t: Shape, c: Context, b: Balance)
    requires t.Node? && Separate(t, c)
    requires forall j :: j in Wiring(t, c) ==> Holds(if j.item == t.item then j.(bal := b) else j)
    ensures AllHold(Wiring(Relevel(t, b), c))
  {
    TreeLinksItems(t.left, t.item);
    TreeLinksItems(t.right, t.item);
    PathLinksItems(c, t.item);
    forall k | k in Wiring(Relevel(t, b), c) ensures Holds(k) {
      var j := if k.item == t.item then k.(bal := t.bal) else k;
      assert j in Wiring(t, c);
    }
  }

  method SetBalance(rootp: Root, itemp: Item, b: Balance, ghost t: Shape, ghost c: Context)
    requires Placed(rootp, t, c) && t.Node? && t.item == itemp
    modifies itemp`balance
    ensures Placed(rootp, Relevel(t, b), c)
  {
    itemp.balance := b;
    Rebalanced(t, c, b);
  }

  lemma OrderLL(t: Shape, xb: Balance, yb: Balance)
    requires t.Node? && t.left.Node?
    ensures InOrder(ShapeLL(t, xb, yb)) == InOrder(t)
  {
  }

  lemma OrderRR(t: Shape, xb: Balance, yb: Balance)
    requires t.Node? && t.right.Node?
    ensures InOrder(ShapeRR(t, xb, yb)) == InOrder(t)
  {
  }

  lemma OrderLR(t: Shape)
    requires TurnsLR(t)
    ensures InOrder(LeveledLR(t)) == InOrder(t)
  {
    var a, x, w, y, e := t.left.left, t.left.item, t.left.right, t.item, t.right;
    assert InOrder(t.left) == InOrder(a) + [x] + (InOrder(w.left) + [w.item] + InOrder(w.right));
  }

  lemma OrderRL(t: Shape)
    requires TurnsRL(t)
    ensures InOrder(LeveledRL(t)) == InOrder(t)
  {
    var a, x, w, y, e := t.right.right, t.right.item, t.right.left, t.item, t.left;
    assert InOrder(t.right) == (InOrder(w.left) + [w.item] + InOrder(w.right)) + [x] + InOrder(a);
  }

  // ---- Insertion

  /** t is an AVL tree and so is the whole around it. */
  ghost predicate Fits(t: Shape, c: Context) {
    Avl(t) && AvlContext(c, Height(t))
  }

  /** t has become one higher than the hole it sits in. */
  ghost predicate Growing(t: Shape, c: Context) {
    Avl(t) && Height(t) > 0 && AvlContext(c, Height(t) - 1) && (t.bal == CENT ==> Height(t) == 1)
  }

  lemma GrowLL(t: Shape, c: Context)
    requires Growing(t, c) && c.InLeft? && c.bal == LEFT && t.bal == LEFT
    ensures Fits(ShapeLL(Up(t, c), CENT, CENT), c.above)
  {
  }

  lemma GrowLR(t: Shape, c: Context)
    requires Growing(t, c) && c.InLeft? && c.bal == LEFT && t.bal != LEFT
    ensures t.bal == RIGHT && TurnsLR(Up(t, c)) && Fits(LeveledLR(Up(t, c)), c.above)
  {
    var w := t.right;
    assert Avl(w) && Leans(w.bal, Height(w.left), Height(w.right));
  }

  lemma GrowLeft(t: Shape, c: Context)
    requires Growing(t, c) && c.InLeft? && c.bal != LEFT
    ensures c.bal == CENT ==> Growing(Relevel(Up(t, c), LEFT), c.above)
    ensures c.bal == RIGHT ==> Fits(Relevel(Up(t, c), CENT), c.above)
  {
  }

  /** The body of the loop when the left subtree has grown. */
  method InsertLeft(rootp: Root, parentp: Item, itemp: Item, ghost t: Shape, ghost c: Context)
      returns (done: bool, ghost n: Shape)
    requires Placed(rootp, t, c) && Growing(t, c) && c.InLeft? && parentp == c.item && itemp == t.item
    modifies rootp`root, Everything(t, c)`left, Everything(t, c)`right, Everything(t, c)`up, Everything(t, c)`balance
    ensures Placed(rootp, n, c.above) && Around(n, c.above) == Around(t, c)
      && Everything(n, c.above) == Everything(t, c)
    ensures if done then Fits(n, c.above) else Growing(n, c.above) && RootOf(n) == parentp
  {
    GoUp(rootp, t, c);
    UpOrder(t, c);
    n := Up(t, c);
    assert itemp.balance == t.bal by {
      assert Links(itemp, RootOf(t.left), RootOf(t.right), parentp, t.bal) in Wiring(t, c);
    }
    if parentp.balance == LEFT {
      if itemp.balance == LEFT {
        GrowLL(t, c);
        OrderLL(n, CENT, CENT);
        FixLL(rootp, parentp, itemp, CENT, CENT, n, c.above);
        n := ShapeLL(n, CENT, CENT);
      } else {
        GrowLR(t, c);
        assert itemp.balance != CENT;
        OrderLR(n);
        assert itemp.right == t.right.item by {
          assert Links(itemp, RootOf(t.left), RootOf(t.right), parentp, t.bal) in Wiring(t, c);
        }
        FixLR(rootp, parentp, itemp, itemp.right, n, c.above);
        n := LeveledLR(n);
      }
      done := true;
    } else {
      GrowLeft(t, c);
      if parentp.balance == CENT {
        SetBalance(rootp, parentp, LEFT, n, c.above);
        n, done := Relevel(n, LEFT), false;
      } else {
        SetBalance(rootp, parentp, CENT, n, c.above);
        n, done := Relevel(n, CENT), true;
      }
    }
  }

  lemma GrowRR(t: Shape, c: Context)
    requires Growing(t, c) && c.InRight? && c.bal == RIGHT && t.bal == RIGHT
    ensures Fits(ShapeRR(Up(t, c), CENT, CENT), c.above)
  {
  }

  lemma GrowRL(t: Shape, c: Context)
    requires Growing(t, c) && c.InRight? && c.bal == RIGHT && t.bal != RIGHT
    ensures t.bal == LEFT && TurnsRL(Up(t, c)) && Fits(LeveledRL(Up(t, c)), c.above)
  {
    var w := t.left;
    assert Avl(w) && Leans(w.bal, Height(w.left), Height(w.right));
  }

  lemma GrowRight(t: Shape, c: Context)
    requires Growing(t, c) && c.InRight? && c.bal != RIGHT
    ensures c.bal == CENT ==> Growing(Relevel(Up(t, c), RIGHT), c.above)
    ensures c.bal == LEFT ==> Fits(Relevel(Up(t, c), CENT), c.above)
  {
  }

  /** The body of the loop when the right subtree has grown. */
  method InsertRight(rootp: Root, parentp: Item, itemp: Item, ghost t: Shape, ghost c: Context)
      returns (done: bool, ghost n: Shape)
    requires Placed(rootp, t, c) && Growing(t, c) && c.InRight? && parentp == c.item && itemp == t.item
    modifies rootp`root, Everything(t, c)`left, Everything(t, c)`right, Everything(t, c)`up, Everything(t, c)`balance
    ensures Placed(rootp, n, c.above) && Around(n, c.above) == Around(t, c)
      && Everything(n, c.above) == Everything(t, c)
    ensures if done then Fits(n, c.above) else Growing(n, c.above) && RootOf(n) == parentp
  {
    GoUp(rootp, t, c);
    UpOrder(t, c);
    n := Up(t, c);
    assert itemp.balance == t.bal by {
      assert Links(itemp, RootOf(t.left), RootOf(t.right), parentp, t.bal) in Wiring(t, c);
    }
    if parentp.balance == RIGHT {
      if itemp.balance == RIGHT {
        GrowRR(t, c);
        OrderRR(n, CENT, CENT);
        FixRR(rootp, parentp, itemp, CENT, CENT, n, c.above);
        n := ShapeRR(n, CENT, CENT);
      } else {
        GrowRL(t, c);
        assert itemp.balance != CENT;
        OrderRL(n);
        assert itemp.left == t.left.item by {
          assert Links(itemp, RootOf(t.left), RootOf(t.right), parentp, t.bal) in Wiring(t, c);
        }
        FixRL(rootp, parentp, itemp, itemp.left, n, c.above);
        n := LeveledRL(n);
      }
      done := true;
    } else {
      GrowRight(t, c);
      if parentp.balance == CENT {
        SetBalance(rootp, parentp, RIGHT, n, c.above);
        n, done := Relevel(n, RIGHT), false;
      } else {
        SetBalance(rootp, parentp, CENT, n, c.above);
        n, done := Relevel(n, CENT), true;
      }
    }
  }

  /** newp is linked below the hole of c, but not yet part of the tree. */
  ghost predicate Hooked(rootp: Root, newp: Item, c: Context)
    reads rootp`root, newp, CtxItems(c)`left, CtxItems(c)`right, CtxItems(c)`up, CtxItems(c)`balance,
      CtxItems(c)`indexed
  {
    PathLinksItems(c, newp);
    CtxDistinct(c) && newp !in CtxItems(c) && AllHold(PathLinks(c, newp)) && rootp.root == FirstOf(c, newp)
    && newp.up == Parent(c) && newp.balance == CENT && !newp.indexed
  }

  ghost function Single(newp: Item): Shape {
    Node(Leaf, newp, CENT, Leaf)
  }

  lemma SingleFacts(newp: Item, c: Context)
    ensures Items(Single(newp)) == {newp} && InOrder(Single(newp)) == [newp] && Distinct(Single(newp))
    ensures TreeLinks(Single(newp), Parent(c)) == {Links(newp, null, null, Parent(c), CENT)}
    ensures AvlContext(c, 0) ==> Growing(Single(newp), c)
  {
    var leaf := Leaf;
    assert TreeLinks(leaf, newp) == {} && Items(leaf) == {} && Distinct(leaf);
  }

  method Enter(rootp: Root, newp: Item, ghost c: Context)
    requires Hooked(rootp, newp, c)
    modifies newp`left, newp`right, newp`indexed
    ensures Placed(rootp, Single(newp), c)
  {
    PathLinksItems(c, newp);
    newp.left, newp.right := null, null;
    assert !newp.indexed;
    newp.indexed := true;
    SingleFacts(newp, c);
  }

  /** avl_insert_fix: the new item is linked where there was an empty subtree. */
  method InsertFix(rootp: Root, newp: Item, ghost c0: Context) returns (ghost r: Shape)
    requires Hooked(rootp, newp, c0) && AvlContext(c0, 0)
    modifies rootp`root, ({newp} + CtxItems(c0))`left, ({newp} + CtxItems(c0))`right, ({newp} + CtxItems(c0))`up
    modifies ({newp} + CtxItems(c0))`balance, newp`indexed
    ensures Settled(rootp, r, Before(c0) + [newp] + After(c0), {newp} + CtxItems(c0))
  {
    Enter(rootp, newp, c0);
    SingleFacts(newp, c0);
    r := Climb(rootp, newp, Single(newp), c0);
  }

  /** The loop of avl_insert_fix. */
  method Climb(rootp: Root, newp: Item, ghost t0: Shape, ghost c0: Context) returns (ghost r: Shape)
    requires Placed(rootp, t0, c0) && Growing(t0, c0) && newp == t0.item
    modifies rootp`root, Everything(t0, c0)`left, Everything(t0, c0)`right, Everything(t0, c0)`up,
      Everything(t0, c0)`balance
    ensures Settled(rootp, r, Around(t0, c0), Everything(t0, c0))
  {
    var itemp: Item := newp;
    assert Links(newp, RootOf(t0.left), RootOf(t0.right), Parent(c0), t0.bal) in Wiring(t0, c0);
    var parentp := itemp.up;
    var done := false;
    ghost var t, c := t0, c0;
    while parentp != null && !done
      invariant Placed(rootp, t, c) && (!done ==> itemp == RootOf(t) && parentp == Parent(c))
      invariant Around(t, c) == Around(t0, c0) && Everything(t, c) == Everything(t0, c0)
      invariant if done then Fits(t, c) else Growing(t, c)
      decreases !done, c
    {
      AboveHole(t, c);
      if itemp == parentp.left {
        done, t := InsertLeft(rootp, parentp, itemp, t, c);
      } else {
        done, t := InsertRight(rootp, parentp, itemp, t, c);
      }
      c := c.above;
      if !done {
        itemp := parentp;
        assert Links(itemp, RootOf(t.left), RootOf(t.right), Parent(c), t.bal) in Wiring(t, c);
        parentp := itemp.up;
      }
    }
    Settle(rootp, t, c);
    r := Plug(c, t);
  }

  // ---- Removal

  /** t has become one lower than the hole it sits in. */
  ghost predicate Shrinking(t: Shape, c: Context) {
    Avl(t) && AvlContext(c, Height(t) + 1)
  }

  lemma ShrinkLL(t: Shape, c: Context)
    requires Shrinking(t, c) && c.InRight? && c.bal == LEFT && c.left.bal == LEFT
    ensures c.left.Node? && Shrinking(ShapeLL(Up(t, c), CENT, CENT), c.above)
  {
  }

  lemma KeepLL(t: Shape, c: Context)
    requires Shrinking(t, c) && c.InRight? && c.bal == LEFT && c.left.bal == CENT
    ensures c.left.Node? && Fits(ShapeLL(Up(t, c), RIGHT, LEFT), c.above)
  {
  }

  lemma ShrinkLR(t: Shape, c: Context)
    requires Shrinking(t, c) && c.InRight? && c.bal == LEFT && c.left.bal == RIGHT
    ensures TurnsLR(Up(t, c)) && Shrinking(LeveledLR(Up(t, c)), c.above)
  {
    var w := c.left.right;
    assert Avl(w) && Leans(w.bal, Height(w.left), Height(w.right));
  }

  lemma ShrinkRight(t: Shape, c: Context)
    requires Shrinking(t, c) && c.InRight? && c.bal != LEFT
    ensures c.bal == CENT ==> Fits(Relevel(Up(t, c), LEFT), c.above)
    ensures c.bal == RIGHT ==> Shrinking(Relevel(Up(t, c), CENT), c.above)
  {
  }

  /** The body of the loop when the right subtree has become lower. */
  method DeleteRight(rootp: Root, parentp: Item, ghost t: Shape, ghost c: Context)
      returns (done: bool, newp: Item, ghost n: Shape)
    requires Placed(rootp, t, c) && Shrinking(t, c) && c.InRight? && parentp == c.item
    modifies rootp`root, Everything(t, c)`left, Everything(t, c)`right, Everything(t, c)`up, Everything(t, c)`balance
    ensures Placed(rootp, n, c.above) && Around(n, c.above) == Around(t, c)
      && Everything(n, c.above) == Everything(t, c)
    ensures if done then Fits(n, c.above) else Shrinking(n, c.above) && RootOf(n) == newp
  {
    GoUp(rootp, t, c);
    UpOrder(t, c);
    n := Up(t, c);
    newp := parentp;
    if parentp.balance == LEFT {
      assert c.left.Node?;
      var itemp := parentp.left;
      assert itemp.balance == c.left.bal && itemp.right == RootOf(c.left.right) by {
        assert Links(itemp, RootOf(c.left.left), RootOf(c.left.right), parentp, c.left.bal) in TreeLinks(c.left, parentp);
        assert TreeLinks(c.left, parentp) <= PathLinks(c, RootOf(t));
      }
      if itemp.balance == LEFT {
        ShrinkLL(t, c);
        OrderLL(n, CENT, CENT);
        FixLL(rootp, parentp, itemp, CENT, CENT, n, c.above);
        n, newp, done := ShapeLL(n, CENT, CENT), itemp, false;
      } else if itemp.balance == CENT {
        KeepLL(t, c);
        OrderLL(n, RIGHT, LEFT);
        FixLL(rootp, parentp, itemp, RIGHT, LEFT, n, c.above);
        n, done := ShapeLL(n, RIGHT, LEFT), true;
      } else {
        ShrinkLR(t, c);
        OrderLR(n);
        var childp := itemp.right;
        FixLR(rootp, parentp, itemp, childp, n, c.above);
        n, newp, done := LeveledLR(n), childp, false;
      }
    } else {
      ShrinkRight(t, c);
      if parentp.balance == CENT {
        SetBalance(rootp, parentp, LEFT, n, c.above);
        n, done := Relevel(n, LEFT), true;
      } else {
        SetBalance(rootp, parentp, CENT, n, c.above);
        n, done := Relevel(n, CENT), false;
      }
    }
  }

  lemma ShrinkRR(t: Shape, c: Context)
    requires Shrinking(t, c) && c.InLeft? && c.bal == RIGHT && c.right.bal == RIGHT
    ensures c.right.Node? && Shrinking(ShapeRR(Up(t, c), CENT, CENT), c.above)
  {
  }

  lemma KeepRR(t: Shape, c: Context)
    requires Shrinking(t, c) && c.InLeft? && c.bal == RIGHT && c.right.bal == CENT
    ensures c.right.Node? && Fits(ShapeRR(Up(t, c), LEFT, RIGHT), c.above)
  {
  }

  lemma ShrinkRL(t: Shape, c: Context)
    requires Shrinking(t, c) && c.InLeft? && c.bal == RIGHT && c.right.bal == LEFT
    ensures TurnsRL(Up(t, c)) && Shrinking(LeveledRL(Up(t, c)), c.above)
  {
    var w := c.right.left;
    assert Avl(w) && Leans(w.bal, Height(w.left), Height(w.right));
  }

  lemma ShrinkLeft(t: Shape, c: Context)
    requires Shrinking(t, c) && c.InLeft? && c.bal != RIGHT
    ensures c.bal == CENT ==> Fits(Relevel(Up(t, c), RIGHT), c.above)
    ensures c.bal == LEFT ==> Shrinking(Relevel(Up(t, c), CENT), c.above)
  {
  }

  /** The body of the loop when the left subtree has become lower. */
  method DeleteLeft(rootp: Root, parentp: Item, ghost t: Shape, ghost c: Context)
      returns (done: bool, newp: Item, ghost n: Shape)
    requires Placed(rootp, t, c) && Shrinking(t, c) && c.InLeft? && parentp == c.item
    modifies rootp`root, Everything(t, c)`left, Everything(t, c)`right, Everything(t, c)`up, Everything(t, c)`balance
    ensures Placed(rootp, n, c.above) && Around(n, c.above) == Around(t, c)
      && Everything(n, c.above) == Everything(t, c)
    ensures if done then Fits(n, c.above) else Shrinking(n, c.above) && RootOf(n) == newp
  {
    GoUp(rootp, t, c);
    UpOrder(t, c);
    n := Up(t, c);
    newp := parentp;
    if parentp.balance == RIGHT {
      assert c.right.Node?;
      var itemp := parentp.right;
      assert itemp.balance == c.right.bal && itemp.left == RootOf(c.right.left) by {
        assert Links(itemp, RootOf(c.right.left), RootOf(c.right.right), parentp, c.right.bal) in TreeLinks(c.right, parentp);
        assert TreeLinks(c.right, parentp) <= PathLinks(c, RootOf(t));
      }
      if itemp.balance == RIGHT {
        ShrinkRR(t, c);
        OrderRR(n, CENT, CENT);
        FixRR(rootp, parentp, itemp, CENT, CENT, n, c.above);
        n, newp, done := ShapeRR(n, CENT, CENT), itemp, false;
      } else if itemp.balance == CENT {
        KeepRR(t, c);
        OrderRR(n, LEFT, RIGHT);
        FixRR(rootp, parentp, itemp, LEFT, RIGHT, n, c.above);
        n, done := ShapeRR(n, LEFT, RIGHT), true;
      } else {
        ShrinkRL(t, c);
        OrderRL(n);
        var childp := itemp.left;
        FixRL(rootp, parentp, itemp, childp, n, c.above);
        n, newp, done := LeveledRL(n), childp, false;
      }
    } else {
      ShrinkLeft(t, c);
      if parentp.balance == CENT {
        SetBalance(rootp, parentp, RIGHT, n, c.above);
        n, done := Relevel(n, RIGHT), true;
      } else {
        SetBalance(rootp, parentp, CENT, n, c.above);
        n, done := Relevel(n, CENT), false;
      }
    }
  }

  /** The first step of avl_delete_fix: a parent without children left is balanced. */
  method DeleteLeaf(rootp: Root, item0: Item?, parent0: Item, ghost t0: Shape, ghost c0: Context)
    returns (itemp: Item?, parentp: Item?, ghost t: Shape, ghost c: Context)
    requires Placed(rootp, t0, c0) && Shrinking(t0, c0) && !c0.Top? && parent0 == c0.item && item0 == RootOf(t0)
    modifies Everything(t0, c0)`balance
    ensures Placed(rootp, t, c) && Shrinking(t, c) && itemp == RootOf(t) && parentp == Parent(c)
    ensures c.InLeft? ==> t.Node? || c.right.Node?
    ensures Around(t, c) == Around(t0, c0) && Everything(t, c) == Everything(t0, c0)
  {
    itemp, parentp, t, c := item0, parent0, t0, c0;
    GoUp(rootp, t, c);
    if parentp.left == null && parentp.right == null {
      assert itemp == null;
      UpOrder(t, c);
      SetBalance(rootp, parentp, CENT, Up(t, c), c.above);
      t, c := Relevel(Up(t, c), CENT), c.above;
      itemp := parentp;
      assert Links(itemp, null, null, Parent(c), t.bal) in Wiring(t, c);
      parentp := itemp.up;
    }
  }

  /** avl_delete_fix: the subtree in the hole has become one lower. */
  method DeleteFix(rootp: Root, item0: Item?, parent0: Item, ghost t0: Shape, ghost c0: Context)
      returns (ghost r: Shape)
    requires Placed(rootp, t0, c0) && Shrinking(t0, c0) && !c0.Top? && parent0 == c0.item && item0 == RootOf(t0)
    modifies rootp`root, Everything(t0, c0)`left, Everything(t0, c0)`right, Everything(t0, c0)`up,
      Everything(t0, c0)`balance
    ensures Settled(rootp, r, Around(t0, c0), Everything(t0, c0))
  {
    var done := false;
    var itemp, parentp;
    ghost var t, c;
    itemp, parentp, t, c := DeleteLeaf(rootp, item0, parent0, t0, c0);
    while parentp != null && !done
      invariant Placed(rootp, t, c) && (!done ==> itemp == RootOf(t) && parentp == Parent(c))
      invariant !done && c.InLeft? ==> t.Node? || c.right.Node?
      invariant Around(t, c) == Around(t0, c0) && Everything(t, c) == Everything(t0, c0)
      invariant if done then Fits(t, c) else Shrinking(t, c)
      decreases !done, c
    {
      GoUp(rootp, t, c);
      WhichSide(t, c);
      var top: Item;
      if itemp == parentp.right {
        done, top, t := DeleteRight(rootp, parentp, t, c);
      } else {
        done, top, t := DeleteLeft(rootp, parentp, t, c);
      }
      c := c.above;
      if !done {
        itemp := top;
        assert Links(top, RootOf(t.left), RootOf(t.right), Parent(c), t.bal) in Wiring(t, c);
        parentp := itemp.up;
      }
    }
    assert Fits(t, c);
    Settle(rootp, t, c);
    r := Plug(c, t);
  }

  /** Only when both subtrees are empty do the two child pointers not tell the side. */
  lemma WhichSide(t: Shape, c: Context)
    requires Separate(t, c) && !c.Top?
    requires c.InLeft? ==> t.Node? || c.right.Node?
    ensures c.InLeft? ==> RootOf(c.right) != RootOf(t)
  {
    if c.InLeft? && t.Node? && c.right.Node? {
      assert t.item in Items(t) && c.right.item in CtxItems(c);
    }
  }
}
