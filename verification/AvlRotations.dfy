/**
 * The four rotations of avl.h.
 *
 * Each is proved in two steps. `RotateLL` and its like say which link fields the assignments leave behind; `RewiredLL`
 * and its like say that these are the links of the turned shape, where every link of the new shape is the image of one
 * link of the old shape. `FixLL` and its like put both together and set the balances, as the fix-up loops do.
 */
module AvlRotations {
  import opened AvlModel

  /** avl_root_t; `shape` is the tree below it between two operations. */
  class Root {
    var root: Item?
    ghost var shape: Shape

    constructor ()
      ensures root == null && shape == Leaf
    {
      root, shape := null, Leaf;
    }
  }

  /** The heap holds the tree that has t in the hole of c. */
  ghost predicate Placed(rootp: Root, t: Shape, c: Context)
    reads rootp`root, Items(t)`left, Items(t)`right, Items(t)`up, Items(t)`balance, Items(t)`indexed
    reads CtxItems(c)`left, CtxItems(c)`right, CtxItems(c)`up, CtxItems(c)`balance, CtxItems(c)`indexed
  {
    TreeLinksItems(t, Parent(c));
    PathLinksItems(c, RootOf(t));
    Separate(t, c) && AllHold(Wiring(t, c)) && rootp.root == FirstOf(c, RootOf(t))
  }

  // ---- LL: the left child x of y becomes its parent

  /** What the links k hold after turning item y under its left child x; z is the subtree that changes sides. */
  ghost function TurnLL(k: Links, y: Item, x: Item, z: Item?, u: Item?, xb: Balance, yb: Balance): Links {
    if k.item == y then Links(y, z, k.right, x, yb)
    else if k.item == x then Links(x, k.left, y, u, xb)
    else if k.item == z then k.(up := y)
    else if k.item == u then Refill(k, y, x)
    else k
  }

  ghost function ShapeLL(t: Shape, xb: Balance, yb: Balance): Shape
    requires t.Node? && t.left.Node?
  {
    Node(t.left.left, t.left.item, xb, Node(t.left.right, t.item, yb, t.right))
  }

  lemma AroundLL(t: Shape, xb: Balance, yb: Balance)
    requires t.Node? && t.left.Node? && Distinct(t)
    ensures Distinct(ShapeLL(t, xb, yb)) && Items(ShapeLL(t, xb, yb)) == Items(t)
    ensures var y, x, m := t.item, t.left.item, t.left.right;
      y != x && x != RootOf(m) && y != RootOf(m) && Distinct(m)
      && RootOf(m) !in Items(t.left.left) + Items(t.right)
      && y !in Items(t.left.left) + Items(m) + Items(t.right)
      && x !in Items(t.left.left) + Items(m) + Items(t.right)
      && y in Items(t) && x in Items(t) && (m.Node? ==> m.item in Items(t))
  {
    assert Distinct(t.left);
  }

  lemma TreeLinksLL(t: Shape, up: Item?, xb: Balance, yb: Balance, k: Links) returns (j: Links)
    requires t.Node? && t.left.Node? && Distinct(t) && up !in Items(t)
    requires k in TreeLinks(ShapeLL(t, xb, yb), up)
    ensures j in TreeLinks(t, up) && k == TurnLL(j, t.item, t.left.item, RootOf(t.left.right), up, xb, yb)
  {
    var y, x, m := t.item, t.left.item, t.left.right;
    var a, d := t.left.left, t.right;
    AroundLL(t, xb, yb);
    assert TreeLinks(t.left, y) == {Links(x, RootOf(a), RootOf(m), y, t.left.bal)} + TreeLinks(a, x) + TreeLinks(m, x);
    assert TreeLinks(Node(m, y, yb, d), x) == {Links(y, RootOf(m), RootOf(d), x, yb)} + TreeLinks(m, y) + TreeLinks(d, y);
    if k in TreeLinks(m, y) {
      j := Rehang(m, x, y, k);
    } else if k in TreeLinks(a, x) {
      j := k;
      TreeLinkItem(a, x, k);
    } else if k in TreeLinks(d, y) {
      j := k;
      TreeLinkItem(d, y, k);
    } else if k == Links(y, RootOf(m), RootOf(d), x, yb) {
      j := Links(y, x, RootOf(d), up, t.bal);
    } else {
      j := Links(x, RootOf(a), RootOf(m), y, t.left.bal);
    }
  }

  lemma PathLinksLL(c: Context, y: Item, x: Item, z: Item?, xb: Balance, yb: Balance, k: Links) returns (j: Links)
    requires CtxDistinct(c) && y !in CtxItems(c) && x !in CtxItems(c) && z !in CtxItems(c)
    requires k in PathLinks(c, x)
    ensures j in PathLinks(c, y) && k == TurnLL(j, y, x, z, Parent(c), xb, yb)
  {
    j := Refilling(c, y, x, k);
  }

  /** Every link of the turned shape is the turned image of a link from before. */
  lemma WiringLL(t: Shape, c: Context, xb: Balance, yb: Balance, k: Links) returns (j: Links)
    requires t.Node? && t.left.Node? && Separate(t, c)
    requires k in Wiring(ShapeLL(t, xb, yb), c)
    ensures j in Wiring(t, c) && k == TurnLL(j, t.item, t.left.item, RootOf(t.left.right), Parent(c), xb, yb)
  {
    AroundLL(t, xb, yb);
    if k in TreeLinks(ShapeLL(t, xb, yb), Parent(c)) {
      j := TreeLinksLL(t, Parent(c), xb, yb, k);
    } else {
      j := PathLinksLL(c, t.item, t.left.item, RootOf(t.left.right), xb, yb, k);
    }
  }

  lemma RewiredLL(t: Shape, c: Context, xb: Balance, yb: Balance)
    requires t.Node? && t.left.Node? && Separate(t, c)
    requires forall j :: j in Wiring(t, c) ==> Holds(TurnLL(j, t.item, t.left.item, RootOf(t.left.right), Parent(c), xb, yb))
    ensures AllHold(Wiring(ShapeLL(t, xb, yb), c))
  {
    forall k | k in Wiring(ShapeLL(t, xb, yb), c) ensures Holds(k) {
      var j := WiringLL(t, c, xb, yb, k);
    }
  }

  lemma NearLL(t: Shape, c: Context)
    requires t.Node? && t.left.Node? && Separate(t, c) && AllHold(Wiring(t, c))
    ensures var y, x, m, u, s := t.item, t.left.item, t.left.right, Parent(c), Items(t) + CtxItems(c);
      && y.left == x && x.right == RootOf(m) && y.up == u && y in s && x in s && (m.Node? ==> m.item in s)
      && y != x && y != u && x != u && x != RootOf(m) && y != RootOf(m)
      && (u != null ==> u in s && u != RootOf(m) && (u.left == y <==> u.right != y))
      && (forall k :: k in Wiring(t, c) ==> k.item in s)
  {
    var y, x, m, u := t.item, t.left.item, t.left.right, Parent(c);
    TreeLinksItems(t, u);
    PathLinksItems(c, y);
    AroundLL(t, CENT, CENT);
    if !c.Top? {
      AboveHole(t, c);
    }
    assert Links(x, RootOf(t.left.left), RootOf(m), y, t.left.bal) in TreeLinks(t.left, y);
    assert Links(y, x, RootOf(t.right), u, t.bal) in TreeLinks(t, u);
  }

  /** _avl_rotate_ll */
  method RotateLL(rootp: Root, itemp: Item, ghost s: set<Item>)
    requires itemp in s && itemp.left != null && itemp.left in s && itemp.left != itemp
    requires itemp.left.right != null ==> itemp.left.right in s
    requires itemp.up != null ==> itemp.up in s && (itemp.up.left == itemp <==> itemp.up.right != itemp)
    requires itemp.up != itemp && itemp.up != itemp.left && itemp.left.right != itemp && itemp.left.right != itemp.left
    requires itemp.up != null ==> itemp.up != itemp.left.right
    modifies rootp`root, s`left, s`right, s`up
    ensures var x, z, u := old(itemp.left), old(itemp.left.right), old(itemp.up);
      && itemp.left == z && itemp.up == x && itemp.right == old(itemp.right)
      && x.right == itemp && x.up == u && x.left == old(x.left)
      && (z != null ==> z.up == itemp && z.left == old(z.left) && z.right == old(z.right))
      && (u != null ==> u.left == (if old(u.left) == itemp then x else old(u.left)))
      && (u != null ==> u.right == (if old(u.left) == itemp then old(u.right) else x))
      && (u != null ==> u.up == old(u.up))
      && rootp.root == if u == null then x else old(rootp.root)
    ensures forall k :: k in s && k != itemp && k != old(itemp.left) && k != old(itemp.left.right) && k != old(itemp.up) ==>
      k.left == old(k.left) && k.right == old(k.right) && k.up == old(k.up)
  {
    var tmp := itemp.left;
    itemp.left := tmp.right;
    if itemp.left != null {
      itemp.left.up := itemp;
    }
    tmp.right := itemp;

    if itemp.up != null {
      if itemp.up.left == itemp {
        itemp.up.left := tmp;
      } else {
        assert itemp.up.right == itemp;
        itemp.up.right := tmp;
      }
    } else {
      rootp.root := tmp;
    }
    tmp.up := itemp.up;
    itemp.up := tmp;
  }

  method RotateAndLevelLL(rootp: Root, parentp: Item, itemp: Item, ib: Balance, pb: Balance, ghost s: set<Item>,
      ghost ks: set<Links>)
    requires AllHold(ks) && (forall k :: k in ks ==> k.item in s)
    requires parentp in s && itemp == parentp.left && itemp in s && itemp != parentp
    requires itemp.right != null ==> itemp.right in s
    requires parentp.up != null ==> parentp.up in s && (parentp.up.left == parentp <==> parentp.up.right != parentp)
    requires parentp.up != parentp && parentp.up != itemp && itemp.right != parentp && itemp.right != itemp
    requires parentp.up != null ==> parentp.up != itemp.right
    modifies rootp`root, s`left, s`right, s`up, s`balance
    ensures forall k :: k in ks ==> Holds(TurnLL(k, parentp, itemp, old(itemp.right), old(parentp.up), ib, pb))
    ensures rootp.root == if old(parentp.up) == null then itemp else old(rootp.root)
  {
    RotateLL(rootp, parentp, s);
    itemp.balance := ib;
    parentp.balance := pb;
  }

  /**
   * Rotates and sets the two balances, as the fix-up loops do (avl.h, _avl_rotate_ll and the assignments behind it).
   */
  method FixLL(rootp: Root, parentp: Item, itemp: Item, ib: Balance, pb: Balance, ghost t: Shape, ghost c: Context)
    requires Placed(rootp, t, c) && t.Node? && t.left.Node? && t.item == parentp && t.left.item == itemp
    modifies rootp`root, (Items(t) + CtxItems(c))`left, (Items(t) + CtxItems(c))`right, (Items(t) + CtxItems(c))`up
    modifies (Items(t) + CtxItems(c))`balance
    ensures Items(ShapeLL(t, ib, pb)) == Items(t)
    ensures Placed(rootp, ShapeLL(t, ib, pb), c)
  {
    NearLL(t, c);
    RotateAndLevelLL(rootp, parentp, itemp, ib, pb, Items(t) + CtxItems(c), Wiring(t, c));
    RewiredLL(t, c, ib, pb);
    AroundLL(t, ib, pb);
  }

  // ---- RR: the right child x of y becomes its parent

  /** What the links k hold after turning item y under its right child x; z is the subtree that changes sides. */
  ghost function TurnRR(k: Links, y: Item, x: Item, z: Item?, u: Item?, xb: Balance, yb: Balance): Links {
    if k.item == y then Links(y, k.left, z, x, yb)
    else if k.item == x then Links(x, y, k.right, u, xb)
    else if k.item == z then k.(up := y)
    else if k.item == u then Refill(k, y, x)
    else k
  }

  ghost function ShapeRR(t: Shape, xb: Balance, yb: Balance): Shape
    requires t.Node? && t.right.Node?
  {
    Node(Node(t.left, t.item, yb, t.right.left), t.right.item, xb, t.right.right)
  }

  lemma AroundRR(t: Shape, xb: Balance, yb: Balance)
    requires t.Node? && t.right.Node? && Distinct(t)
    ensures Distinct(ShapeRR(t, xb, yb)) && Items(ShapeRR(t, xb, yb)) == Items(t)
    ensures var y, x, m := t.item, t.right.item, t.right.left;
      y != x && x != RootOf(m) && y != RootOf(m) && Distinct(m)
      && RootOf(m) !in Items(t.right.right) + Items(t.left)
      && y !in Items(t.right.right) + Items(m) + Items(t.left)
      && x !in Items(t.right.right) + Items(m) + Items(t.left)
      && y in Items(t) && x in Items(t) && (m.Node? ==> m.item in Items(t))
  {
    assert Distinct(t.right);
  }

  lemma TreeLinksRR(t: Shape, up: Item?, xb: Balance, yb: Balance, k: Links) returns (j: Links)
    requires t.Node? && t.right.Node? && Distinct(t) && up !in Items(t)
    requires k in TreeLinks(ShapeRR(t, xb, yb), up)
    ensures j in TreeLinks(t, up) && k == TurnRR(j, t.item, t.right.item, RootOf(t.right.left), up, xb, yb)
  {
    var y, x, m := t.item, t.right.item, t.right.left;
    var a, d := t.right.right, t.left;
    AroundRR(t, xb, yb);
    assert TreeLinks(t.right, y) == {Links(x, RootOf(m), RootOf(a), y, t.right.bal)} + TreeLinks(a, x) + TreeLinks(m, x);
    assert TreeLinks(Node(d, y, yb, m), x) == {Links(y, RootOf(d), RootOf(m), x, yb)} + TreeLinks(m, y) + TreeLinks(d, y);
    if k in TreeLinks(m, y) {
      j := Rehang(m, x, y, k);
    } else if k in TreeLinks(a, x) {
      j := k;
      TreeLinkItem(a, x, k);
    } else if k in TreeLinks(d, y) {
      j := k;
      TreeLinkItem(d, y, k);
    } else if k == Links(y, RootOf(d), RootOf(m), x, yb) {
      j := Links(y, RootOf(d), x, up, t.bal);
    } else {
      j := Links(x, RootOf(m), RootOf(a), y, t.right.bal);
    }
  }

  lemma PathLinksRR(c: Context, y: Item, x: Item, z: Item?, xb: Balance, yb: Balance, k: Links) returns (j: Links)
    requires CtxDistinct(c) && y !in CtxItems(c) && x !in CtxItems(c) && z !in CtxItems(c)
    requires k in PathLinks(c, x)
    ensures j in PathLinks(c, y) && k == TurnRR(j, y, x, z, Parent(c), xb, yb)
  {
    j := Refilling(c, y, x, k);
  }

  /** Every link of the turned shape is the turned image of a link from before. */
  lemma WiringRR(t: Shape, c: Context, xb: Balance, yb: Balance, k: Links) returns (j: Links)
    requires t.Node? && t.right.Node? && Separate(t, c)
    requires k in Wiring(ShapeRR(t, xb, yb), c)
    ensures j in Wiring(t, c) && k == TurnRR(j, t.item, t.right.item, RootOf(t.right.left), Parent(c), xb, yb)
  {
    AroundRR(t, xb, yb);
    if k in TreeLinks(ShapeRR(t, xb, yb), Parent(c)) {
      j := TreeLinksRR(t, Parent(c), xb, yb, k);
    } else {
      j := PathLinksRR(c, t.item, t.right.item, RootOf(t.right.left), xb, yb, k);
    }
  }

  lemma RewiredRR(t: Shape, c: Context, xb: Balance, yb: Balance)
    requires t.Node? && t.right.Node? && Separate(t, c)
    requires forall j :: j in Wiring(t, c) ==> Holds(TurnRR(j, t.item, t.right.item, RootOf(t.right.left), Parent(c), xb, yb))
    ensures AllHold(Wiring(ShapeRR(t, xb, yb), c))
  {
    forall k | k in Wiring(ShapeRR(t, xb, yb), c) ensures Holds(k) {
      var j := WiringRR(t, c, xb, yb, k);
    }
  }

  lemma NearRR(t: Shape, c: Context)
    requires t.Node? && t.right.Node? && Separate(t, c) && AllHold(Wiring(t, c))
    ensures var y, x, m, u, s := t.item, t.right.item, t.right.left, Parent(c), Items(t) + CtxItems(c);
      && y.right == x && x.left == RootOf(m) && y.up == u && y in s && x in s && (m.Node? ==> m.item in s)
      && y != x && y != u && x != u && x != RootOf(m) && y != RootOf(m)
      && (u != null ==> u in s && u != RootOf(m) && (u.left == y <==> u.right != y))
      && (forall k :: k in Wiring(t, c) ==> k.item in s)
  {
    var y, x, m, u := t.item, t.right.item, t.right.left, Parent(c);
    TreeLinksItems(t, u);
    PathLinksItems(c, y);
    AroundRR(t, CENT, CENT);
    if !c.Top? {
      AboveHole(t, c);
    }
    assert Links(x, RootOf(m), RootOf(t.right.right), y, t.right.bal) in TreeLinks(t.right, y);
    assert Links(y, RootOf(t.left), x, u, t.bal) in TreeLinks(t, u);
  }

  /** _avl_rotate_rr */
  method RotateRR(rootp: Root, itemp: Item, ghost s: set<Item>)
    requires itemp in s && itemp.right != null && itemp.right in s && itemp.right != itemp
    requires itemp.right.left != null ==> itemp.right.left in s
    requires itemp.up != null ==> itemp.up in s && (itemp.up.left == itemp <==> itemp.up.right != itemp)
    requires itemp.up != itemp && itemp.up != itemp.right && itemp.right.left != itemp
      && itemp.right.left != itemp.right
    requires itemp.up != null ==> itemp.up != itemp.right.left
    modifies rootp`root, s`left, s`right, s`up
    ensures var x, z, u := old(itemp.right), old(itemp.right.left), old(itemp.up);
      && itemp.right == z && itemp.up == x && itemp.left == old(itemp.left)
      && x.left == itemp && x.up == u && x.right == old(x.right)
      && (z != null ==> z.up == itemp && z.left == old(z.left) && z.right == old(z.right))
      && (u != null ==> u.left == (if old(u.left) == itemp then x else old(u.left)))
      && (u != null ==> u.right == (if old(u.left) == itemp then old(u.right) else x))
      && (u != null ==> u.up == old(u.up))
      && rootp.root == if u == null then x else old(rootp.root)
    ensures forall k :: k in s && k != itemp && k != old(itemp.right) && k != old(itemp.right.left) && k != old(itemp.up) ==>
      k.left == old(k.left) && k.right == old(k.right) && k.up == old(k.up)
  {
    var tmp := itemp.right;
    itemp.right := tmp.left;
    if itemp.right != null {
      itemp.right.up := itemp;
    }
    tmp.left := itemp;

    if itemp.up != null {
      if itemp.up.right == itemp {
        itemp.up.right := tmp;
      } else {
        assert itemp.up.left == itemp;
        itemp.up.left := tmp;
      }
    } else {
      rootp.root := tmp;
    }
    tmp.up := itemp.up;
    itemp.up := tmp;
  }

  method RotateAndLevelRR(rootp: Root, parentp: Item, itemp: Item, ib: Balance, pb: Balance, ghost s: set<Item>,
      ghost ks: set<Links>)
    requires AllHold(ks) && (forall k :: k in ks ==> k.item in s)
    requires parentp in s && itemp == parentp.right && itemp in s && itemp != parentp
    requires itemp.left != null ==> itemp.left in s
    requires parentp.up != null ==> parentp.up in s && (parentp.up.left == parentp <==> parentp.up.right != parentp)
    requires parentp.up != parentp && parentp.up != itemp && itemp.left != parentp && itemp.left != itemp
    requires parentp.up != null ==> parentp.up != itemp.left
    modifies rootp`root, s`left, s`right, s`up, s`balance
    ensures forall k :: k in ks ==> Holds(TurnRR(k, parentp, itemp, old(itemp.left), old(parentp.up), ib, pb))
    ensures rootp.root == if old(parentp.up) == null then itemp else old(rootp.root)
  {
    RotateRR(rootp, parentp, s);
    itemp.balance := ib;
    parentp.balance := pb;
  }

  /**
   * Rotates and sets the two balances, as the fix-up loops do (avl.h, _avl_rotate_rr and the assignments behind it).
   */
  method FixRR(rootp: Root, parentp: Item, itemp: Item, ib: Balance, pb: Balance, ghost t: Shape, ghost c: Context)
    requires Placed(rootp, t, c) && t.Node? && t.right.Node? && t.item == parentp && t.right.item == itemp
    modifies rootp`root, (Items(t) + CtxItems(c))`left, (Items(t) + CtxItems(c))`right, (Items(t) + CtxItems(c))`up
    modifies (Items(t) + CtxItems(c))`balance
    ensures Items(ShapeRR(t, ib, pb)) == Items(t)
    ensures Placed(rootp, ShapeRR(t, ib, pb), c)
  {
    NearRR(t, c);
    RotateAndLevelRR(rootp, parentp, itemp, ib, pb, Items(t) + CtxItems(c), Wiring(t, c));
    RewiredRR(t, c, ib, pb);
    AroundRR(t, ib, pb);
  }

  // ---- LR: the right child w of the left child x of y becomes the parent of both

  ghost function TurnLR(k: Links, y: Item, x: Item, w: Item, b: Item?, d: Item?, u: Item?, xb: Balance, wb: Balance,
      yb: Balance): Links {
    if k.item == y then Links(y, d, k.right, w, yb)
    else if k.item == x then Links(x, k.left, b, w, xb)
    else if k.item == w then Links(w, x, y, u, wb)
    else if k.item == b then k.(up := x)
    else if k.item == d then k.(up := y)
    else if k.item == u then Refill(k, y, w)
    else k
  }

  ghost predicate TurnsLR(t: Shape) {
    t.Node? && t.left.Node? && t.left.right.Node?
  }

  ghost function ShapeLR(t: Shape, xb: Balance, wb: Balance, yb: Balance): Shape
    requires TurnsLR(t)
  {
    var w := t.left.right;
    Node(Node(t.left.left, t.left.item, xb, w.left), w.item, wb, Node(w.right, t.item, yb, t.right))
  }

  lemma AroundLR(t: Shape, xb: Balance, wb: Balance, yb: Balance)
    requires TurnsLR(t) && Distinct(t)
    ensures Distinct(ShapeLR(t, xb, wb, yb)) && Items(ShapeLR(t, xb, wb, yb)) == Items(t)
    ensures var y, x, w, b, d := t.item, t.left.item, t.left.right.item, t.left.right.left, t.left.right.right;
      y != x && y != w && x != w && Distinct(b) && Distinct(d)
      && (b.Node? ==> b.item != y && b.item != x && b.item != w && b.item in Items(t))
      && (d.Node? ==> d.item != y && d.item != x && d.item != w && d.item in Items(t))
      && (b.Node? && d.Node? ==> b.item != d.item) && Items(b) !! Items(d)
      && RootOf(b) !in Items(t.left.left) + Items(t.right) + Items(d)
      && RootOf(d) !in Items(t.left.left) + Items(t.right) + Items(b)
      && y !in Items(t.left.left) + Items(b) + Items(d) + Items(t.right)
      && x !in Items(t.left.left) + Items(b) + Items(d) + Items(t.right)
      && w !in Items(t.left.left) + Items(b) + Items(d) + Items(t.right)
      && y in Items(t) && x in Items(t) && w in Items(t)
  {
    assert Distinct(t.left) && Distinct(t.left.right);
    assert Items(t.left.right) <= Items(t.left) <= Items(t);
  }

  /** The double rotation is a turn of x under w followed by a turn of y under w. */
  lemma TwiceLR(k: Links, y: Item, x: Item, w: Item, b: Item?, d: Item?, u: Item?, xb: Balance, wb: Balance,
      yb: Balance)
    requires ApartLR(y, x, w, b, d, u)
    requires k.item == w ==> k.right == d
    requires k.item == y ==> k.left == x && k.right != x
    ensures TurnLL(TurnRR(k, x, w, b, y, wb, xb), y, w, d, u, wb, yb) == TurnLR(k, y, x, w, b, d, u, xb, wb, yb)
  {
  }

  lemma WiringLR(t: Shape, c: Context, xb: Balance, wb: Balance, yb: Balance, k: Links) returns (j: Links)
    requires TurnsLR(t) && Separate(t, c)
    requires k in Wiring(ShapeLR(t, xb, wb, yb), c)
    ensures j in Wiring(t, c)
    ensures var w := t.left.right;
      k == TurnLR(j, t.item, t.left.item, w.item, RootOf(w.left), RootOf(w.right), Parent(c), xb, wb, yb)
  {
    var l, y := t.left, t.item;
    var mid := Node(ShapeRR(l, wb, xb), y, t.bal, t.right);
    Refocus(l, y, t.bal, t.right, c);
    Refocus(ShapeRR(l, wb, xb), y, t.bal, t.right, c);
    var cl := InLeft(y, t.bal, t.right, c);
    AroundRR(l, wb, xb);
    AroundLR(t, xb, wb, yb);
    var i := WiringLL(mid, c, wb, yb, k);
    j := WiringRR(l, cl, wb, xb, i);
    Refocus(l.left, l.item, l.bal, l.right, cl);
    if j.item == y {
      RootLinks(t, c, j);
    } else if j.item == l.right.item {
      RootLinks(l.right, InRight(l.left, l.item, l.bal, cl), j);
    }
    TwiceLR(j, y, l.item, l.right.item, RootOf(l.right.left), RootOf(l.right.right), Parent(c), xb, wb, yb);
  }

  lemma RewiredLR(t: Shape, c: Context, xb: Balance, wb: Balance, yb: Balance)
    requires TurnsLR(t) && Separate(t, c)
    requires var w := t.left.right; forall j :: j in Wiring(t, c) ==>
      Holds(TurnLR(j, t.item, t.left.item, w.item, RootOf(w.left), RootOf(w.right), Parent(c), xb, wb, yb))
    ensures AllHold(Wiring(ShapeLR(t, xb, wb, yb), c))
  {
    forall k | k in Wiring(ShapeLR(t, xb, wb, yb), c) ensures Holds(k) {
      var j := WiringLR(t, c, xb, wb, yb, k);
    }
  }

  lemma NearLR(t: Shape, c: Context)
    requires TurnsLR(t) && Separate(t, c) && AllHold(Wiring(t, c))
    ensures var y, x, w, b, d, u, s :=
        t.item, t.left.item, t.left.right.item, RootOf(t.left.right.left), RootOf(t.left.right.right),
        Parent(c), Items(t) + CtxItems(c);
      && y.left == x && x.right == w && w.left == b && w.right == d && y.up == u && w.balance == t.left.right.bal
      && {y, x, w} <= s && (b != null ==> b in s) && (d != null ==> d in s) && (u != null ==> u in s)
      && ApartLR(y, x, w, b, d, u)
      && (u != null ==> (u.left == y <==> u.right != y))
      && (forall k :: k in Wiring(t, c) ==> k.item in s)
  {
    var y, x, w, u := t.item, t.left.item, t.left.right, Parent(c);
    TreeLinksItems(t, u);
    PathLinksItems(c, y);
    AroundLR(t, CENT, CENT, CENT);
    if !c.Top? {
      AboveHole(t, c);
    }
    assert Links(w.item, RootOf(w.left), RootOf(w.right), x, w.bal) in TreeLinks(w, x);
    assert Links(x, RootOf(t.left.left), w.item, y, t.left.bal) in TreeLinks(t.left, y);
    assert TreeLinks(w, x) <= TreeLinks(t.left, y) <= TreeLinks(t, u);
    assert Links(y, x, RootOf(t.right), u, t.bal) in TreeLinks(t, u);
  }

  ghost predicate ApartLR(y: Item, x: Item, w: Item, b: Item?, d: Item?, u: Item?) {
    y != x && y != w && x != w && b !in {y, x, w} && d !in {y, x, w} && u !in {y, x, w}
    && (b != null ==> b != d && b != u) && (d != null ==> d != u)
  }

  /** _avl_rotate_lr */
  method RotateLR(rootp: Root, itemp: Item, ghost s: set<Item>)
    requires itemp in s && itemp.left != null && itemp.left in s && itemp.left.right != null && itemp.left.right in s
    requires var w := itemp.left.right; (w.left != null ==> w.left in s) && (w.right != null ==> w.right in s)
    requires itemp.up != null ==> itemp.up in s && (itemp.up.left == itemp <==> itemp.up.right != itemp)
    requires ApartLR(itemp, itemp.left, itemp.left.right, itemp.left.right.left, itemp.left.right.right, itemp.up)
    modifies rootp`root, s`left, s`right, s`up
    ensures var x, w, b, d, u :=
        old(itemp.left), old(itemp.left.right), old(itemp.left.right.left), old(itemp.left.right.right), old(itemp.up);
      && itemp.left == d && itemp.up == w && itemp.right == old(itemp.right)
      && x.right == b && x.up == w && x.left == old(x.left)
      && w.left == x && w.right == itemp && w.up == u
      && (b != null ==> b.up == x && b.left == old(b.left) && b.right == old(b.right))
      && (d != null ==> d.up == itemp && d.left == old(d.left) && d.right == old(d.right))
      && (u != null ==> u.left == (if old(u.left) == itemp then w else old(u.left)))
      && (u != null ==> u.right == (if old(u.left) == itemp then old(u.right) else w))
      && (u != null ==> u.up == old(u.up))
      && rootp.root == if u == null then w else old(rootp.root)
    ensures forall k :: (k in s && k != itemp && k != old(itemp.left) && k != old(itemp.left.right)
                         && k != old(itemp.left.right.left) && k != old(itemp.left.right.right) && k != old(itemp.up)) ==>
      k.left == old(k.left) && k.right == old(k.right) && k.up == old(k.up)
  {
    var rcp := itemp.left;
    var rlcp := rcp.right;
    if itemp.up != null {
      if itemp == itemp.up.left {
        itemp.up.left := rlcp;
      } else {
        assert itemp == itemp.up.right;
        itemp.up.right := rlcp;
      }
    } else {
      rootp.root := rlcp;
    }
    rlcp.up := itemp.up;
    rcp.right := rlcp.left;
    if rcp.right != null {
      rcp.right.up := rcp;
    }
    itemp.left := rlcp.right;
    if itemp.left != null {
      itemp.left.up := itemp;
    }
    rlcp.left := rcp;
    rlcp.right := itemp;
    rcp.up := rlcp;
    itemp.up := rlcp;
  }

  method RotateAndLevelLR(rootp: Root, parentp: Item, itemp: Item, childp: Item, ghost s: set<Item>,
      ghost ks: set<Links>)
    requires AllHold(ks) && (forall k :: k in ks ==> k.item in s)
    requires {parentp, itemp, childp} <= s && itemp == parentp.left && childp == itemp.right
    requires (childp.left != null ==> childp.left in s) && (childp.right != null ==> childp.right in s)
    requires parentp.up != null ==> parentp.up in s && (parentp.up.left == parentp <==> parentp.up.right != parentp)
    requires ApartLR(parentp, itemp, childp, childp.left, childp.right, parentp.up)
    modifies rootp`root, s`left, s`right, s`up, s`balance
    ensures forall k :: k in ks ==>
      Holds(TurnLR(k, parentp, itemp, childp, old(childp.left), old(childp.right), old(parentp.up),
                   if old(childp.balance) == RIGHT then LEFT else CENT, CENT,
                   if old(childp.balance) == LEFT then RIGHT else CENT))
    ensures rootp.root == if old(parentp.up) == null then childp else old(rootp.root)
  {
    RotateLR(rootp, parentp, s);
    itemp.balance := CENT;
    parentp.balance := CENT;
    if childp.balance == RIGHT {
      itemp.balance := LEFT;
    }
    if childp.balance == LEFT {
      parentp.balance := RIGHT;
    }
    childp.balance := CENT;
  }

  ghost function LeveledLR(t: Shape): Shape
    requires TurnsLR(t)
  {
    var wb := t.left.right.bal;
    ShapeLR(t, if wb == RIGHT then LEFT else CENT, CENT, if wb == LEFT then RIGHT else CENT)
  }

  /**
   * Rotates and sets the three balances, as the fix-up loops do (avl.h, _avl_rotate_lr and the assignments behind it).
   */
  method FixLR(rootp: Root, parentp: Item, itemp: Item, childp: Item, ghost t: Shape, ghost c: Context)
    requires Placed(rootp, t, c) && TurnsLR(t) && t.item == parentp && t.left.item == itemp
      && t.left.right.item == childp
    modifies rootp`root, (Items(t) + CtxItems(c))`left, (Items(t) + CtxItems(c))`right, (Items(t) + CtxItems(c))`up
    modifies (Items(t) + CtxItems(c))`balance
    ensures Items(LeveledLR(t)) == Items(t)
    ensures Placed(rootp, LeveledLR(t), c)
  {
    NearLR(t, c);
    ghost var wb := childp.balance;
    RotateAndLevelLR(rootp, parentp, itemp, childp, Items(t) + CtxItems(c), Wiring(t, c));
    RewiredLR(t, c, if wb == RIGHT then LEFT else CENT, CENT, if wb == LEFT then RIGHT else CENT);
    AroundLR(t, if wb == RIGHT then LEFT else CENT, CENT, if wb == LEFT then RIGHT else CENT);
  }

  // ---- RL: the left child w of the right child x of y becomes the parent of both

  ghost function TurnRL(k: Links, y: Item, x: Item, w: Item, b: Item?, d: Item?, u: Item?, xb: Balance, wb: Balance,
      yb: Balance): Links {
    if k.item == y then Links(y, k.left, d, w, yb)
    else if k.item == x then Links(x, b, k.right, w, xb)
    else if k.item == w then Links(w, y, x, u, wb)
    else if k.item == b then k.(up := x)
    else if k.item == d then k.(up := y)
    else if k.item == u then Refill(k, y, w)
    else k
  }

  ghost predicate TurnsRL(t: Shape) {
    t.Node? && t.right.Node? && t.right.left.Node?
  }

  ghost function ShapeRL(t: Shape, xb: Balance, wb: Balance, yb: Balance): Shape
    requires TurnsRL(t)
  {
    var w := t.right.left;
    Node(Node(t.left, t.item, yb, w.left), w.item, wb, Node(w.right, t.right.item, xb, t.right.right))
  }

  lemma AroundRL(t: Shape, xb: Balance, wb: Balance, yb: Balance)
    requires TurnsRL(t) && Distinct(t)
    ensures Distinct(ShapeRL(t, xb, wb, yb)) && Items(ShapeRL(t, xb, wb, yb)) == Items(t)
    ensures var y, x, w, b, d := t.item, t.right.item, t.right.left.item, t.right.left.right, t.right.left.left;
      y != x && y != w && x != w && Distinct(b) && Distinct(d)
      && (b.Node? ==> b.item != y && b.item != x && b.item != w && b.item in Items(t))
      && (d.Node? ==> d.item != y && d.item != x && d.item != w && d.item in Items(t))
      && (b.Node? && d.Node? ==> b.item != d.item) && Items(b) !! Items(d)
      && RootOf(b) !in Items(t.right.right) + Items(t.left) + Items(d)
      && RootOf(d) !in Items(t.right.right) + Items(t.left) + Items(b)
      && y !in Items(t.right.right) + Items(b) + Items(d) + Items(t.left)
      && x !in Items(t.right.right) + Items(b) + Items(d) + Items(t.left)
      && w !in Items(t.right.right) + Items(b) + Items(d) + Items(t.left)
      && y in Items(t) && x in Items(t) && w in Items(t)
  {
    assert Distinct(t.right) && Distinct(t.right.left);
    assert Items(t.right.left) <= Items(t.right) <= Items(t);
  }

  /** The double rotation is a turn of x under w followed by a turn of y under w. */
  lemma TwiceRL(k: Links, y: Item, x: Item, w: Item, b: Item?, d: Item?, u: Item?, xb: Balance, wb: Balance,
      yb: Balance)
    requires ApartRL(y, x, w, b, d, u)
    requires k.item == w ==> k.left == d
    requires k.item == y ==> k.right == x && k.left != x
    ensures TurnRR(TurnLL(k, x, w, b, y, wb, xb), y, w, d, u, wb, yb) == TurnRL(k, y, x, w, b, d, u, xb, wb, yb)
  {
  }

  lemma WiringRL(t: Shape, c: Context, xb: Balance, wb: Balance, yb: Balance, k: Links) returns (j: Links)
    requires TurnsRL(t) && Separate(t, c)
    requires k in Wiring(ShapeRL(t, xb, wb, yb), c)
    ensures j in Wiring(t, c)
    ensures var w := t.right.left;
      k == TurnRL(j, t.item, t.right.item, w.item, RootOf(w.right), RootOf(w.left), Parent(c), xb, wb, yb)
  {
    var l, y := t.right, t.item;
    var mid := Node(t.left, y, t.bal, ShapeLL(l, wb, xb));
    Refocus(t.left, y, t.bal, l, c);
    Refocus(t.left, y, t.bal, ShapeLL(l, wb, xb), c);
    var cl := InRight(t.left, y, t.bal, c);
    AroundLL(l, wb, xb);
    AroundRL(t, xb, wb, yb);
    var i := WiringRR(mid, c, wb, yb, k);
    j := WiringLL(l, cl, wb, xb, i);
    Refocus(l.left, l.item, l.bal, l.right, cl);
    if j.item == y {
      RootLinks(t, c, j);
    } else if j.item == l.left.item {
      RootLinks(l.left, InLeft(l.item, l.bal, l.right, cl), j);
    }
    TwiceRL(j, y, l.item, l.left.item, RootOf(l.left.right), RootOf(l.left.left), Parent(c), xb, wb, yb);
  }

  lemma RewiredRL(t: Shape, c: Context, xb: Balance, wb: Balance, yb: Balance)
    requires TurnsRL(t) && Separate(t, c)
    requires var w := t.right.left; forall j :: j in Wiring(t, c) ==>
      Holds(TurnRL(j, t.item, t.right.item, w.item, RootOf(w.right), RootOf(w.left), Parent(c), xb, wb, yb))
    ensures AllHold(Wiring(ShapeRL(t, xb, wb, yb), c))
  {
    forall k | k in Wiring(ShapeRL(t, xb, wb, yb), c) ensures Holds(k) {
      var j := WiringRL(t, c, xb, wb, yb, k);
    }
  }

  lemma NearRL(t: Shape, c: Context)
    requires TurnsRL(t) && Separate(t, c) && AllHold(Wiring(t, c))
    ensures var y, x, w, b, d, u, s :=
        t.item, t.right.item, t.right.left.item, RootOf(t.right.left.right), RootOf(t.right.left.left),
        Parent(c), Items(t) + CtxItems(c);
      && y.right == x && x.left == w && w.right == b && w.left == d && y.up == u && w.balance == t.right.left.bal
      && {y, x, w} <= s && (b != null ==> b in s) && (d != null ==> d in s) && (u != null ==> u in s)
      && ApartRL(y, x, w, b, d, u)
      && (u != null ==> (u.left == y <==> u.right != y))
      && (forall k :: k in Wiring(t, c) ==> k.item in s)
  {
    var y, x, w, u := t.item, t.right.item, t.right.left, Parent(c);
    TreeLinksItems(t, u);
    PathLinksItems(c, y);
    AroundRL(t, CENT, CENT, CENT);
    if !c.Top? {
      AboveHole(t, c);
    }
    assert Links(w.item, RootOf(w.left), RootOf(w.right), x, w.bal) in TreeLinks(w, x);
    assert Links(x, w.item, RootOf(t.right.right), y, t.right.bal) in TreeLinks(t.right, y);
    assert TreeLinks(w, x) <= TreeLinks(t.right, y) <= TreeLinks(t, u);
    assert Links(y, RootOf(t.left), x, u, t.bal) in TreeLinks(t, u);
  }

  ghost predicate ApartRL(y: Item, x: Item, w: Item, b: Item?, d: Item?, u: Item?) {
    y != x && y != w && x != w && b !in {y, x, w} && d !in {y, x, w} && u !in {y, x, w}
    && (b != null ==> b != d && b != u) && (d != null ==> d != u)
  }

  /** _avl_rotate_rl */
  method RotateRL(rootp: Root, itemp: Item, ghost s: set<Item>)
    requires itemp in s && itemp.right != null && itemp.right in s && itemp.right.left != null && itemp.right.left in s
    requires var w := itemp.right.left; (w.right != null ==> w.right in s) && (w.left != null ==> w.left in s)
    requires itemp.up != null ==> itemp.up in s && (itemp.up.left == itemp <==> itemp.up.right != itemp)
    requires ApartRL(itemp, itemp.right, itemp.right.left, itemp.right.left.right, itemp.right.left.left, itemp.up)
    modifies rootp`root, s`left, s`right, s`up
    ensures var x, w, b, d, u :=
        old(itemp.right), old(itemp.right.left), old(itemp.right.left.right), old(itemp.right.left.left), old(itemp.up);
      && itemp.right == d && itemp.up == w && itemp.left == old(itemp.left)
      && x.left == b && x.up == w && x.right == old(x.right)
      && w.right == x && w.left == itemp && w.up == u
      && (b != null ==> b.up == x && b.left == old(b.left) && b.right == old(b.right))
      && (d != null ==> d.up == itemp && d.left == old(d.left) && d.right == old(d.right))
      && (u != null ==> u.left == (if old(u.left) == itemp then w else old(u.left)))
      && (u != null ==> u.right == (if old(u.left) == itemp then old(u.right) else w))
      && (u != null ==> u.up == old(u.up))
      && rootp.root == if u == null then w else old(rootp.root)
    ensures forall k :: (k in s && k != itemp && k != old(itemp.right) && k != old(itemp.right.left)
                         && k != old(itemp.right.left.right) && k != old(itemp.right.left.left) && k != old(itemp.up)) ==>
      k.left == old(k.left) && k.right == old(k.right) && k.up == old(k.up)
  {
    var rcp := itemp.right;
    var rlcp := rcp.left;
    if itemp.up != null {
      if itemp == itemp.up.right {
        itemp.up.right := rlcp;
      } else {
        assert itemp == itemp.up.left;
        itemp.up.left := rlcp;
      }
    } else {
      rootp.root := rlcp;
    }
    rlcp.up := itemp.up;
    rcp.left := rlcp.right;
    if rcp.left != null {
      rcp.left.up := rcp;
    }
    itemp.right := rlcp.left;
    if itemp.right != null {
      itemp.right.up := itemp;
    }
    rlcp.right := rcp;
    rlcp.left := itemp;
    rcp.up := rlcp;
    itemp.up := rlcp;
  }

  method RotateAndLevelRL(rootp: Root, parentp: Item, itemp: Item, childp: Item, ghost s: set<Item>,
      ghost ks: set<Links>)
    requires AllHold(ks) && (forall k :: k in ks ==> k.item in s)
    requires {parentp, itemp, childp} <= s && itemp == parentp.right && childp == itemp.left
    requires (childp.right != null ==> childp.right in s) && (childp.left != null ==> childp.left in s)
    requires parentp.up != null ==> parentp.up in s && (parentp.up.left == parentp <==> parentp.up.right != parentp)
    requires ApartRL(parentp, itemp, childp, childp.right, childp.left, parentp.up)
    modifies rootp`root, s`left, s`right, s`up, s`balance
    ensures forall k :: k in ks ==>
      Holds(TurnRL(k, parentp, itemp, childp, old(childp.right), old(childp.left), old(parentp.up),
                   if old(childp.balance) == LEFT then RIGHT else CENT, CENT,
                   if old(childp.balance) == RIGHT then LEFT else CENT))
    ensures rootp.root == if old(parentp.up) == null then childp else old(rootp.root)
  {
    RotateRL(rootp, parentp, s);
    itemp.balance := CENT;
    parentp.balance := CENT;
    if childp.balance == LEFT {
      itemp.balance := RIGHT;
    }
    if childp.balance == RIGHT {
      parentp.balance := LEFT;
    }
    childp.balance := CENT;
  }

  ghost function LeveledRL(t: Shape): Shape
    requires TurnsRL(t)
  {
    var wb := t.right.left.bal;
    ShapeRL(t, if wb == LEFT then RIGHT else CENT, CENT, if wb == RIGHT then LEFT else CENT)
  }

  /**
   * Rotates and sets the three balances, as the fix-up loops do (avl.h, _avl_rotate_rl and the assignments behind it).
   */
  method FixRL(rootp: Root, parentp: Item, itemp: Item, childp: Item, ghost t: Shape, ghost c: Context)
    requires Placed(rootp, t, c) && TurnsRL(t) && t.item == parentp && t.right.item == itemp
      && t.right.left.item == childp
    modifies rootp`root, (Items(t) + CtxItems(c))`left, (Items(t) + CtxItems(c))`right, (Items(t) + CtxItems(c))`up
    modifies (Items(t) + CtxItems(c))`balance
    ensures Items(LeveledRL(t)) == Items(t)
    ensures Placed(rootp, LeveledRL(t), c)
  {
    NearRL(t, c);
    ghost var wb := childp.balance;
    RotateAndLevelRL(rootp, parentp, itemp, childp, Items(t) + CtxItems(c), Wiring(t, c));
    RewiredRL(t, c, if wb == LEFT then RIGHT else CENT, CENT, if wb == RIGHT then LEFT else CENT);
    AroundRL(t, if wb == LEFT then RIGHT else CENT, CENT, if wb == RIGHT then LEFT else CENT);
  }
}
