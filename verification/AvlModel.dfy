/**
 * The parent-linked AVL tree of avl.h, seen as values.
 *
 * A `Shape` is the tree without its pointers, a `Context` the tree with a hole in it (the way back up from the hole to
 * the root), and `Wiring` says what every link field of every item must hold for the heap to represent a shape in a
 * context. Everything here is about values; AvlRotations and AvlTree move the pointers.
 */
module AvlModel {

  /** avl_balance_t: which subtree is the higher one. */
  datatype Balance = LEFT | CENT | RIGHT

  /** vg_prefix_t: one range of addresses, its ring link, and the avl_item_t embedded in it. */
  class Item {
    var left: Item?
    var right: Item?
    var up: Item?
    var balance: Balance
    var indexed: bool

    const low: nat
    const high: nat
    const pattern: string
    var sibling: Item?

    constructor (pattern: string, low: nat, high: nat)
      ensures left == null && right == null && up == null && balance == CENT && !indexed
      ensures this.pattern == pattern && this.low == low && this.high == high && sibling == null
    {
      left, right, up, balance, indexed := null, null, null, CENT, false;
      this.pattern, this.low, this.high, sibling := pattern, low, high, null;
    }
  }

  datatype Shape = Leaf | Node(left: Shape, item: Item, bal: Balance, right: Shape)

  ghost function RootOf(t: Shape): Item? {
    if t.Leaf? then null else t.item
  }

  ghost function Items(t: Shape): set<Item> {
    match t
    case Leaf => {}
    case Node(l, it, _, r) => Items(l) + {it} + Items(r)
  }

  ghost function InOrder(t: Shape): seq<Item> {
    match t
    case Leaf => []
    case Node(l, it, _, r) => InOrder(l) + [it] + InOrder(r)
  }

  /** No item occurs twice. */
  ghost predicate Distinct(t: Shape) {
    match t
    case Leaf => true
    case Node(l, it, _, r) =>
      Distinct(l) && Distinct(r) && it !in Items(l) && it !in Items(r) && Items(l) !! Items(r)
  }

  ghost function Height(t: Shape): nat {
    match t
    case Leaf => 0
    case Node(l, _, _, r) => 1 + Max(Height(l), Height(r))
  }

  function Max(a: nat, b: nat): nat { if a < b then b else a }

  /** The balance field states the real difference of the two heights, which is at most one. */
  ghost predicate Leans(b: Balance, l: nat, r: nat) {
    match b
    case LEFT => l == r + 1
    case CENT => l == r
    case RIGHT => r == l + 1
  }

  ghost predicate Avl(t: Shape) {
    match t
    case Leaf => true
    case Node(l, _, b, r) => Avl(l) && Avl(r) && Leans(b, Height(l), Height(r))
  }

  /** The Fibonacci numbers. */
  function Fib(n: nat): nat {
    if n < 2 then n else Fib(n - 2) + Fib(n - 1)
  }

  lemma {:induction false} FibGrows(m: nat, n: nat)
    requires m <= n
    ensures Fib(m) <= Fib(n)
  {
    if m < n {
      FibGrows(m, n - 1);
    }
  }

  /** What balance is for: a tree of height h has at least Fib(h + 2) - 1 items, so a search takes few steps. */
  lemma {:induction false} HeightIsSmall(t: Shape)
    requires Avl(t)
    ensures |InOrder(t)| + 1 >= Fib(Height(t) + 2)
  {
    if t.Node? {
      HeightIsSmall(t.left);
      HeightIsSmall(t.right);
      var h := Height(t);
      FibGrows(h, Height(t.left) + 2);
      FibGrows(h, Height(t.right) + 2);
      assert Fib(h + 2) == Fib(h) + Fib(h + 1);
    }
  }

  /** A tree with a hole: InLeft is the hole in the left subtree of `item`, whose other subtree is `right`. */
  datatype Context =
    | Top
    | InLeft(item: Item, bal: Balance, right: Shape, above: Context)
    | InRight(left: Shape, item: Item, bal: Balance, above: Context)

  ghost function Parent(c: Context): Item? {
    if c.Top? then null else c.item
  }

  ghost function CtxItems(c: Context): set<Item> {
    match c
    case Top => {}
    case InLeft(it, _, r, a) => {it} + Items(r) + CtxItems(a)
    case InRight(l, it, _, a) => Items(l) + {it} + CtxItems(a)
  }

  ghost predicate CtxDistinct(c: Context) {
    match c
    case Top => true
    case InLeft(it, _, r, a) =>
      Distinct(r) && CtxDistinct(a) && it !in Items(r) && it !in CtxItems(a) && Items(r) !! CtxItems(a)
    case InRight(l, it, _, a) =>
      Distinct(l) && CtxDistinct(a) && it !in Items(l) && it !in CtxItems(a) && Items(l) !! CtxItems(a)
  }

  ghost predicate Separate(t: Shape, c: Context) {
    Distinct(t) && CtxDistinct(c) && Items(t) !! CtxItems(c)
  }

  ghost function Plug(c: Context, t: Shape): Shape {
    match c
    case Top => t
    case InLeft(it, b, r, a) => Plug(a, Node(t, it, b, r))
    case InRight(l, it, b, a) => Plug(a, Node(l, it, b, t))
  }

  /** The items before and after the hole, in order. */
  ghost function Before(c: Context): seq<Item> {
    match c
    case Top => []
    case InLeft(_, _, _, a) => Before(a)
    case InRight(l, it, _, a) => Before(a) + InOrder(l) + [it]
  }

  ghost function After(c: Context): seq<Item> {
    match c
    case Top => []
    case InLeft(it, _, r, a) => [it] + InOrder(r) + After(a)
    case InRight(_, _, _, a) => After(a)
  }

  /** The whole is an AVL tree once an AVL tree of height h fills the hole. */
  ghost predicate AvlContext(c: Context, h: nat) {
    match c
    case Top => true
    case InLeft(_, b, r, a) =>
      Avl(r) && Leans(b, h, Height(r)) && AvlContext(a, 1 + Max(h, Height(r)))
    case InRight(l, _, b, a) =>
      Avl(l) && Leans(b, Height(l), h) && AvlContext(a, 1 + Max(Height(l), h))
  }

  lemma Regroup(a: seq<Item>, l: seq<Item>, x: seq<Item>, r: seq<Item>, b: seq<Item>)
    ensures a + (l + x + r) + b == a + l + (x + r + b) == (a + l + x) + r + b
  {
  }

  lemma {:induction false} PlugInOrder(c: Context, t: Shape)
    ensures InOrder(Plug(c, t)) == Before(c) + InOrder(t) + After(c)
  {
    match c
    case Top =>
    case InLeft(it, b, r, a) =>
      PlugInOrder(a, Node(t, it, b, r));
      Regroup(Before(a), InOrder(t), [it], InOrder(r), After(a));
    case InRight(l, it, b, a) =>
      PlugInOrder(a, Node(l, it, b, t));
      Regroup(Before(a), InOrder(l), [it], InOrder(t), After(a));
  }

  lemma {:induction false} PlugAvl(c: Context, t: Shape)
    requires Avl(t) && AvlContext(c, Height(t))
    ensures Avl(Plug(c, t))
  {
    match c
    case Top =>
    case InLeft(it, b, r, a) => PlugAvl(a, Node(t, it, b, r));
    case InRight(l, it, b, a) => PlugAvl(a, Node(l, it, b, t));
  }

  // ---- Links

  /** What the five link fields of one item hold; an item in a tree is always marked as indexed. */
  datatype Links = Links(item: Item, left: Item?, right: Item?, up: Item?, bal: Balance)

  ghost predicate Holds(k: Links)
    reads k.item`left, k.item`right, k.item`up, k.item`balance, k.item`indexed
  {
    k.item.left == k.left && k.item.right == k.right && k.item.up == k.up && k.item.balance == k.bal && k.item.indexed
  }

  ghost predicate AllHold(ks: set<Links>)
    reads (set k | k in ks :: k.item)`left, (set k | k in ks :: k.item)`right, (set k | k in ks :: k.item)`up
    reads (set k | k in ks :: k.item)`balance, (set k | k in ks :: k.item)`indexed
  {
    forall k :: k in ks ==> Holds(k)
  }

  ghost function TreeLinks(t: Shape, up: Item?): set<Links> {
    match t
    case Leaf => {}
    case Node(l, it, b, r) => {Links(it, RootOf(l), RootOf(r), up, b)} + TreeLinks(l, it) + TreeLinks(r, it)
  }

  ghost function PathLinks(c: Context, hole: Item?): set<Links> {
    match c
    case Top => {}
    case InLeft(it, b, r, a) => {Links(it, hole, RootOf(r), Parent(a), b)} + TreeLinks(r, it) + PathLinks(a, it)
    case InRight(l, it, b, a) => {Links(it, RootOf(l), hole, Parent(a), b)} + TreeLinks(l, it) + PathLinks(a, it)
  }

  /** The root pointer of the tree with p in the hole of c. */
  ghost function FirstOf(c: Context, p: Item?): Item? {
    if c.Top? then p else FirstOf(c.above, c.item)
  }

  /** All the links of the tree that has t in the hole of c. */
  ghost function Wiring(t: Shape, c: Context): set<Links> {
    TreeLinks(t, Parent(c)) + PathLinks(c, RootOf(t))
  }

  lemma {:induction false} TreeLinksItems(t: Shape, up: Item?)
    ensures forall k :: k in TreeLinks(t, up) ==> k.item in Items(t)
  {
    match t
    case Leaf =>
    case Node(l, it, _, r) =>
      TreeLinksItems(l, it);
      TreeLinksItems(r, it);
  }

  lemma TreeLinkItem(t: Shape, up: Item?, k: Links)
    requires k in TreeLinks(t, up)
    ensures k.item in Items(t)
  {
    TreeLinksItems(t, up);
  }

  lemma {:induction false} PathLinksItems(c: Context, hole: Item?)
    ensures forall k :: k in PathLinks(c, hole) ==> k.item in CtxItems(c)
  {
    match c
    case Top =>
    case InLeft(it, _, r, a) =>
      TreeLinksItems(r, it);
      PathLinksItems(a, it);
    case InRight(l, it, _, a) =>
      TreeLinksItems(l, it);
      PathLinksItems(a, it);
  }

  ghost function Refill(k: Links, hole: Item, fill: Item?): Links {
    if k.left == hole then k.(left := fill) else k.(right := fill)
  }

  /** Hanging a subtree below another item changes one link, the up link of its root. */
  lemma Rehang(t: Shape, up: Item?, newUp: Item?, k: Links) returns (j: Links)
    requires k in TreeLinks(t, newUp) && Distinct(t)
    ensures j in TreeLinks(t, up) && j.item in Items(t)
    ensures if j.item == RootOf(t) then k == j.(up := newUp) else k == j
  {
    TreeLinksItems(t.left, t.item);
    TreeLinksItems(t.right, t.item);
    j := if k.item == RootOf(t) then k.(up := up) else k;
  }

  /** Filling a hole with another subtree changes one link, a child link of the item above the hole. */
  lemma Refilling(c: Context, hole: Item, fill: Item?, k: Links) returns (j: Links)
    requires k in PathLinks(c, fill) && CtxDistinct(c) && hole !in CtxItems(c)
    ensures j in PathLinks(c, hole) && j.item in CtxItems(c)
    ensures if j.item == Parent(c) then k == Refill(j, hole, fill) else k == j
  {
    j := if k.item != Parent(c) then k else if c.InLeft? then k.(left := hole) else k.(right := hole);
    match c
    case InLeft(it, _, r, a) =>
      TreeLinksItems(r, it);
      PathLinksItems(a, it);
    case InRight(l, it, _, a) =>
      TreeLinksItems(l, it);
      PathLinksItems(a, it);
  }

  /** A child pointer of the item above the hole leads into the hole, the other one does not. */
  lemma AboveHole(t: Shape, c: Context)
    requires t.Node? && Separate(t, c) && AllHold(Wiring(t, c)) && !c.Top?
    ensures c.item in CtxItems(c) && c.item !in Items(t)
    ensures if c.InLeft? then c.item.left == t.item && c.item.right != t.item
            else c.item.right == t.item && c.item.left != t.item
  {
    assert t.item in Items(t);
    if c.InLeft? {
      assert Links(c.item, t.item, RootOf(c.right), Parent(c.above), c.bal) in Wiring(t, c);
    } else {
      assert Links(c.item, RootOf(c.left), t.item, Parent(c.above), c.bal) in Wiring(t, c);
    }
  }

  /** An item has one set of links. */
  lemma RootLinks(t: Shape, c: Context, k: Links)
    requires t.Node? && Separate(t, c) && k in Wiring(t, c) && k.item == t.item
    ensures k == Links(t.item, RootOf(t.left), RootOf(t.right), Parent(c), t.bal)
  {
    TreeLinksItems(t.left, t.item);
    TreeLinksItems(t.right, t.item);
    PathLinksItems(c, t.item);
  }

  /** Moving the focus between an item and one of its subtrees changes no link. */
  lemma Refocus(l: Shape, it: Item, b: Balance, r: Shape, c: Context)
    ensures Wiring(Node(l, it, b, r), c) == Wiring(l, InLeft(it, b, r, c)) == Wiring(r, InRight(l, it, b, c))
    ensures Separate(Node(l, it, b, r), c) <==> Separate(l, InLeft(it, b, r, c))
    ensures Separate(Node(l, it, b, r), c) <==> Separate(r, InRight(l, it, b, c))
    ensures Items(Node(l, it, b, r)) + CtxItems(c) == Items(l) + CtxItems(InLeft(it, b, r, c))
      == Items(r) + CtxItems(InRight(l, it, b, c))
  {
  }

  lemma {:induction false} PlugWiring(c: Context, t: Shape)
    ensures Wiring(Plug(c, t), Top) == Wiring(t, c)
    ensures RootOf(Plug(c, t)) == FirstOf(c, RootOf(t))
    ensures Items(Plug(c, t)) == Items(t) + CtxItems(c)
    ensures Separate(Plug(c, t), Top) <==> Separate(t, c)
  {
    match c
    case Top =>
    case InLeft(it, b, r, a) =>
      Refocus(t, it, b, r, a);
      PlugWiring(a, Node(t, it, b, r));
    case InRight(l, it, b, a) =>
      Refocus(l, it, b, t, a);
      PlugWiring(a, Node(l, it, b, t));
  }
}
