/**
 * The rings of sibling ranges in pattern.c: all ranges of one pattern are linked in a circle, so that deleting one of
 * them deletes the pattern.
 */
module PrefixRings {
  import opened AvlModel
  import opened AvlRotations
  import opened AvlRemoval
  import opened PrefixIndex
  import opened Options
  import R = PrefixRanges

  // ---- Rings

  /** What vp_sibling of item i of a ring holds: a lone range has none. */
  ghost function Successor(r: seq<Item>, i: nat): Item?
    requires i < |r|
  {
    if |r| == 1 then null else if i + 1 < |r| then r[i + 1] else r[0]
  }

  ghost predicate NoRepeats(r: seq<Item>) {
    forall i, j :: 0 <= i < j < |r| ==> r[i] != r[j]
  }

  ghost predicate Ring(r: seq<Item>)
    reads r`sibling
  {
    r != [] && NoRepeats(r) && forall i :: 0 <= i < |r| ==> r[i].sibling == Successor(r, i)
  }

  ghost function Rotated(r: seq<Item>, j: nat): seq<Item>
    requires j < |r|
  {
    r[j..] + r[..j]
  }

  /** A ring can be read from any of its items on. */
  lemma RingRotated(r: seq<Item>, j: nat)
    requires Ring(r) && j < |r|
    ensures Ring(Rotated(r, j))
  {
    var s := Rotated(r, j);
    forall i | 0 <= i < |s| ensures s[i].sibling == Successor(s, i) {
      var k := if i < |r| - j then i + j else i - (|r| - j);
      assert s[i] == r[k];
    }
  }

  // ---- Widths

  ghost function Width(x: Item): int { x.high - x.low }

  ghost function Sum(s: seq<Item>): int {
    if s == [] then 0 else Width(s[0]) + Sum(s[1..])
  }

  lemma {:induction false} SumConcat(s: seq<Item>, t: seq<Item>)
    ensures Sum(s + t) == Sum(s) + Sum(t)
  {
    if s == [] {
      assert s + t == t;
    } else {
      assert (s + t)[1..] == s[1..] + t;
      SumConcat(s[1..], t);
    }
  }

  lemma SumRotated(r: seq<Item>, j: nat)
    requires j < |r|
    ensures Sum(Rotated(r, j)) == Sum(r)
  {
    SumConcat(r[j..], r[..j]);
    SumConcat(r[..j], r[j..]);
    assert r == r[..j] + r[j..];
  }

  lemma {:induction false} SumWithout(s: seq<Item>, x: Item)
    requires x in s
    ensures Sum(Without(s, x)) == Sum(s) - Width(x)
  {
    if s[0] != x {
      SumWithout(s[1..], x);
    }
  }

  /** So many numbers from low on. */
  ghost function Interval(low: nat, count: nat): (r: set<nat>)
    ensures |r| == count && forall n: nat :: n in r <==> low <= n < low + count
  {
    if count == 0 then {} else Interval(low, count - 1) + {low + count - 1}
  }

  /** The numbers in some range. */
  ghost function Numbers(s: seq<Item>): set<nat> {
    if s == [] then {} else Interval(s[0].low, if Width(s[0]) < 0 then 0 else Width(s[0]) + 1) + Numbers(s[1..])
  }

  ghost predicate Covered(xs: seq<Item>, n: nat) {
    exists x :: x in xs && Covers(x, n)
  }

  lemma {:induction false} InNumbers(s: seq<Item>, n: nat)
    ensures n in Numbers(s) <==> Covered(s, n)
  {
    if s != [] {
      InNumbers(s[1..], n);
      if x :| x in s && Covers(x, n) {
        assert x == s[0] || x in s[1..];
      }
      if n in Numbers(s[1..]) {
        var x :| x in s[1..] && Covers(x, n);
        assert x in s;
      } else if n in Numbers(s) {
        assert s[0] in s && Covers(s[0], n);
      }
    }
  }

  /** Ranges of which no two meet. */
  ghost predicate Disjoint(s: seq<Item>) {
    && (forall i :: 0 <= i < |s| ==> s[i].low <= s[i].high)
    && forall i, j :: 0 <= i < j < |s| ==> !Overlaps(s[i], s[j])
  }

  /** The sum is the number of numbers in the ranges, less one for each range: the code leaves out an end of each. */
  lemma {:induction false} SumCounts(s: seq<Item>)
    requires Disjoint(s)
    ensures Sum(s) == |Numbers(s)| - |s|
  {
    if s != [] {
      SumCounts(s[1..]);
      forall n: nat | n in Numbers(s[1..]) ensures !Covers(s[0], n) {
        InNumbers(s[1..], n);
        var x :| x in s[1..] && Covers(x, n);
        var i :| 0 <= i < |s| - 1 && s[1..][i] == x;
        assert !Overlaps(s[0], s[i + 1]);
      }
      assert Interval(s[0].low, Width(s[0]) + 1) !! Numbers(s[1..]);
    }
  }

  ghost function Weight(t: Shape): int { Sum(InOrder(t)) }

  ghost function SetOf(s: seq<Item>): set<Item> { set x | x in s }

  // ---- vg_prefix_range_sum

  /** The sum of the widths over the ring of vp. */
  method RangeSum(vp: Item, ghost ring: seq<Item>) returns (result: int)
    requires Ring(ring) && ring[0] == vp
    ensures result == Sum(ring)
  {
    var cur: Item? := vp;
    result := 0;
    result := result + (cur.high - cur.low);
    cur := cur.sibling;
    ghost var i := 1;
    assert ring[..1] == [vp];
    while cur != null && cur != vp
      invariant 1 <= i <= |ring| && cur == (if i < |ring| then ring[i] else Successor(ring, |ring| - 1))
      invariant result == Sum(ring[..i])
      decreases |ring| - i
    {
      assert ring[..i + 1] == ring[..i] + [ring[i]];
      SumConcat(ring[..i], [ring[i]]);
      result := result + (cur.high - cur.low);
      cur := cur.sibling;
      i := i + 1;
    }
    assert i == |ring|;
    assert ring[..i] == ring;
  }

  // ---- vg_prefix_delete

  /** The tree has lost the items of xs and nothing else. */
  ghost predicate Shrunk(was: Shape, now: Shape, xs: seq<Item>) {
    Items(now) == Items(was) - SetOf(xs) && Weight(now) == Weight(was) - Sum(xs)
  }

  lemma ShrunkOnce(was: Shape, mid: Shape, now: Shape, xs: seq<Item>, x: Item)
    requires Shrunk(was, mid, xs) && x in Items(mid)
    requires Items(now) == Items(mid) - {x} && InOrder(now) == Without(InOrder(mid), x)
    ensures Shrunk(was, now, xs + [x])
  {
    InOrderItems(mid);
    SumWithout(InOrder(mid), x);
    SumConcat(xs, [x]);
  }

  method RemoveItem(rootp: Root, itemp: Item)
    requires ValidIndex(rootp) && itemp in Items(rootp.shape)
    modifies rootp, Items(rootp.shape)`left, Items(rootp.shape)`right, Items(rootp.shape)`up
    modifies Items(rootp.shape)`balance, Items(rootp.shape)`indexed
    ensures ValidIndex(rootp)
    ensures Items(rootp.shape) == old(Items(rootp.shape)) - {itemp}
    ensures InOrder(rootp.shape) == Without(old(InOrder(rootp.shape)), itemp)
  {
    ghost var was := InOrder(rootp.shape);
    Remove(rootp, itemp);
    SortedWithout(was, itemp);
  }

  lemma {:induction false} WithoutKeeps(s: seq<Item>, x: Item)
    ensures forall y :: y in Without(s, x) ==> y in s
  {
    if s != [] && s[0] != x {
      WithoutKeeps(s[1..], x);
    }
  }

  lemma {:induction false} SortedWithout(s: seq<Item>, x: Item)
    requires Sorted(s)
    ensures Sorted(Without(s, x))
  {
    if s != [] && s[0] != x {
      SortedWithout(s[1..], x);
      WithoutKeeps(s[1..], x);
      var t := Without(s[1..], x);
      forall y | y in t ensures s[0].high < y.low {
        var i :| 0 <= i < |s[1..]| && s[1..][i] == y;
        assert s[i + 1] == y;
      }
      SortedCons(s[0], t);
    }
  }

  lemma SortedCons(x: Item, t: seq<Item>)
    requires Sorted(t) && x.low <= x.high && forall y :: y in t ==> x.high < y.low
    ensures Sorted([x] + t)
  {
    var s := [x] + t;
    forall i, j | 0 <= i < j < |s| ensures s[i].high < s[j].low {
      assert s[j] == t[j - 1];
      if i > 0 {
        assert s[i] == t[i - 1];
      }
    }
  }

  method RemoveMember(rootp: Root, itemp: Item, ghost was: Shape, ghost xs: seq<Item>)
    requires ValidIndex(rootp) && itemp in Items(rootp.shape) && Shrunk(was, rootp.shape, xs)
    modifies rootp, Items(rootp.shape)`left, Items(rootp.shape)`right, Items(rootp.shape)`up
    modifies Items(rootp.shape)`balance, Items(rootp.shape)`indexed
    ensures ValidIndex(rootp) && Shrunk(was, rootp.shape, xs + [itemp])
  {
    ghost var mid := rootp.shape;
    RemoveItem(rootp, itemp);
    ShrunkOnce(was, mid, rootp.shape, xs, itemp);
  }

  /** The next member of the ring is still in the tree. */
  lemma NextMember(was: Shape, mid: Shape, ring: seq<Item>, i: nat)
    requires NoRepeats(ring) && i < |ring| && SetOf(ring) <= Items(was) && Shrunk(was, mid, ring[..i])
    ensures ring[i] in Items(mid) && ring[..i] + [ring[i]] == ring[..i + 1]
  {
    assert ring[i] in SetOf(ring);
  }

  /** vg_prefix_delete: vp goes, and all its siblings go with it. */
  method Delete(rootp: Root, vp: Item, ghost ring: seq<Item>)
    requires ValidIndex(rootp) && Ring(ring) && ring[0] == vp && SetOf(ring) <= Items(rootp.shape)
    modifies rootp, Items(rootp.shape)`left, Items(rootp.shape)`right, Items(rootp.shape)`up
    modifies Items(rootp.shape)`balance, Items(rootp.shape)`indexed
    ensures ValidIndex(rootp) && Shrunk(old(rootp.shape), rootp.shape, ring)
  {
    ghost var was := rootp.shape;
    ghost var i := 1;
    assert SetOf(ring[..0]) == {};
    NextMember(was, was, ring, 0);
    RemoveMember(rootp, vp, was, ring[..0]);
    var sibp := vp.sibling;
    while sibp != null && sibp != vp
      invariant ValidIndex(rootp) && 1 <= i <= |ring| && Shrunk(was, rootp.shape, ring[..i])
      invariant sibp == (if i < |ring| then ring[i] else Successor(ring, |ring| - 1))
      decreases |ring| - i
    {
      NextMember(was, rootp.shape, ring, i);
      RemoveMember(rootp, sibp, was, ring[..i]);
      sibp := sibp.sibling;
      i := i + 1;
    }
    assert ring[..i] == ring;
  }

  // ---- vg_prefix_add

  /** The tree has got the new items xs, and none of them meets an old one. */
  ghost predicate Grown(was: Shape, now: Shape, xs: seq<Item>) {
    && Items(now) == Items(was) + SetOf(xs) && Items(was) !! SetOf(xs) && Weight(now) == Weight(was) + Sum(xs)
    && forall x, y :: x in xs && y in Items(was) ==> !Overlaps(y, x)
  }

  lemma AddedSum(was: seq<Item>, now: seq<Item>, x: Item)
    requires x in now && Without(now, x) == was
    ensures Sum(now) == Sum(was) + Width(x)
  {
    SumWithout(now, x);
  }

  lemma AddedWeight(mid: Shape, now: Shape, x: Item)
    requires Added(mid, now, x)
    ensures Weight(now) == Weight(mid) + Width(x)
  {
    InOrderItems(now);
    AddedSum(InOrder(mid), InOrder(now), x);
  }

  lemma InOrderItem(t: Shape, y: Item)
    ensures y in Items(t) <==> y in InOrder(t)
  {
    InOrderItems(t);
  }

  lemma AddedApart(mid: Shape, now: Shape, x: Item)
    requires Added(mid, now, x)
    ensures forall y :: y in Items(mid) ==> !Overlaps(y, x)
    ensures !Taken(mid, x.low, x.high)
  {
    forall y | y in Items(mid) ensures !Overlaps(y, x) {
      InOrderItem(mid, y);
    }
    forall y | y in Items(mid) ensures !(y.low <= x.high && x.low <= y.high) {
      assert !Overlaps(y, x);
    }
  }

  lemma GrownOnce(was: Shape, mid: Shape, now: Shape, xs: seq<Item>, x: Item)
    requires Grown(was, mid, xs) && x !in Items(mid) && Added(mid, now, x)
    ensures Grown(was, now, xs + [x])
  {
    AddedWeight(mid, now, x);
    AddedApart(mid, now, x);
    SumConcat(xs, [x]);
    assert SetOf(xs + [x]) == SetOf(xs) + {x};
  }

  /** Some stored range meets [low, high]. */
  ghost predicate Taken(t: Shape, low: int, high: int) {
    exists y :: y in Items(t) && y.low <= high && low <= y.high
  }

  method NewRange(rootp: Root, pattern: string, low: nat, high: nat) returns (vp: Item)
    requires ValidIndex(rootp)
    ensures ValidIndex(rootp) && fresh(vp) && vp.low == low && vp.high == high && vp.pattern == pattern
      && vp.sibling == null
    ensures vp !in Items(rootp.shape) && vp.balance == CENT && !vp.indexed
  {
    assert allocated(Items(rootp.shape));
    vp := new Item(pattern, low, high);
  }

  lemma Met(t: Shape, y: Item, x: Item)
    requires y in InOrder(t) && Overlaps(y, x)
    ensures Taken(t, x.low, x.high)
  {
    InOrderItems(t);
  }

  /** vg_prefix_add: the new range, unless it meets an old one. */
  method Add(rootp: Root, pattern: string, low: int, high: int) returns (vp: Item?)
    requires ValidIndex(rootp) && 0 <= low <= high
    modifies rootp, Items(rootp.shape)`left, Items(rootp.shape)`right, Items(rootp.shape)`up, Items(rootp.shape)`balance
    ensures ValidIndex(rootp) && (vp == null <==> Taken(old(rootp.shape), low, high))
    ensures vp == null ==> rootp.shape == old(rootp.shape)
    ensures vp != null ==> fresh(vp) && vp.low == low && vp.high == high && vp.pattern == pattern && vp.sibling == null
    ensures vp != null ==> Added(old(rootp.shape), rootp.shape, vp)
  {
    assert low <= high;
    vp := NewRange(rootp, pattern, low, high);
    ghost var was := rootp.shape;
    var vp2 := Insert(rootp, vp);
    if vp2 != null {
      Met(was, vp2, vp);
      vp := null;
    } else {
      AddedApart(was, rootp.shape, vp);
    }
  }

  // ---- vg_prefix_add_ranges

  /** Some stored range meets one of the new ones. */
  ghost predicate Conflict(t: Shape, ranges: R.Ranges) {
    Taken(t, ranges.lower.low, ranges.lower.high)
    || (ranges.upper.Some? && Taken(t, ranges.upper.value.low, ranges.upper.value.high))
  }

  /** The items of xs carry the pattern and hold the ranges. */
  ghost predicate Carries(xs: seq<Item>, pattern: string, ranges: R.Ranges) {
    && (forall x :: x in xs ==> x.pattern == pattern)
    && forall n: nat :: Covered(xs, n) <==> R.Member(ranges, n)
  }

  lemma CarriesOne(vp: Item, ranges: R.Ranges)
    requires ranges.lower == R.Interval(vp.low, vp.high) && ranges.upper.None?
    ensures Carries([vp], vp.pattern, ranges)
  {
    forall n: nat ensures Covered([vp], n) <==> R.Member(ranges, n) {
      if R.Member(ranges, n) {
        assert vp in [vp] && Covers(vp, n);
      }
    }
  }

  lemma CarriesTwo(vp: Item, vp2: Item, ranges: R.Ranges)
    requires ranges.lower == R.Interval(vp.low, vp.high) && ranges.upper == Some(R.Interval(vp2.low, vp2.high))
    requires vp.pattern == vp2.pattern
    ensures Carries([vp, vp2], vp.pattern, ranges)
  {
    forall n: nat ensures Covered([vp, vp2], n) <==> R.Member(ranges, n) {
      if Covers(vp, n) {
        assert vp in [vp, vp2];
      } else if Covers(vp2, n) {
        assert vp2 in [vp, vp2];
      }
    }
  }

  lemma GrownNone(t: Shape)
    ensures Grown(t, t, [])
  {
  }

  /** Taking back the first of the two ranges. */
  lemma TakenBack(was: Shape, mid: Shape, now: Shape, vp: Item, low: int, high: int)
    requires Grown(was, mid, [vp]) && Shrunk(mid, now, [vp]) && Taken(mid, low, high) && vp.high < low
    ensures Items(now) == Items(was) && Weight(now) == Weight(was) && Taken(was, low, high)
  {
    assert vp in [vp];
    assert SetOf([vp]) == {vp};
  }

  /** Both ranges of a pattern, or none: the first is taken back if there is no room for the second. */
  method AddBoth(rootp: Root, pattern: string, ranges: R.Ranges) returns (vp: Item?, vp2: Item?)
    requires ValidIndex(rootp) && R.Ordered(ranges) && 0 <= ranges.lower.low
    modifies rootp, Items(rootp.shape)`left, Items(rootp.shape)`right, Items(rootp.shape)`up
    modifies Items(rootp.shape)`balance, Items(rootp.shape)`indexed
    ensures ValidIndex(rootp) && (vp == null <==> Conflict(old(rootp.shape), ranges))
    ensures vp == null ==> Items(rootp.shape) == old(Items(rootp.shape)) && Weight(rootp.shape) == old(Weight(rootp.shape))
    ensures vp != null ==> fresh(vp) && vp.sibling == null && (vp2 != null ==> fresh(vp2) && vp2 != vp && vp2.sibling == null)
    ensures vp != null ==> Grown(old(rootp.shape), rootp.shape, Two(vp, vp2)) && Carries(Two(vp, vp2), pattern, ranges)
  {
    hide ValidIndex, Sum, InOrder;
    ghost var was := rootp.shape;
    vp2 := null;
    vp := Add(rootp, pattern, ranges.lower.low, ranges.lower.high);
    if vp == null {
      return;
    }
    ghost var mid := rootp.shape;
    GrownNone(was);
    GrownOnce(was, was, mid, [], vp);
    assert [] + [vp] == [vp];
    if ranges.upper.Some? {
      vp2 := Add(rootp, pattern, ranges.upper.value.low, ranges.upper.value.high);
      if vp2 == null {
        assert vp in SetOf([vp]);
        assert SetOf([vp]) == {vp};
        Delete(rootp, vp, [vp]);
        TakenBack(was, mid, rootp.shape, vp, ranges.upper.value.low, ranges.upper.value.high);
        vp := null;
      } else {
        GrownOnce(was, mid, rootp.shape, [vp], vp2);
        assert [vp] + [vp2] == [vp, vp2];
        CarriesTwo(vp, vp2, ranges);
        assert !Conflict(was, ranges);
      }
    } else {
      CarriesOne(vp, ranges);
    }
  }

  ghost function Two(vp: Item, vp2: Item?): seq<Item> {
    if vp2 == null then [vp] else [vp, vp2]
  }

  /** The new items go in behind the master. */
  ghost function Joined(ring: seq<Item>, added: seq<Item>): seq<Item> {
    if ring == [] then added else [ring[0]] + added + ring[1..]
  }

  /** The first ranges of a pattern. */
  method LinkFirst(vp: Item, vp2: Item?, ghost added: seq<Item>)
    requires vp.sibling == null && vp2 != vp && (vp2 != null ==> vp2.sibling == null) && added == Two(vp, vp2)
    modifies SetOf(added)`sibling
    ensures Ring(added)
  {
    assert vp in added && (vp2 != null ==> vp2 in added);
    vp.sibling := vp2;
    if vp2 != null {
      vp2.sibling := vp;
    }
  }

  lemma JoinedItems(ring: seq<Item>, vp: Item, vp2: Item?)
    requires ring != [] && NoRepeats(ring) && vp !in ring && vp2 !in ring && vp != vp2
    ensures var joined := Joined(ring, Two(vp, vp2)); var n := |Two(vp, vp2)|;
      && |joined| == |ring| + n && NoRepeats(joined)
      && joined[0] == ring[0] && joined[1] == vp && (vp2 != null ==> joined[2] == vp2)
      && (forall i :: n < i < |joined| ==> joined[i] == ring[i - n])
      && Successor(joined, n) == (if |ring| > 1 then ring[1] else ring[0])
      && (forall i :: n < i < |joined| ==> Successor(joined, i) == Successor(ring, i - n))
  {
  }

  /** Further ranges of a pattern, behind its master. */
  method LinkBehind(vp: Item, vp2: Item?, master: Item, ghost added: seq<Item>, ghost ring: seq<Item>)
    requires vp2 != vp && added == Two(vp, vp2) && vp !in ring && vp2 !in ring
    requires Ring(ring) && ring[0] == master
    modifies SetOf(added)`sibling, SetOf(ring)`sibling
    ensures Ring(Joined(ring, added))
  {
    ghost var joined := Joined(ring, added);
    JoinedItems(ring, vp, vp2);
    assert vp in added && (vp2 != null ==> vp2 in added) && master in ring;
    if vp2 != null {
      vp.sibling := vp2;
      vp2.sibling := if master.sibling != null then master.sibling else master;
      master.sibling := vp;
    } else {
      vp.sibling := if master.sibling != null then master.sibling else master;
      master.sibling := vp;
    }
    forall i | 0 <= i < |joined| ensures joined[i].sibling == Successor(joined, i) {
      if i > |added| {
        assert joined[i] == ring[i - |added|];
      }
    }
  }

  /** The ring links play no part in the tree. */
  method Link(rootp: Root, vp: Item, vp2: Item?, master: Item?, ghost added: seq<Item>, ghost ring: seq<Item>)
    requires ValidIndex(rootp) && added == Two(vp, vp2) && vp2 != vp && vp !in ring && vp2 !in ring
    requires vp.sibling == null && (vp2 != null ==> vp2.sibling == null)
    requires if master == null then ring == [] else Ring(ring) && ring[0] == master
    modifies SetOf(added)`sibling, SetOf(ring)`sibling
    ensures ValidIndex(rootp) && Ring(Joined(ring, added))
  {
    assert allocated(Items(rootp.shape));
    if master == null {
      LinkFirst(vp, vp2, added);
    } else {
      LinkBehind(vp, vp2, master, added, ring);
    }
  }

  /** vg_prefix_add_ranges: the ranges of a pattern, in the ring of its master if it has one already. */
  method AddRanges(rootp: Root, pattern: string, ranges: R.Ranges, master: Item?, ghost ring: seq<Item>)
    returns (vp: Item?, ghost added: seq<Item>)
    requires ValidIndex(rootp) && R.Ordered(ranges) && 0 <= ranges.lower.low
    requires if master == null then ring == [] else Ring(ring) && ring[0] == master
    requires SetOf(ring) <= Items(rootp.shape)
    modifies rootp, Items(rootp.shape)`left, Items(rootp.shape)`right, Items(rootp.shape)`up
    modifies Items(rootp.shape)`balance, Items(rootp.shape)`indexed, SetOf(ring)`sibling
    ensures ValidIndex(rootp) && (vp == null <==> Conflict(old(rootp.shape), ranges))
    ensures vp == null ==> Items(rootp.shape) == old(Items(rootp.shape)) && Weight(rootp.shape) == old(Weight(rootp.shape))
    ensures vp == null && ring != [] ==> Ring(ring)
    ensures vp != null ==> added != [] && added[0] == vp && (forall x :: x in added ==> fresh(x)) && Ring(Joined(ring, added))
    ensures vp != null ==> Grown(old(rootp.shape), rootp.shape, added) && Carries(added, pattern, ranges)
  {
    var vp2;
    added := [];
    vp, vp2 := AddBoth(rootp, pattern, ranges);
    if vp != null {
      added := Two(vp, vp2);
      Link(rootp, vp, vp2, master, added, ring);
    }
  }
}
