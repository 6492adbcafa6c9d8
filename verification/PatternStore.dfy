/**
 * vg_prefix_context_t of pattern.c: the patterns searched for, their ranges in the index, and the difficulty, which is
 * the sum of the widths of all ranges. Patterns with a '*' are not part of this model.
 */
module PatternStore {
  import opened AvlModel
  import opened AvlRotations
  import opened AvlRemoval
  import opened PrefixIndex
  import opened PrefixRings
  import opened Base58
  import opened Base58Check
  import opened CaseVariants
  import R = PrefixRanges

  /** A pattern as it was added: as it is spelt, or in any case. */
  datatype Label = Label(pattern: string, insensitive: bool)

  ghost predicate Spells(l: Label, t: string) {
    if l.insensitive then Spelling(l.pattern, t) else t == l.pattern
  }

  /**
   * The text of n, an address of this type, starts with the pattern; see PrefixCompleteness for what Wanted leaves out.
   */
  ghost predicate Wants(addrtype: nat, l: Label, n: nat) {
    exists t :: Spells(l, t) && AllDigits(t) && R.Wanted(addrtype, t, n)
  }

  /** Every item belongs to one ring. */
  ghost predicate Partition(rings: seq<seq<Item>>, items: set<Item>) {
    && (forall k :: 0 <= k < |rings| ==> SetOf(rings[k]) <= items)
    && (forall x :: x in items ==> exists k :: 0 <= k < |rings| && x in rings[k])
    && (forall j, k :: 0 <= j < k < |rings| ==> SetOf(rings[j]) !! SetOf(rings[k]))
  }

  ghost predicate AllRings(rings: seq<seq<Item>>, items: set<Item>)
    reads items`sibling
  {
    forall k :: 0 <= k < |rings| ==> SetOf(rings[k]) <= items && Ring(rings[k])
  }

  /** The ranges of each ring are what its pattern asks for. */
  ghost predicate Serves(addrtype: nat, l: Label, ring: seq<Item>) {
    && (forall x :: x in ring ==> x.pattern == l.pattern)
    && forall n: nat :: Covered(ring, n) <==> Wants(addrtype, l, n)
  }

  ghost predicate AllServe(addrtype: nat, labels: seq<Label>, rings: seq<seq<Item>>) {
    |labels| == |rings| && forall k :: 0 <= k < |rings| ==> Serves(addrtype, labels[k], rings[k])
  }

  ghost predicate Stored(t: Shape, n: nat) {
    exists y :: y in Items(t) && Covers(y, n)
  }

  // ---- Partitions

  lemma PartitionGrows(rings: seq<seq<Item>>, open: seq<Item>, items: set<Item>, added: seq<Item>)
    requires Partition(rings + [open], items) && items !! SetOf(added)
    ensures Partition(rings + [Joined(open, added)], items + SetOf(added))
    ensures SetOf(Joined(open, added)) == SetOf(open) + SetOf(added)
  {
    var now := rings + [Joined(open, added)];
    var was := rings + [open];
    assert SetOf(Joined(open, added)) == SetOf(open) + SetOf(added) by {
      assert open != [] ==> open == [open[0]] + open[1..];
    }
    assert was[|rings|] == open;
    forall k | 0 <= k < |rings| ensures now[k] == rings[k] == was[k] {
    }
    forall x | x in items + SetOf(added) ensures exists k :: 0 <= k < |now| && x in now[k] {
      if x in SetOf(added) {
        assert x in SetOf(now[|rings|]);
      } else {
        var k :| 0 <= k < |was| && x in was[k];
        if k == |rings| {
          assert x in SetOf(open);
          assert x in SetOf(now[k]);
        } else {
          assert x in now[k];
        }
      }
    }
  }

  lemma PartitionOpens(rings: seq<seq<Item>>, items: set<Item>)
    requires Partition(rings, items)
    ensures Partition(rings + [[]], items)
  {
    var now := rings + [[]];
    forall x | x in items ensures exists k :: 0 <= k < |now| && x in now[k] {
      var k :| 0 <= k < |rings| && x in rings[k];
      assert x in now[k];
    }
  }

  ghost function WithoutRing(rings: seq<seq<Item>>, k: nat): seq<seq<Item>>
    requires k < |rings|
  {
    rings[..k] + rings[k + 1..]
  }

  lemma PartitionLoses(rings: seq<seq<Item>>, items: set<Item>, k: nat)
    requires Partition(rings, items) && k < |rings|
    ensures Partition(WithoutRing(rings, k), items - SetOf(rings[k]))
  {
    var now := WithoutRing(rings, k);
    forall j | 0 <= j < |now| ensures now[j] == rings[if j < k then j else j + 1] {
    }
    forall x | x in items - SetOf(rings[k]) ensures exists j :: 0 <= j < |now| && x in now[j] {
      var j :| 0 <= j < |rings| && x in rings[j];
      assert x in now[if j < k then j else j - 1];
    }
  }

  // ---- Conflicts

  lemma ConflictMeans(t: Shape, ranges: R.Ranges)
    requires R.Ordered(ranges) && 0 <= ranges.lower.low && forall y :: y in Items(t) ==> y.low <= y.high
    ensures Conflict(t, ranges) <==> exists n: nat :: R.Member(ranges, n) && Stored(t, n)
  {
    if Conflict(t, ranges) {
      var i := if Taken(t, ranges.lower.low, ranges.lower.high) then ranges.lower else ranges.upper.value;
      var y :| y in Items(t) && y.low <= i.high && i.low <= y.high;
      var n := if y.low < i.low then i.low else y.low;
      assert Covers(y, n);
      assert R.Member(ranges, n) && Stored(t, n);
    }
    if n: nat :| R.Member(ranges, n) && Stored(t, n) {
      var y :| y in Items(t) && Covers(y, n);
    }
  }

  /** Two spellings of equal length do not start the same text. */
  lemma SpellingsApart(addrtype: nat, t: string, u: string, n: nat)
    requires AllDigits(t) && AllDigits(u) && |t| == |u| && R.Wanted(addrtype, t, n) && R.Wanted(addrtype, u, n)
    ensures t == u
  {
    var s := R.TextOf(n);
    assert DigitsOf(t) == s[..|t|] == DigitsOf(u);
    forall i | 0 <= i < |t| ensures t[i] == u[i] {
      MapLetter(t[i]);
      MapLetter(u[i]);
      assert DigitsOf(t)[i] == DigitsOf(u)[i];
    }
  }

  // ---- Building up the ring of a pattern

  /**
   * The tree holds the old items and those of the ring being built, and the finished rings are as they were; `was` is
   * the tree before the pattern.
   */
  ghost predicate Building(rootp: Root, rings: seq<seq<Item>>, open: seq<Item>, was: Shape)
    reads rootp, Items(rootp.shape)
  {
    && ValidIndex(rootp)
    && Partition(rings + [open], Items(rootp.shape)) && AllRings(rings, Items(rootp.shape))
    && SetOf(open) <= Items(rootp.shape) && (open != [] ==> Ring(open))
    && Items(rootp.shape) == Items(was) + SetOf(open) && Items(was) !! SetOf(open)
    && Weight(rootp.shape) == Weight(was) + Sum(open)
  }

  ghost function Master(open: seq<Item>): Item? {
    if open == [] then null else open[0]
  }

  lemma SumJoined(open: seq<Item>, added: seq<Item>)
    ensures Sum(Joined(open, added)) == Sum(open) + Sum(added)
  {
    if open != [] {
      SumConcat([open[0]] + added, open[1..]);
      SumConcat([open[0]], added);
      SumConcat([open[0]], open[1..]);
      assert open == [open[0]] + open[1..];
    }
  }

  lemma OpenApart(rings: seq<seq<Item>>, open: seq<Item>, items: set<Item>)
    requires Partition(rings + [open], items)
    ensures forall k :: 0 <= k < |rings| ==> SetOf(rings[k]) !! SetOf(open)
  {
    var all := rings + [open];
    assert all[|rings|] == open;
    forall k | 0 <= k < |rings| ensures SetOf(rings[k]) !! SetOf(open) {
      assert all[k] == rings[k] && SetOf(all[k]) !! SetOf(all[|rings|]);
    }
  }

  /** AddRanges beside other rings, which stay as they are. */
  method AddBeside(rootp: Root, pattern: string, ranges: R.Ranges, master: Item?, ghost rings: seq<seq<Item>>,
      ghost open: seq<Item>)
    returns (vp: Item?, ghost added: seq<Item>)
    requires ValidIndex(rootp) && R.Ordered(ranges) && 0 <= ranges.lower.low
    requires master == Master(open) && SetOf(open) <= Items(rootp.shape) && (open != [] ==> Ring(open))
    requires AllRings(rings, Items(rootp.shape))
    requires forall k :: 0 <= k < |rings| ==> SetOf(rings[k]) !! SetOf(open)
    modifies rootp, Items(rootp.shape)
    ensures ValidIndex(rootp) && AllRings(rings, Items(rootp.shape)) && (vp == null <==> Conflict(old(rootp.shape), ranges))
    ensures vp == null ==> Items(rootp.shape) == old(Items(rootp.shape)) && Weight(rootp.shape) == old(Weight(rootp.shape))
    ensures vp == null && open != [] ==> Ring(open)
    ensures vp != null ==> added != [] && added[0] == vp && (forall x :: x in added ==> fresh(x)) && Ring(Joined(open, added))
    ensures vp != null ==> Grown(old(rootp.shape), rootp.shape, added) && Carries(added, pattern, ranges)
  {
    hide ValidIndex, Conflict, Carries, Weight, Joined, Sum;
    vp, added := AddRanges(rootp, pattern, ranges, master, open);
    forall k | 0 <= k < |rings| ensures Ring(rings[k]) && SetOf(rings[k]) <= Items(rootp.shape) {
      forall i | 0 <= i < |rings[k]| ensures rings[k][i].sibling == old(rings[k][i].sibling) {
        assert rings[k][i] in SetOf(rings[k]) && rings[k][i] !in SetOf(open);
      }
    }
  }

  /** Adds the ranges of one spelling to the ring being built. */
  method Extend(rootp: Root, pattern: string, ranges: R.Ranges, master: Item?, ghost rings: seq<seq<Item>>,
      ghost open: seq<Item>, ghost was: Shape)
    returns (vp2: Item?, ghost now: seq<Item>)
    requires Building(rootp, rings, open, was) && master == Master(open) && R.Ordered(ranges) && 0 <= ranges.lower.low
    modifies rootp, Items(rootp.shape)
    ensures Building(rootp, rings, now, was)
    ensures vp2 == null <==> Conflict(old(rootp.shape), ranges)
    ensures vp2 == null ==> now == open
    ensures vp2 != null ==> Master(now) == (if master == null then vp2 else master)
    ensures vp2 != null ==> forall n: nat :: Covered(now, n) <==> Covered(open, n) || R.Member(ranges, n)
    ensures vp2 != null ==> forall x :: x in now && x !in open ==> fresh(x) && x.pattern == pattern
  {
    hide ValidIndex, Conflict, Covered, Carries, Sum, Weight, Partition, AllRings, Ring, SetOf, Items, Overlaps;
    now := open;
    ghost var added;
    ghost var mid := rootp.shape;
    OpenApart(rings, open, Items(mid));
    vp2, added := AddBeside(rootp, pattern, ranges, master, rings, open);
    if vp2 != null {
      now := Joined(open, added);
      PartitionGrows(rings, open, Items(mid), added);
      SumJoined(open, added);
      CoveredJoined(open, added, pattern, ranges);
    }
  }

  lemma CoveredJoined(open: seq<Item>, added: seq<Item>, pattern: string, ranges: R.Ranges)
    requires Carries(added, pattern, ranges)
    ensures forall n: nat :: Covered(Joined(open, added), n) <==> Covered(open, n) || R.Member(ranges, n)
    ensures forall x :: x in Joined(open, added) && x !in open ==> x in added && x.pattern == pattern
  {
    var now := Joined(open, added);
    assert open != [] ==> open == [open[0]] + open[1..];
    assert forall x :: x in now <==> x in open || x in added;
    forall n: nat ensures Covered(now, n) <==> Covered(open, n) || R.Member(ranges, n) {
      assert R.Member(ranges, n) <==> Covered(added, n);
    }
  }

  ghost predicate WantedText(addrtype: nat, t: string, n: nat) {
    AllDigits(t) && R.Wanted(addrtype, t, n)
  }

  lemma ProperRanges(t: Shape)
    requires Sorted(InOrder(t))
    ensures forall y :: y in Items(t) ==> y.low <= y.high
  {
    forall y | y in Items(t) ensures y.low <= y.high {
      InOrderItem(t, y);
      var i :| 0 <= i < |InOrder(t)| && InOrder(t)[i] == y;
    }
  }

  /** Some number that the text wants is stored already. */
  ghost predicate Clashes(addrtype: nat, t: string, shape: Shape) {
    exists n: nat :: WantedText(addrtype, t, n) && Stored(shape, n)
  }

  lemma ConflictClashes(addrtype: nat, t: string, ranges: R.Ranges, shape: Shape)
    requires R.Ordered(ranges) && 0 <= ranges.lower.low && AllDigits(t) && Sorted(InOrder(shape))
    requires forall n :: R.Member(ranges, n) <==> R.Wanted(addrtype, t, n)
    ensures Conflict(shape, ranges) <==> Clashes(addrtype, t, shape)
    ensures WantedText(addrtype, t, ranges.lower.low)
  {
    hide Sorted, Conflict, Stored, R.Wanted;
    ProperRanges(shape);
    ConflictMeans(shape, ranges);
    assert R.Member(ranges, ranges.lower.low);
    if Conflict(shape, ranges) {
      var n: nat :| R.Member(ranges, n) && Stored(shape, n);
      assert WantedText(addrtype, t, n);
    }
    if Clashes(addrtype, t, shape) {
      var n: nat :| WantedText(addrtype, t, n) && Stored(shape, n);
      assert R.Member(ranges, n);
    }
  }

  /** The ranges of one spelling of a pattern, as far as there are any and no others are in the way. */
  method AddSpelling(rootp: Root, addrtype: nat, pattern: string, text: string, master: Item?,
      ghost rings: seq<seq<Item>>, ghost open: seq<Item>, ghost was: Shape)
    returns (ret: int, vp2: Item?, ghost now: seq<Item>)
    requires Building(rootp, rings, open, was) && master == Master(open) && R.ShortEnough(text)
    modifies rootp, Items(rootp.shape)
    ensures Building(rootp, rings, now, was)
    ensures ret in {0, -1, -2} && (ret == -1 <==> !AllDigits(text))
    ensures (ret == 0 <==> exists n: nat :: WantedText(addrtype, text, n))
    ensures vp2 == null <==> ret != 0 || Clashes(addrtype, text, old(rootp.shape))
    ensures vp2 == null ==> now == open
    ensures vp2 != null ==> Master(now) == (if master == null then vp2 else master)
    ensures vp2 != null ==> forall n: nat :: Covered(now, n) <==> Covered(open, n) || WantedText(addrtype, text, n)
    ensures vp2 != null ==> forall x :: x in now && x !in open ==> fresh(x) && x.pattern == pattern
  {
    hide R.Wanted, Covered, Conflict, Clashes, AllDigits;
    vp2, now := null, open;
    ghost var shape := rootp.shape;
    var result := R.GetPrefixRanges(addrtype, text);
    match result
    case Invalid => ret := -1;
    case NotPossible => ret := -2;
    case Found(ranges) =>
      ret := 0;
      ConflictClashes(addrtype, text, ranges, shape);
      vp2, now := Extend(rootp, pattern, ranges, master, rings, open, was);
  }

  // ---- All spellings of a pattern

  ghost predicate SpeltBefore(addrtype: nat, pattern: string, done: nat, n: nat) {
    exists v: nat :: v < done && WantedText(addrtype, Spell(pattern, v), n)
  }

  /** The ring being built holds what the first spellings want. */
  ghost predicate Gathered(addrtype: nat, pattern: string, done: nat, open: seq<Item>) {
    && (forall x :: x in open ==> x.pattern == pattern)
    && forall n: nat :: Covered(open, n) <==> SpeltBefore(addrtype, pattern, done, n)
  }

  /** The spelling is no use: it is no Base58 text, or it wants what is stored already. */
  ghost predicate Refused(addrtype: nat, t: string, was: Shape) {
    !AllDigits(t) || Clashes(addrtype, t, was)
  }

  ghost predicate SomeRefused(addrtype: nat, pattern: string, done: nat, was: Shape) {
    exists v: nat :: v < done && Refused(addrtype, Spell(pattern, v), was)
  }

  /** No address starts with the text. */
  ghost predicate Useless(addrtype: nat, t: string) {
    forall n: nat :: !WantedText(addrtype, t, n)
  }

  ghost predicate SomeUseless(addrtype: nat, pattern: string, done: nat) {
    exists v: nat :: v < done && Useless(addrtype, Spell(pattern, v))
  }

  /** A clash is with the old items: what earlier spellings want is something else. */
  lemma ClashIsOld(addrtype: nat, pattern: string, done: nat, open: seq<Item>, was: Shape, now: Shape)
    requires done < R.Pow2(Bits(pattern)) && Gathered(addrtype, pattern, done, open)
      && Items(now) == Items(was) + SetOf(open)
    ensures Clashes(addrtype, Spell(pattern, done), now) <==> Clashes(addrtype, Spell(pattern, done), was)
  {
    hide R.Wanted, R.Pow2, Bits, Bit;
    var t := Spell(pattern, done);
    if Clashes(addrtype, t, now) {
      var n: nat :| WantedText(addrtype, t, n) && Stored(now, n);
      var y :| y in Items(now) && Covers(y, n);
      if y in SetOf(open) {
        assert Covered(open, n);
        var v: nat :| v < done && WantedText(addrtype, Spell(pattern, v), n);
        SpellingsApart(addrtype, Spell(pattern, v), t, n);
        SpellingsDiffer(pattern, v, done);
      }
      assert Stored(was, n);
    }
    if Clashes(addrtype, t, was) {
      var n: nat :| WantedText(addrtype, t, n) && Stored(was, n);
      var y :| y in Items(was) && Covers(y, n);
      assert Stored(now, n);
    }
  }

  lemma GatheredNone(addrtype: nat, pattern: string)
    ensures Gathered(addrtype, pattern, 0, [])
  {
  }

  lemma GatheredNext(addrtype: nat, pattern: string, done: nat, open: seq<Item>, now: seq<Item>)
    requires Gathered(addrtype, pattern, done, open)
    requires forall x :: x in now && x !in open ==> x.pattern == pattern
    requires forall n: nat :: Covered(now, n) <==> Covered(open, n) || WantedText(addrtype, Spell(pattern, done), n)
    ensures Gathered(addrtype, pattern, done + 1, now)
  {
    hide WantedText, Covered, Spell;
    forall n: nat ensures Covered(now, n) <==> SpeltBefore(addrtype, pattern, done + 1, n) {
      if SpeltBefore(addrtype, pattern, done + 1, n) {
        var v: nat :| v < done + 1 && WantedText(addrtype, Spell(pattern, v), n);
        assert v != done ==> SpeltBefore(addrtype, pattern, done, n);
      }
      if SpeltBefore(addrtype, pattern, done, n) {
        var v: nat :| v < done && WantedText(addrtype, Spell(pattern, v), n);
        assert v < done + 1;
      }
    }
  }

  /** What the loop over the spellings has done so far. */
  ghost predicate Progress(addrtype: nat, pattern: string, done: nat, was: Shape, case_impossible: nat) {
    && !SomeRefused(addrtype, pattern, done, was)
    && (case_impossible == 0 && done > 0 ==> exists n: nat :: SpeltBefore(addrtype, pattern, done, n))
  }

  lemma ProgressNext(addrtype: nat, pattern: string, done: nat, was: Shape, case_impossible: nat, next: nat)
    requires Progress(addrtype, pattern, done, was, case_impossible) && !Refused(addrtype, Spell(pattern, done), was)
    requires next > 0 || exists n: nat :: WantedText(addrtype, Spell(pattern, done), n)
    ensures Progress(addrtype, pattern, done + 1, was, next)
  {
    hide WantedText, Refused, Spell;
    forall v: nat | v < done + 1 ensures !Refused(addrtype, Spell(pattern, v), was) {
      assert v < done ==> !Refused(addrtype, Spell(pattern, v), was);
    }
    if next == 0 {
      var n: nat :| WantedText(addrtype, Spell(pattern, done), n);
      assert SpeltBefore(addrtype, pattern, done + 1, n);
    }
  }

  method NewIter(rootp: Root, pattern: string, ghost rings: seq<seq<Item>>, ghost was: Shape) returns (iter: CaseIter)
    requires Building(rootp, rings, [], was)
    ensures Building(rootp, rings, [], was) && fresh(iter) && iter.Valid() && iter.value == 0 && iter.pattern == pattern
  {
    hide ValidIndex, Partition;
    assert allocated(Items(rootp.shape));
    iter := new CaseIter(pattern);
  }

  method NextCase(rootp: Root, iter: CaseIter, ghost rings: seq<seq<Item>>, ghost open: seq<Item>, ghost was: Shape)
      returns (more: bool)
    requires Building(rootp, rings, open, was) && iter.Valid()
    modifies iter`prefix, iter`value
    ensures Building(rootp, rings, open, was)
    ensures iter.Valid() && more == (old(iter.value) + 1 < R.Pow2(Bits(iter.pattern)))
    ensures iter.value == if more then old(iter.value) + 1 else old(iter.value)
  {
    hide ValidIndex, Partition, R.Pow2, Bits;
    assert allocated(Items(rootp.shape));
    more := iter.Next();
  }

  /** The loop over the spellings: ends at the first one that is refused. */
  method GatherCases(rootp: Root, addrtype: nat, pattern: string, ghost rings: seq<seq<Item>>, ghost was: Shape)
    returns (ret: int, vp: Item?, case_impossible: nat, ghost open: seq<Item>)
    requires Building(rootp, rings, [], was) && forall v: nat :: R.ShortEnough(Spell(pattern, v))
    modifies rootp, Items(rootp.shape)
    ensures Building(rootp, rings, open, was) && vp == Master(open) && forall x :: x in open ==> fresh(x)
    ensures ret in {0, -1}
    ensures ret == 0 ==> Gathered(addrtype, pattern, R.Pow2(Bits(pattern)), open)
    ensures ret == 0 ==> Progress(addrtype, pattern, R.Pow2(Bits(pattern)), was, case_impossible)
    ensures ret == -1 ==> SomeRefused(addrtype, pattern, R.Pow2(Bits(pattern)), was)
    ensures case_impossible > 0 ==> SomeUseless(addrtype, pattern, R.Pow2(Bits(pattern)))
  {
    hide R.Pow2, Bits, Gathered, Progress, R.ShortEnough, Partition, ValidIndex, AllRings, Ring, Weight, Sum;
    hide Covered, WantedText;
    hide R.Wanted, AllDigits, Stored;
    ghost var max, done := R.Pow2(Bits(pattern)), 0;
    ret, vp, case_impossible, open := 0, null, 0, [];
    var caseiter := NewIter(rootp, pattern, rings, was);
    GatheredNone(addrtype, pattern);
    StartProgress(addrtype, pattern, was);
    var more := true;
    while more
      invariant Building(rootp, rings, open, was) && vp == Master(open) && forall x :: x in open ==> fresh(x)
      invariant caseiter.Valid() && caseiter.pattern == pattern && ret in {0, -1} && fresh(caseiter)
      invariant ret == 0 ==> Gathered(addrtype, pattern, done, open) && Progress(addrtype, pattern, done, was, case_impossible)
      invariant ret == -1 ==> !more && SomeRefused(addrtype, pattern, max, was)
      invariant case_impossible > 0 ==> SomeUseless(addrtype, pattern, max)
      invariant more ==> done == caseiter.value < max
      invariant !more && ret == 0 ==> done == max
      invariant done <= max
      decreases max - done, more
    {
      ghost var text, shape := Spell(pattern, done), rootp.shape;
      var vp2;
      ghost var now;
      ret, vp2, now := AddSpelling(rootp, addrtype, pattern, caseiter.prefix, vp, rings, open, was);
      if ret == -2 {
        assert Useless(addrtype, text);
        case_impossible := case_impossible + 1;
        ret := 0;
        more := NextCase(rootp, caseiter, rings, open, was);
      } else if ret != 0 {
        more := false;
      } else {
        if vp2 == null {
          ret := -1;
          more := false;
        } else {
          if vp == null {
            vp := vp2;
          }
          more := NextCase(rootp, caseiter, rings, now, was);
        }
      }
      ClashIsOld(addrtype, pattern, done, open, was, shape);
      if ret == 0 {
        GatheredNext(addrtype, pattern, done, open, now);
        ProgressNext(addrtype, pattern, done, was,
          if vp2 == null then case_impossible - 1 else case_impossible, case_impossible);
        open, done := now, done + 1;
      } else {
        assert Refused(addrtype, Spell(pattern, done), was);
      }
    }
  }

  lemma StartProgress(addrtype: nat, pattern: string, was: Shape)
    ensures Progress(addrtype, pattern, 0, was, 0)
  {
  }

  lemma PartitionCloses(rings: seq<seq<Item>>, open: seq<Item>, items: set<Item>)
    requires Partition(rings + [open], items)
    ensures Partition(rings, items - SetOf(open))
  {
    var all := rings + [open];
    assert all[|rings|] == open;
    assert WithoutRing(all, |rings|) == rings;
    PartitionLoses(all, items, |rings|);
  }

  /** Deletes the ring being built. */
  method TakeBack(rootp: Root, vp: Item, ghost rings: seq<seq<Item>>, ghost open: seq<Item>, ghost was: Shape)
    requires Building(rootp, rings, open, was) && open != [] && vp == open[0]
    modifies rootp, Items(rootp.shape)
    ensures Building(rootp, rings, [], was)
  {
    hide ValidIndex, Partition, Sum, Weight;
    ghost var items := Items(rootp.shape);
    assert Sum([]) == 0 by {
      SumJoined([], []);
    }
    PartitionCloses(rings, open, items);
    Delete(rootp, vp, open);
    PartitionOpens(rings, items - SetOf(open));
    RingsWithin(rings, Items(rootp.shape));
  }

  lemma RingsWithin(rings: seq<seq<Item>>, items: set<Item>)
    requires Partition(rings, items)
    ensures forall k :: 0 <= k < |rings| ==> SetOf(rings[k]) <= items
  {
  }

  // ---- Which patterns are taken

  /** Some stored pattern wants n. */
  ghost predicate WantedByOne(addrtype: nat, labels: seq<Label>, n: nat) {
    exists k :: 0 <= k < |labels| && Wants(addrtype, labels[k], n)
  }

  /**
   * A pattern is taken when all its spellings are Base58 texts, some address of the type starts with one of them, and
   * no such address starts with a stored pattern.
   */
  ghost predicate Acceptable(addrtype: nat, labels: seq<Label>, l: Label) {
    && (forall t :: Spells(l, t) ==> AllDigits(t))
    && (exists n: nat :: Wants(addrtype, l, n))
    && (forall n: nat :: Wants(addrtype, l, n) ==> !WantedByOne(addrtype, labels, n))
  }

  /** What the buffer for the spellings refuses. */
  predicate TooLong(l: Label) { l.insensitive && |l.pattern| > 33 }

  /** The stored patterns after a list of patterns, taken or not one after the other. */
  ghost function Accept(addrtype: nat, labels: seq<Label>, insensitive: bool, patterns: seq<string>): seq<Label> {
    if patterns == [] then labels else
    var before := Accept(addrtype, labels, insensitive, patterns[..|patterns| - 1]);
    var l := Label(patterns[|patterns| - 1], insensitive);
    if !TooLong(l) && Acceptable(addrtype, before, l) then before + [l] else before
  }

  lemma StoredIsWanted(addrtype: nat, labels: seq<Label>, rings: seq<seq<Item>>, shape: Shape, n: nat)
    requires Partition(rings, Items(shape)) && AllServe(addrtype, labels, rings)
    ensures Stored(shape, n) <==> WantedByOne(addrtype, labels, n)
  {
    hide Wants;
    if Stored(shape, n) {
      var y :| y in Items(shape) && Covers(y, n);
      var k :| 0 <= k < |rings| && y in rings[k];
      assert Serves(addrtype, labels[k], rings[k]);
      assert Covered(rings[k], n);
    }
    if WantedByOne(addrtype, labels, n) {
      var k :| 0 <= k < |labels| && Wants(addrtype, labels[k], n);
      assert Serves(addrtype, labels[k], rings[k]);
      assert Covered(rings[k], n);
      var y :| y in rings[k] && Covers(y, n);
      assert y in SetOf(rings[k]);
    }
  }

  /** Refusals, in terms of the stored patterns. */
  lemma RefusalsAre(addrtype: nat, labels: seq<Label>, rings: seq<seq<Item>>, shape: Shape, l: Label)
    requires Partition(rings, Items(shape)) && AllServe(addrtype, labels, rings)
    ensures Acceptable(addrtype, labels, l) <==>
      && (forall t :: Spells(l, t) ==> !Refused(addrtype, t, shape))
      && (exists n: nat :: Wants(addrtype, l, n))
  {
    hide Spells, AllDigits, R.Wanted, Stored, WantedByOne, AllServe, Partition;
    forall n: nat ensures Stored(shape, n) <==> WantedByOne(addrtype, labels, n) {
      StoredIsWanted(addrtype, labels, rings, shape, n);
    }
    if Acceptable(addrtype, labels, l) {
      forall t | Spells(l, t) ensures !Refused(addrtype, t, shape) {
        forall n: nat | WantedText(addrtype, t, n) ensures !Stored(shape, n) {
          assert Wants(addrtype, l, n);
        }
      }
    }
    if forall t :: Spells(l, t) ==> !Refused(addrtype, t, shape) {
      forall n: nat | Wants(addrtype, l, n) ensures !WantedByOne(addrtype, labels, n) {
        var t :| Spells(l, t) && AllDigits(t) && R.Wanted(addrtype, t, n);
        assert WantedText(addrtype, t, n);
      }
    }
  }

  /** The numbered spellings are all spellings. */
  lemma CasesAreSpellings(addrtype: nat, pattern: string, was: Shape)
    ensures var l, max := Label(pattern, true), R.Pow2(Bits(pattern));
      && (SomeRefused(addrtype, pattern, max, was) <==> exists t :: Spells(l, t) && Refused(addrtype, t, was))
      && (forall n: nat :: SpeltBefore(addrtype, pattern, max, n) <==> Wants(addrtype, l, n))
  {
    hide AllDigits, R.Wanted, Refused, R.Pow2, Bits, Spelling;
    var l, max := Label(pattern, true), R.Pow2(Bits(pattern));
    if SomeRefused(addrtype, pattern, max, was) {
      var v: nat :| v < max && Refused(addrtype, Spell(pattern, v), was);
      SpellIsSpelling(pattern, v);
      assert Spells(l, Spell(pattern, v));
    }
    if t :| Spells(l, t) && Refused(addrtype, t, was) {
      var v := EverySpelling(pattern, t);
    }
    forall n: nat ensures SpeltBefore(addrtype, pattern, max, n) <==> Wants(addrtype, l, n) {
      if SpeltBefore(addrtype, pattern, max, n) {
        var v: nat :| v < max && WantedText(addrtype, Spell(pattern, v), n);
        SpellIsSpelling(pattern, v);
        assert Spells(l, Spell(pattern, v));
      }
      if Wants(addrtype, l, n) {
        var t :| Spells(l, t) && AllDigits(t) && R.Wanted(addrtype, t, n);
        var v := EverySpelling(pattern, t);
        assert WantedText(addrtype, Spell(pattern, v), n);
      }
    }
  }

  lemma CasesServe(addrtype: nat, pattern: string, ring: seq<Item>, was: Shape)
    requires Gathered(addrtype, pattern, R.Pow2(Bits(pattern)), ring)
    ensures Serves(addrtype, Label(pattern, true), ring)
  {
    hide Covered, SpeltBefore, Wants, R.Pow2, Bits;
    CasesAreSpellings(addrtype, pattern, was);
  }

  lemma SomethingWanted(addrtype: nat, pattern: string, done: nat, ring: seq<Item>, was: Shape, case_impossible: nat)
    requires Gathered(addrtype, pattern, done, ring) && Progress(addrtype, pattern, done, was, case_impossible)
    requires forall x :: x in ring ==> x.low <= x.high
    ensures ring == [] && done > 0 ==> case_impossible > 0
    ensures ring == [] ==> forall n: nat :: !SpeltBefore(addrtype, pattern, done, n)
    ensures ring != [] ==> exists n: nat :: SpeltBefore(addrtype, pattern, done, n)
  {
    hide SpeltBefore;
    if ring == [] {
      forall n: nat ensures !SpeltBefore(addrtype, pattern, done, n) {
        assert !Covered(ring, n);
      }
    } else {
      var n := ring[0].low;
      assert ring[0] in ring && Covers(ring[0], n);
      assert Covered(ring, n);
    }
  }

  /** The branch of vg_prefix_context_add_patterns that enumerates the spellings. */
  method AddCases(rootp: Root, addrtype: nat, pattern: string, ghost labels: seq<Label>, ghost rings: seq<seq<Item>>,
      ghost was: Shape)
    returns (ret: int, vp: Item?, ghost ring: seq<Item>)
    requires Building(rootp, rings, [], was) && was == rootp.shape && AllServe(addrtype, labels, rings)
    requires forall v: nat :: R.ShortEnough(Spell(pattern, v))
    modifies rootp, Items(rootp.shape)
    ensures Building(rootp, rings, ring, was) && vp == Master(ring) && forall x :: x in ring ==> fresh(x)
    ensures vp != null <==> Acceptable(addrtype, labels, Label(pattern, true))
    ensures vp != null ==> Serves(addrtype, Label(pattern, true), ring)
    ensures ret in {0, -1, -2} && (ret == 0 <==> vp != null)
    ensures ret == -1 ==> exists t :: Spells(Label(pattern, true), t) && Refused(addrtype, t, was)
    ensures ret == -2 ==> exists t :: Spells(Label(pattern, true), t) && Useless(addrtype, t)
  {
    hide Partition, AllRings, Ring, Weight, Sum, Covered, Gathered, Progress, Wants, Refused, AllDigits, R.Pow2;
    hide Bits, R.ShortEnough;
    hide Spells, AllServe, Serves;
    var case_impossible;
    ghost var l, max := Label(pattern, true), R.Pow2(Bits(pattern));
    assert Partition(rings, Items(was)) by {
      PartitionCloses(rings, [], Items(was));
      assert Items(was) - SetOf([]) == Items(was);
    }
    ret, vp, case_impossible, ring := GatherCases(rootp, addrtype, pattern, rings, was);
    RefusalsAre(addrtype, labels, rings, was, l);
    CasesAreSpellings(addrtype, pattern, was);
    if ret == 0 {
      ProperRanges(rootp.shape);
      assert forall x :: x in ring ==> x in SetOf(ring);
      SomethingWanted(addrtype, pattern, max, ring, was, case_impossible);
      CasesServe(addrtype, pattern, ring, was);
      NotRefused(addrtype, pattern, max, was, case_impossible);
    }
    if case_impossible > 0 {
      UselessSpelling(addrtype, pattern);
    }
    if vp == null && case_impossible > 0 {
      ret := -2;
    }
    if ret != 0 && vp != null {
      TakeBack(rootp, vp, rings, ring, was);
      vp, ring := null, [];
    }
  }

  lemma UselessSpelling(addrtype: nat, pattern: string)
    requires SomeUseless(addrtype, pattern, R.Pow2(Bits(pattern)))
    ensures exists t :: Spells(Label(pattern, true), t) && Useless(addrtype, t)
  {
    hide R.Pow2, Bits, Spelling, Useless;
    var v: nat :| v < R.Pow2(Bits(pattern)) && Useless(addrtype, Spell(pattern, v));
    SpellIsSpelling(pattern, v);
    assert Spells(Label(pattern, true), Spell(pattern, v));
  }

  lemma NotRefused(addrtype: nat, pattern: string, done: nat, was: Shape, case_impossible: nat)
    requires Progress(addrtype, pattern, done, was, case_impossible)
    ensures !SomeRefused(addrtype, pattern, done, was)
  {
  }

  ghost function WithoutLabel(labels: seq<Label>, k: nat): seq<Label>
    requires k < |labels|
  {
    labels[..k] + labels[k + 1..]
  }

  lemma ServesWithout(addrtype: nat, labels: seq<Label>, rings: seq<seq<Item>>, k: nat)
    requires AllServe(addrtype, labels, rings) && k < |rings|
    ensures AllServe(addrtype, WithoutLabel(labels, k), WithoutRing(rings, k))
  {
    hide Serves;
    var ls, rs := WithoutLabel(labels, k), WithoutRing(rings, k);
    forall j | 0 <= j < |rs| ensures Serves(addrtype, ls[j], rs[j]) {
      var i := if j < k then j else j + 1;
      assert ls[j] == labels[i] && rs[j] == rings[i];
    }
  }

  /** vg_prefix_delete of any member of a ring among others. */
  method DeleteRing(rootp: Root, vp: Item, ghost rings: seq<seq<Item>>, ghost k: nat, ghost i: nat)
    requires ValidIndex(rootp) && Partition(rings, Items(rootp.shape)) && AllRings(rings, Items(rootp.shape))
    requires k < |rings| && i < |rings[k]| && rings[k][i] == vp
    modifies rootp, Items(rootp.shape)`left, Items(rootp.shape)`right, Items(rootp.shape)`up
    modifies Items(rootp.shape)`balance, Items(rootp.shape)`indexed
    ensures ValidIndex(rootp) && Partition(WithoutRing(rings, k), Items(rootp.shape))
    ensures AllRings(WithoutRing(rings, k), Items(rootp.shape))
    ensures Items(rootp.shape) == old(Items(rootp.shape)) - SetOf(rings[k])
    ensures Weight(rootp.shape) == old(Weight(rootp.shape)) - Sum(rings[k])
  {
    hide ValidIndex, Partition, Weight, Sum;
    ghost var items, ring := Items(rootp.shape), Rotated(rings[k], i);
    RingRotated(rings[k], i);
    SumRotated(rings[k], i);
    RotatedSet(rings[k], i);
    PartitionLoses(rings, items, k);
    Delete(rootp, vp, ring);
    RingsWithin(WithoutRing(rings, k), Items(rootp.shape));
  }

  lemma RotatedSet(r: seq<Item>, j: nat)
    requires j < |r|
    ensures SetOf(Rotated(r, j)) == SetOf(r) && Rotated(r, j)[0] == r[j]
  {
    assert r == r[..j] + r[j..];
  }

  lemma OneSpelling(addrtype: nat, l: Label, was: Shape)
    requires !l.insensitive
    ensures (forall t :: Spells(l, t) ==> !Refused(addrtype, t, was)) <==> !Refused(addrtype, l.pattern, was)
    ensures forall n: nat :: Wants(addrtype, l, n) <==> WantedText(addrtype, l.pattern, n)
  {
    hide AllDigits, R.Wanted, Refused;
    assert Spells(l, l.pattern);
  }

  /** The branch for a pattern in one spelling. */
  method AddOne(rootp: Root, addrtype: nat, pattern: string, ghost labels: seq<Label>, ghost rings: seq<seq<Item>>,
      ghost was: Shape)
    returns (ret: int, vp: Item?, ghost ring: seq<Item>)
    requires Building(rootp, rings, [], was) && was == rootp.shape && AllServe(addrtype, labels, rings)
    requires R.ShortEnough(pattern)
    modifies rootp, Items(rootp.shape)
    ensures Building(rootp, rings, ring, was) && vp == Master(ring) && forall x :: x in ring ==> fresh(x)
    ensures vp != null <==> Acceptable(addrtype, labels, Label(pattern, false))
    ensures vp != null ==> Serves(addrtype, Label(pattern, false), ring)
    ensures ret in {0, -1, -2} && (ret == -1 <==> !AllDigits(pattern))
    ensures ret == 0 <==> exists n: nat :: WantedText(addrtype, pattern, n)
  {
    hide Partition, AllRings, Ring, Weight, Sum, Wants, AllDigits, R.ShortEnough, Spells, AllServe, Clashes, R.Wanted;
    ghost var l := Label(pattern, false);
    assert Partition(rings, Items(was)) by {
      PartitionCloses(rings, [], Items(was));
      assert Items(was) - SetOf([]) == Items(was);
    }
    RefusalsAre(addrtype, labels, rings, was, l);
    OneSpelling(addrtype, l, was);
    ret, vp, ring := AddSpelling(rootp, addrtype, pattern, pattern, null, rings, [], was);
    assert forall n: nat :: !Covered([], n);
  }

  ghost predicate AllShort(pattern: string) {
    R.ShortEnough(pattern) && forall v: nat :: R.ShortEnough(Spell(pattern, v))
  }

  lemma ServesNext(addrtype: nat, labels: seq<Label>, rings: seq<seq<Item>>, l: Label, ring: seq<Item>)
    requires AllServe(addrtype, labels, rings) && Serves(addrtype, l, ring)
    ensures AllServe(addrtype, labels + [l], rings + [ring])
  {
    hide Serves;
  }

  /** The stored patterns after a match of n: without the one that wants it. */
  ghost function Matched(addrtype: nat, labels: seq<Label>, n: nat): seq<Label> {
    if k: nat :| k < |labels| && Wants(addrtype, labels[k], n) then WithoutLabel(labels, k) else labels
  }

  ghost function AllMatched(addrtype: nat, labels: seq<Label>, ns: seq<nat>): seq<Label> {
    if ns == [] then labels else Matched(addrtype, AllMatched(addrtype, labels, ns[..|ns| - 1]), ns[|ns| - 1])
  }

  /** vg_prefix_context_t */
  class Store {
    const addrtype: nat
    const rootp: Root
    var caseinsensitive: bool
    var difficulty: int
    var npatterns: nat

    /** What is stored, and the ring of each. */
    ghost var labels: seq<Label>
    ghost var rings: seq<seq<Item>>

    ghost predicate Indexed()
      reads this, rootp, Items(rootp.shape)
    {
      && ValidIndex(rootp) && Partition(rings, Items(rootp.shape)) && AllRings(rings, Items(rootp.shape))
      && AllServe(addrtype, labels, rings) && difficulty == Weight(rootp.shape)
    }

    ghost predicate Valid()
      reads this, rootp, Items(rootp.shape)
    {
      Indexed() && npatterns == |labels|
    }

    /** vg_prefix_context_new */
    constructor (addrtype: nat, caseinsensitive: bool)
      ensures Valid() && labels == [] && this.addrtype == addrtype && this.caseinsensitive == caseinsensitive
      ensures fresh(rootp) && Items(rootp.shape) == {}
    {
      this.addrtype, this.caseinsensitive, difficulty, npatterns := addrtype, caseinsensitive, 0, 0;
      var r := new Root();
      rootp := r;
      labels, rings := [], [];
    }

    method BeginRing()
      requires Indexed()
      ensures Indexed() && Building(rootp, rings, [], rootp.shape)
    {
      hide Partition, ValidIndex, AllServe;
      PartitionOpens(rings, Items(rootp.shape));
      assert SetOf([]) == {};
    }

    method EndRing(vp: Item?, l: Label, ghost ring: seq<Item>, ghost was: Shape)
      requires Building(rootp, rings, ring, was) && vp == Master(ring)
      requires AllServe(addrtype, labels, rings) && difficulty == Weight(was)
      requires vp != null ==> Serves(addrtype, l, ring)
      modifies this`difficulty, this`labels, this`rings
      ensures Indexed() && rootp.shape == old(rootp.shape) && labels == if vp == null then old(labels) else old(labels) + [l]
    {
      hide Partition, ValidIndex, AllServe, Weight, Ring;
      assert allocated(Items(rootp.shape));
      if vp != null {
        var bntmp := RangeSum(vp, ring);
        difficulty := difficulty + bntmp;
        ServesNext(addrtype, labels, rings, l, ring);
        labels, rings := labels + [l], rings + [ring];
      } else {
        PartitionCloses(rings, [], Items(rootp.shape));
        assert Items(rootp.shape) - SetOf([]) == Items(rootp.shape);
      }
    }

    /** One round of the loop over the patterns. */
    method AddPattern(pattern: string) returns (added: bool)
      requires Indexed() && AllShort(pattern)
      modifies this`difficulty, this`labels, this`rings, rootp, Items(rootp.shape)
      ensures Indexed() && forall x :: x in Items(rootp.shape) ==> x in old(Items(rootp.shape)) || fresh(x)
      ensures var l := Label(pattern, caseinsensitive); added <==> !TooLong(l) && Acceptable(addrtype, old(labels), l)
      ensures labels == if added then old(labels) + [Label(pattern, caseinsensitive)] else old(labels)
    {
      hide Partition, ValidIndex, AllServe, Weight, AllRings, Acceptable, Serves, R.ShortEnough, Spell;
      var ret, vp;
      ghost var ring, was := [], rootp.shape;
      BeginRing();
      if !caseinsensitive {
        ret, vp, ring := AddOne(rootp, addrtype, pattern, labels, rings, was);
      } else if |pattern| > 33 {
        vp := null;
      } else {
        ret, vp, ring := AddCases(rootp, addrtype, pattern, labels, rings, was);
      }
      EndRing(vp, Label(pattern, caseinsensitive), ring, was);
      assert forall x :: x in SetOf(ring) ==> x in ring;
      added := vp != null;
    }

    /** vg_prefix_context_add_patterns */
    method AddPatterns(patterns: seq<string>)
      requires Valid() && forall i :: 0 <= i < |patterns| ==> AllShort(patterns[i])
      modifies this`difficulty, this`labels, this`rings, this`npatterns, rootp, Items(rootp.shape)
      ensures Valid() && labels == Accept(addrtype, old(labels), caseinsensitive, patterns)
    {
      hide Partition, ValidIndex, AllServe, Weight, AllRings, Acceptable, AllShort, TooLong;
      var npfx := 0;
      assert patterns[..0] == [];
      for i := 0 to |patterns|
        invariant Indexed() && npatterns + npfx == |labels|
        invariant forall x :: x in Items(rootp.shape) ==> x in old(Items(rootp.shape)) || fresh(x)
        invariant labels == Accept(addrtype, old(labels), caseinsensitive, patterns[..i])
      {
        assert patterns[..i + 1][..i] == patterns[..i];
        var added := AddPattern(patterns[i]);
        if added {
          npfx := npfx + 1;
        }
      }
      assert patterns[..|patterns|] == patterns;
      npatterns := npatterns + npfx;
    }

    /**
     * The difficulty is the number of addresses that some stored pattern wants, less one for each range that is stored.
     */
    lemma DifficultyCounts() returns (wanted: set<nat>)
      requires Valid()
      ensures forall n: nat :: n in wanted <==> WantedByOne(addrtype, labels, n)
      ensures difficulty == |wanted| - |InOrder(rootp.shape)|
    {
      hide Wants, Partition, AllServe, ValidIndex, AllRings, WantedByOne, Covers, Sorted;
      SortedIndex(rootp);
      SortedDisjoint(InOrder(rootp.shape));
      SumCounts(InOrder(rootp.shape));
      wanted := Numbers(InOrder(rootp.shape));
      forall n: nat ensures n in wanted <==> WantedByOne(addrtype, labels, n) {
        StoredIsWanted(addrtype, labels, rings, rootp.shape, n);
        InNumbers(InOrder(rootp.shape), n);
        StoredInOrder(rootp.shape, n);
      }
    }

    /** Subtracts the ranges of a ring from the difficulty. */
    method Discount(vp: Item, ghost ring: seq<Item>)
      requires ValidIndex(rootp) && AllRings(rings, Items(rootp.shape)) && Ring(ring) && ring[0] == vp
      modifies this`difficulty
      ensures ValidIndex(rootp) && AllRings(rings, Items(rootp.shape)) && difficulty == old(difficulty) - Sum(ring)
    {
      hide ValidIndex, Sum;
      assert allocated(Items(rootp.shape));
      var bntarg := RangeSum(vp, ring);
      difficulty := difficulty - bntarg;
    }

    /** The end of vg_prefix_test: the pattern of a range that was matched goes, with all its ranges. */
    method RemoveOnMatch(vp: Item, ghost k: nat)
      requires Valid() && k < |rings| && vp in rings[k]
      modifies this`difficulty, this`labels, this`rings, this`npatterns, rootp, Items(rootp.shape)
      ensures Valid() && labels == WithoutLabel(old(labels), k)
      ensures Items(rootp.shape) == old(Items(rootp.shape) - SetOf(rings[k]))
    {
      hide ValidIndex, Partition, AllServe, Weight, Sum;
      ghost var i :| 0 <= i < |rings[k]| && rings[k][i] == vp;
      RingRotated(rings[k], i);
      SumRotated(rings[k], i);
      RotatedSet(rings[k], i);
      AsManyLabels(addrtype, labels, rings);
      Discount(vp, Rotated(rings[k], i));
      DeleteRing(rootp, vp, rings, k, i);
      npatterns := npatterns - 1;
      ServesWithout(addrtype, labels, rings, k);
      labels, rings := WithoutLabel(labels, k), WithoutRing(rings, k);
    }

    /** vg_prefix_context_clear_all_patterns */
    method ClearAllPatterns()
      requires Valid()
      modifies this`difficulty, this`labels, this`rings, this`npatterns, rootp, Items(rootp.shape)
      ensures Valid() && labels == [] && Items(rootp.shape) == {}
    {
      hide ValidIndex, Partition, AllServe, Weight, Sum;
      var npfx_left := 0;
      RootIsRoot(rootp);
      AsManyLabels(addrtype, labels, rings);
      while rootp.root != null
        invariant ValidIndex(rootp) && Partition(rings, Items(rootp.shape)) && AllRings(rings, Items(rootp.shape))
        invariant AllServe(addrtype, labels, rings) && npfx_left + |rings| == npatterns
        invariant Items(rootp.shape) <= old(Items(rootp.shape))
        invariant rootp.root == RootOf(rootp.shape)
        decreases |rings|
      {
        var vp := rootp.root;
        ghost var k, i := InSomeRing(rings, rootp.shape, vp);
        AsManyLabels(addrtype, labels, rings);
        DeleteRing(rootp, vp, rings, k, i);
        ServesWithout(addrtype, labels, rings, k);
        labels, rings := WithoutLabel(labels, k), WithoutRing(rings, k);
        npfx_left := npfx_left + 1;
        RootIsRoot(rootp);
      }
      NoneLeft(rootp.shape);
      RingsHaveItems(rings, Items(rootp.shape));
      AsManyLabels(addrtype, labels, rings);
      assert npfx_left == npatterns;
      npatterns := 0;
      difficulty := 0;
    }

    /** The range that holds n, if any: only addresses that some stored pattern wants are found, and all of them. */
    method Find(n: nat) returns (vp: Item?, ghost k: nat)
      requires Valid()
      ensures Valid()
      ensures vp == null <==> !WantedByOne(addrtype, labels, n)
      ensures vp != null ==> k < |labels| && vp in rings[k] && Wants(addrtype, labels[k], n) && vp.pattern == labels[k].pattern
      ensures vp != null ==> forall j :: 0 <= j < |labels| && Wants(addrtype, labels[j], n) ==> j == k
    {
      hide ValidIndex, Wants, Sorted, Covers;
      k := 0;
      assert Sorted(InOrder(rootp.shape)) by {
        SortedIndex(rootp);
      }
      vp := SearchIndex(rootp, n);
      StoredIsWanted(addrtype, labels, rings, rootp.shape, n);
      if vp != null {
        k :| 0 <= k < |rings| && vp in rings[k];
        FoundOnce(addrtype, labels, rings, rootp.shape, n, vp, k);
      }
    }

    /** A search, and the removal of what it finds. */
    method Match(n: nat) returns (vp: Item?)
      requires Valid()
      modifies this`difficulty, this`labels, this`rings, this`npatterns, rootp, Items(rootp.shape)
      ensures Valid() && Items(rootp.shape) <= old(Items(rootp.shape))
      ensures vp == null <==> !WantedByOne(addrtype, old(labels), n)
      ensures labels == Matched(addrtype, old(labels), n)
    {
      hide Wants, Partition, AllServe, ValidIndex, AllRings;
      ghost var k;
      vp, k := Find(n);
      if vp != null {
        AsManyLabels(addrtype, labels, rings);
        RemoveOnMatch(vp, k);
      }
    }

    /**
     * vg_prefix_test: a match is only good once the lock is held, and while this thread waits for it, others may match
     * the numbers in others and remove patterns; so it searches again. The result is 0 for nothing found, 1 for a match,
     * 2 to stop.
     */
    method Test(n: nat, held: bool, others: seq<nat>, onlyOne: bool, removeOnMatch: bool) returns (res: nat)
      requires Valid()
      modifies this`difficulty, this`labels, this`rings, this`npatterns, rootp, Items(rootp.shape)
      ensures Valid()
      ensures var wanted := WantedByOne(addrtype, old(labels), n);
        var now :=
          if wanted && !held && removeOnMatch && !onlyOne then AllMatched(addrtype, old(labels), others) else old(labels);
        var found := wanted && WantedByOne(addrtype, now, n);
        && labels == (if found && removeOnMatch && !onlyOne then Matched(addrtype, now, n) else now)
        && res == if found && onlyOne then 2 else if labels == [] then 2 else if found then 1 else 0
    {
      hide Wants, Partition, AllServe, ValidIndex, AllRings, WantedByOne, Matched;
      ghost var k;
      res := 0;
      var vp;
      vp, k := Find(n);
      if vp != null && !held {
        if removeOnMatch && !onlyOne {
          OthersMatch(others);
        }
        vp, k := Find(n);
      }
      if vp != null {
        if onlyOne {
          return 2;
        }
        if removeOnMatch {
          vp := Match(n);
        }
        res := 1;
      }
      var empty := IsEmpty();
      if empty {
        res := 2;
      }
    }

    method OthersMatch(others: seq<nat>)
      requires Valid()
      modifies this`difficulty, this`labels, this`rings, this`npatterns, rootp, Items(rootp.shape)
      ensures Valid() && Items(rootp.shape) <= old(Items(rootp.shape))
      ensures labels == AllMatched(addrtype, old(labels), others)
    {
      hide Partition, AllServe, ValidIndex, AllRings, WantedByOne, Matched;
      for i := 0 to |others|
        invariant Valid() && Items(rootp.shape) <= old(Items(rootp.shape))
        invariant labels == AllMatched(addrtype, old(labels), others[..i])
      {
        assert others[..i + 1][..i] == others[..i];
        var vp := Match(others[i]);
      }
      assert others[..|others|] == others;
    }

    method IsEmpty() returns (empty: bool)
      requires Valid()
      ensures Valid() && (empty <==> labels == [])
    {
      hide Partition, AllServe, ValidIndex, AllRings;
      RootIsRoot(rootp);
      AsManyLabels(addrtype, labels, rings);
      empty := rootp.root == null;
      NoneStored(addrtype, labels, rings, rootp.shape);
    }
  }

  method SearchIndex(rootp: Root, n: nat) returns (vp: Item?)
    requires ValidIndex(rootp)
    ensures ValidIndex(rootp)
    ensures vp != null ==> vp in Items(rootp.shape) && Covers(vp, n)
    ensures vp == null <==> !Stored(rootp.shape, n)
  {
    vp := Search(rootp, n);
    InOrderItems(rootp.shape);
    if vp == null {
      forall y | y in Items(rootp.shape) ensures !Covers(y, n) {
        InOrderItem(rootp.shape, y);
      }
    }
  }

  lemma StoredInOrder(t: Shape, n: nat)
    ensures Stored(t, n) <==> Covered(InOrder(t), n)
  {
    hide Covers;
    InOrderItems(t);
  }

  lemma SortedDisjoint(s: seq<Item>)
    requires Sorted(s)
    ensures Disjoint(s)
  {
  }

  lemma RootIsRoot(rootp: Root)
    requires ValidIndex(rootp)
    ensures rootp.root == RootOf(rootp.shape)
  {
  }

  lemma InSomeRing(rings: seq<seq<Item>>, t: Shape, vp: Item) returns (k: nat, i: nat)
    requires Partition(rings, Items(t)) && RootOf(t) == vp
    ensures k < |rings| && i < |rings[k]| && rings[k][i] == vp
  {
    assert vp in Items(t);
    k :| 0 <= k < |rings| && vp in rings[k];
    i :| 0 <= i < |rings[k]| && rings[k][i] == vp;
  }

  lemma RingsHaveItems(rings: seq<seq<Item>>, items: set<Item>)
    requires Partition(rings, items) && (forall k :: 0 <= k < |rings| ==> rings[k] != [])
    ensures rings != [] ==> items != {}
  {
    if rings != [] {
      assert rings[0][0] in SetOf(rings[0]);
    }
  }

  lemma NoneStored(addrtype: nat, labels: seq<Label>, rings: seq<seq<Item>>, t: Shape)
    requires Partition(rings, Items(t)) && AllServe(addrtype, labels, rings) && AllRings(rings, Items(t))
    ensures RootOf(t) == null <==> labels == []
  {
    AsManyLabels(addrtype, labels, rings);
    if labels != [] {
      assert Ring(rings[0]) && rings[0][0] in SetOf(rings[0]);
    }
    if t.Node? {
      assert t.item in Items(t);
    }
  }

  lemma NoneLeft(t: Shape)
    requires RootOf(t) == null
    ensures Items(t) == {} && Weight(t) == 0
  {
  }

  lemma AsManyLabels(addrtype: nat, labels: seq<Label>, rings: seq<seq<Item>>)
    requires AllServe(addrtype, labels, rings)
    ensures |labels| == |rings|
  {
  }

  lemma SortedIndex(rootp: Root)
    requires ValidIndex(rootp)
    ensures Sorted(InOrder(rootp.shape))
  {
  }

  lemma CoversOnce(t: Shape, x: Item, y: Item, n: nat)
    requires Sorted(InOrder(t)) && x in Items(t) && y in Items(t) && Covers(x, n) && Covers(y, n)
    ensures x == y
  {
    InOrderItem(t, x);
    InOrderItem(t, y);
    var i :| 0 <= i < |InOrder(t)| && InOrder(t)[i] == x;
    var j :| 0 <= j < |InOrder(t)| && InOrder(t)[j] == y;
  }

  lemma FoundOnce(addrtype: nat, labels: seq<Label>, rings: seq<seq<Item>>, t: Shape, n: nat, vp: Item, k: nat)
    requires Partition(rings, Items(t)) && AllServe(addrtype, labels, rings) && Sorted(InOrder(t))
    requires k < |rings| && vp in rings[k] && vp in Items(t) && Covers(vp, n)
    ensures Wants(addrtype, labels[k], n) && vp.pattern == labels[k].pattern
    ensures forall j :: 0 <= j < |labels| && Wants(addrtype, labels[j], n) ==> j == k
  {
    hide Wants, Covers, Sorted;
    assert Serves(addrtype, labels[k], rings[k]);
    assert Covered(rings[k], n);
    forall j | 0 <= j < |labels| && Wants(addrtype, labels[j], n) ensures j == k {
      assert Serves(addrtype, labels[j], rings[j]);
      assert Covered(rings[j], n);
      var y :| y in rings[j] && Covers(y, n);
      assert y in SetOf(rings[j]) && vp in SetOf(rings[k]);
      CoversOnce(t, vp, y, n);
    }
  }
}
