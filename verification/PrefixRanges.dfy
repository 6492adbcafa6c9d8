/**
 * get_prefix_ranges of pattern.c: the numbers whose Base58 text starts with a prefix, as at most two intervals.
 *
 * A number stands for the 25 bytes version, hash and check value of an address.
 */
module PrefixRanges {
  import opened Options
  import opened Radix
  import opened Base58
  import opened Base58Check

  datatype Interval = Interval(low: int, high: int)

  /** One interval, or two. */
  datatype Ranges = Ranges(lower: Interval, upper: Option<Interval>)

  /** The return values 0, -1 and -2. */
  datatype Result = Found(ranges: Ranges) | Invalid | NotPossible

  predicate In(i: Interval, n: int) { i.low <= n <= i.high }

  predicate Member(r: Ranges, n: int) {
    In(r.lower, n) || (r.upper.Some? && In(r.upper.value, n))
  }

  /** low <= high < low2 <= high2. */
  predicate Ordered(r: Ranges) {
    r.lower.low <= r.lower.high
    && (r.upper.Some? ==> r.lower.high < r.upper.value.low <= r.upper.value.high)
  }

  // ---- Clipping

  /** Drops what lies below b. */
  method ClipBelow(r: Ranges, b: int) returns (c: Option<Ranges>)
    requires Ordered(r) || (r.upper.None? && r.lower.high < b)
    ensures c.Some? ==> Ordered(c.value) && forall n :: Member(c.value, n) <==> Member(r, n) && b <= n
    ensures c.None? ==> forall n :: Member(r, n) ==> n < b
  {
    var low, high, upper := r.lower.low, r.lower.high, r.upper;
    if upper.Some? {
      if b > upper.value.high {
        upper := None;
      } else if b > upper.value.low {
        upper := Some(Interval(b, upper.value.high));
      }
    }
    if b > high {
      if upper.None? {
        return None;
      }
      low, high, upper := upper.value.low, upper.value.high, None;
    } else if b > low {
      low := b;
    }
    return Some(Ranges(Interval(low, high), upper));
  }

  /** Drops what lies above b. */
  method ClipAbove(r: Ranges, b: int) returns (c: Option<Ranges>)
    requires Ordered(r)
    ensures c.Some? ==> Ordered(c.value) && forall n :: Member(c.value, n) <==> Member(r, n) && n <= b
    ensures c.None? ==> forall n :: Member(r, n) ==> n > b
  {
    var low, high, upper := r.lower.low, r.lower.high, r.upper;
    if upper.Some? {
      if b < upper.value.low {
        upper := None;
      } else if b < upper.value.high {
        upper := Some(Interval(upper.value.low, b));
      }
    }
    if b < low {
      // pattern.c would go on with the upper interval here, but that one lies above b as well
      assert upper.None?;
      return None;
    } else if b < high {
      high := b;
    }
    return Some(Ranges(Interval(low, high), upper));
  }

  // ---- The text of a number

  /** 25 bytes suffice for n. */
  ghost predicate IsAddress(n: int) {
    n >= 0 && |Digits(n, Bytes)| <= 25
  }

  /** The digits of the text of the 25 bytes that n stands for. */
  ghost function TextOf(n: nat): seq<nat> {
    var k := |Digits(n, Bytes)|;
    Zeros(if k <= 25 then 25 - k else 0) + Digits(n, Base58)
  }

  /** TextOf is the text that the encoder writes for these bytes. */
  lemma TextOfBytes(bytes: seq<nat>)
    requires Proper(bytes, Bytes) && |bytes| == 25
    ensures Numerals(bytes) == TextOf(Value(bytes, Bytes))
  {
    ZerosThenDigits(bytes, Bytes);
  }

  lemma ZerosPrefix(z: nat, d: seq<nat>, y: nat, r: seq<nat>)
    requires (d != [] ==> d[0] != 0) && (r != [] ==> r[0] != 0)
    ensures Zeros(y) + r <= Zeros(z) + d <==> if r == [] then y <= z else y == z && r <= d
  {
    var s, t := Zeros(y) + r, Zeros(z) + d;
    if y < z {
      assert t[..y] == Zeros(y) && t[y] == 0;
      assert r != [] ==> s[y] == r[0];
    } else if y > z {
      assert s[z] == 0;
      assert d != [] ==> t[z] == d[0];
    } else {
      assert s[y..] == r && t[y..] == d;
      assert |r| <= |d| ==> t[..|s|] == Zeros(y) + d[..|r|];
    }
  }

  /** When a text starts with the digits ds. */
  lemma PrefixMeaning(n: nat, ds: seq<nat>)
    requires Proper(ds, Base58) && IsAddress(n)
    ensures var z, t := LeadingZeros(ds), Value(ds, Base58); var k := |Digits(n, Bytes)|;
      ds <= TextOf(n) <==> if z == |ds| then z <= 25 - k else z == 25 - k && Digits(t, Base58) <= Digits(n, Base58)
  {
    hide Digits, Value, LeadingZeros;
    var z, t := LeadingZeros(ds), Value(ds, Base58);
    ZerosThenDigits(ds, Base58);
    ValueOfDigits(n, Base58);
    ValueOfDigits(t, Base58);
    ZerosPrefix(25 - |Digits(n, Bytes)|, Digits(n, Base58), z, Digits(t, Base58));
    assert |Digits(t, Base58)| == |ds| - z;
  }

  lemma AtMostBytes(n: nat, k: nat)
    ensures |Digits(n, Bytes)| <= k <==> n < Pow(Bytes, k)
  {
    if n < Pow(Bytes, k) {
      DigitsAtMost(n, Bytes, k);
    } else {
      DigitsMoreThan(n, Bytes, k);
    }
  }

  // ---- Powers of two

  function Pow2(k: nat): (p: nat)
    ensures p > 0
  {
    if k == 0 then 1 else 2 * Pow2(k - 1)
  }

  /** BN_lshift */
  function Shift(n: nat, bits: nat): nat {
    n * Pow2(bits)
  }

  /** BN_set_bit on a cleared number; a negative position is refused and leaves zero. */
  function SetBit(k: int): nat {
    if k < 0 then 0 else Pow2(k)
  }

  lemma {:induction false} Pow2OfBytes(k: nat)
    ensures Pow2(8 * k) == Pow(Bytes, k)
  {
    if k > 0 {
      Pow2OfBytes(k - 1);
      var i := 8 * (k - 1);
      assert Pow2(i + 2) == 4 * Pow2(i);
      assert Pow2(i + 4) == 4 * Pow2(i + 2);
      assert Pow2(i + 6) == 4 * Pow2(i + 4);
      assert Pow2(i + 8) == 4 * Pow2(i + 6);
    }
  }

  lemma BitOfBytes(k: nat, bit: int)
    requires bit == 8 * k
    ensures SetBit(bit) == Pow(Bytes, k)
  {
    Pow2OfBytes(k);
  }

  /** The least number whose text has z leading ones, and the greatest with at least z; zero and minus one beyond 25. */
  function Floor(z: nat): int {
    if z <= 24 then Pow(Bytes, 24 - z) else 0
  }

  function Ceiling(z: nat): int {
    if z <= 25 then Pow(Bytes, 25 - z) - 1 else -1
  }

  /** bnfloor and bnceil, as powers of two. */
  method SetFloorAndCeiling(zero_prefix: nat) returns (bnfloor: int, bnceil: int)
    ensures bnfloor == Floor(zero_prefix) && bnceil == Ceiling(zero_prefix)
  {
    hide Pow, Pow2;
    bnceil := SetBit(200 - zero_prefix * 8);
    bnceil := bnceil - 1;
    bnfloor := SetBit(192 - zero_prefix * 8);
    if zero_prefix <= 25 {
      BitOfBytes(25 - zero_prefix, 200 - zero_prefix * 8);
    }
    if zero_prefix <= 24 {
      BitOfBytes(24 - zero_prefix, 192 - zero_prefix * 8);
    }
  }

  lemma FloorAndCeiling(z: nat)
    requires z <= 24
    ensures Floor(z) == Pow(Bytes, 24 - z) && Ceiling(z) == Pow(Bytes, 25 - z) - 1 == 256 * Floor(z) - 1
  {
    var k := 24 - z;
    assert Pow(Bytes, k + 1) == 256 * Pow(Bytes, k);
  }

  lemma FloorEven(z: nat)
    requires z <= 24
    ensures Floor(z) == 1 || Floor(z) % 2 == 0
  {
    var k := 24 - z;
    if k > 0 {
      assert Pow(Bytes, k) == 2 * (128 * Pow(Bytes, k - 1));
    }
  }

  // ---- The magnitude of the ceiling

  /** How often the ceiling can be divided by 58 while it is greater, and what is left then. */
  function Power(n: int): nat {
    if n <= 58 then 0 else 1 + Power(n / 58)
  }

  function Lead(n: int): int {
    if n <= 58 then n else Lead(n / 58)
  }

  lemma {:induction false} Magnitude(n: int)
    requires n > 0
    ensures 1 <= Lead(n) <= 58
    ensures Lead(n) * Pow(Base58, Power(n)) <= n < (Lead(n) + 1) * Pow(Base58, Power(n))
  {
    if n > 58 {
      Magnitude(n / 58);
      TimesAssoc(Lead(n), Pow(Base58, Power(n / 58)), Base58);
      TimesAssoc(Lead(n) + 1, Pow(Base58, Power(n / 58)), Base58);
    }
  }

  method FindMagnitude(bnceil: int) returns (b58pow: nat, b58ceil: int)
    ensures b58pow == Power(bnceil) && b58ceil == Lead(bnceil)
  {
    var bnap := bnceil;
    b58pow := 0;
    while bnap > 58
      invariant Power(bnceil) == b58pow + Power(bnap) && Lead(bnceil) == Lead(bnap)
    {
      b58pow := b58pow + 1;
      bnap := bnap / 58;
    }
    b58ceil := bnap;
  }

  // ---- The intervals of a prefix with a digit other than '1'

  /** The numbers with b58pow or b58pow + 1 digits that start with the m digits of t. */
  ghost predicate Starts(n: nat, t: nat, b58pow: nat, m: nat)
    requires m <= b58pow
  {
    Cut(n, Base58, b58pow - m) == t || Cut(n, Base58, b58pow - m + 1) == t
  }

  /** Numbers with k digits below the leading digit of t, which has m digits. */
  lemma TopDigit(t: nat, m: nat, top: nat, k: nat)
    requires m > 0 && top * Pow(Base58, m - 1) <= t < (top + 1) * Pow(Base58, m - 1)
    ensures top * Pow(Base58, k + m - 1) <= t * Pow(Base58, k)
    ensures (t + 1) * Pow(Base58, k) <= (top + 1) * Pow(Base58, k + m - 1)
    decreases k
  {
    if k > 0 {
      TopDigit(t, m, top, k - 1);
      TimesAssoc(t, Pow(Base58, k - 1), Base58);
      TimesAssoc(t + 1, Pow(Base58, k - 1), Base58);
      TimesAssoc(top, Pow(Base58, k + m - 2), Base58);
      TimesAssoc(top + 1, Pow(Base58, k + m - 2), Base58);
    }
  }

  /** The sums and products of the code, as the bounds of the numbers that start with t. */
  lemma Bounds(n: int, t: nat, k: nat)
    requires n >= 0
    ensures var p := Pow(Base58, k); var low, high := p * t, p * t + (p - 1);
      && (In(Interval(low, high), n) <==> Cut(n, Base58, k) == t)
      && (In(Interval(low * 58, high * 58 + 57), n) <==> Cut(n, Base58, k + 1) == t)
  {
    var p := Pow(Base58, k);
    CutInterval(n, Base58, k, t);
    CutInterval(n, Base58, k + 1, t);
    TimesAssoc(t, p, Base58);
    TimesAssoc(t + 1, p, Base58);
    assert (t + 1) * p == t * p + p;
    assert p * t == t * p;
  }

  /** How the two intervals lie to the floor, the ceiling and the powers of 58. */
  lemma Layout(t: nat, m: nat, top: nat, k: nat, floor: int, ceil: int)
    requires m > 0 && top > 0 && top < 58 && top * Pow(Base58, m - 1) <= t < (top + 1) * Pow(Base58, m - 1)
    requires floor > 0 && ceil == 256 * floor - 1 && Power(ceil) == k + m
    ensures var p := Pow(Base58, k); var low, high := p * t, p * t + (p - 1);
      && t > 0 && low <= high < low * 58 && high <= ceil && floor < low * 58
      && (top > Lead(ceil) ==> ceil < low * 58 && floor < low)
      && (low * 58 > ceil ==> floor < high)
  {
    var p, q, lead := Pow(Base58, k), Pow(Base58, k + m - 1), Lead(ceil);
    Magnitude(ceil);
    TopDigit(t, m, top, k);
    assert Pow(Base58, k + m) == 58 * q;
    assert t > 0 by {
      MulOrder(1, top, Pow(Base58, m - 1));
    }
    Products(t, p, top, q, lead);
    LayoutArithmetic(p * t, p, q, top * q, (top + 1) * q, lead * (58 * q), (lead + 1) * (58 * q), floor, ceil, top > lead);
  }

  lemma Products(t: nat, p: nat, top: nat, q: nat, lead: int)
    requires t > 0 && 0 < top < 58 && 1 <= lead <= 58
    ensures (t + 1) * p == p * t + p && p <= p * t == t * p
    ensures q <= top * q && (top + 1) * q <= 58 * q && 58 * q <= lead * (58 * q)
      && (lead + 1) * (58 * q) <= 59 * (58 * q)
    ensures top > lead ==> (lead + 1) * (58 * q) <= 58 * (top * q)
  {
    MulOrder(1, t, p);
    MulOrder(1, top, q);
    MulOrder(top + 1, 58, q);
    MulOrder(1, lead, 58 * q);
    MulOrder(lead + 1, 59, 58 * q);
    if top > lead {
      MulOrder(lead + 1, top, 58 * q);
      assert top * (58 * q) == 58 * (top * q);
    }
  }

  lemma LayoutArithmetic(low: int, p: int, q: int, tq: int, tq1: int, lq: int, lq1: int, floor: int, ceil: int,
      above: bool)
    requires 0 < p <= low && q > 0 && q <= tq && tq1 <= 58 * q && 58 * q <= lq && lq1 <= 59 * (58 * q)
    requires tq <= low && low + p <= tq1 && lq <= ceil < lq1 && floor > 0 && ceil == 256 * floor - 1
    requires above ==> lq1 <= 58 * tq
    ensures low <= low + (p - 1) < low * 58 && low + (p - 1) <= ceil && floor < low * 58
    ensures above ==> ceil < low * 58 && floor < low
    ensures low * 58 > ceil ==> floor < low + (p - 1)
  {
  }

  lemma MulOrder(x: int, y: int, b: nat)
    requires x <= y
    ensures x * b <= y * b && b * x <= b * y
  {
  }

  /** A ceiling of the floor and a power of 58 are never one apart. */
  lemma FloorIsNotHigh(t: nat, k: nat, floor: int)
    requires floor == 1 || floor % 2 == 0
    requires k > 0 && t > 0
    ensures floor != Pow(Base58, k) * t + (Pow(Base58, k) - 1)
  {
    var r := Pow(Base58, k - 1);
    assert Pow(Base58, k) == 58 * r;
    assert 58 * r * t + 58 * r - 1 == 2 * (29 * r * t + 29 * r) - 1;
  }

  /**
   * What the block for a prefix with a digit other than '1' keeps: everything that starts with t between floor and
   * ceiling.
   */
  ghost predicate InBlock(n: int, t: nat, b58pow: nat, m: nat, floor: int, ceil: int)
    requires m <= b58pow
  {
    n >= 0 && floor <= n <= ceil && Starts(n, t, b58pow, m) && !(m == b58pow && n == floor)
  }

  /** Clips the interval of the numbers with b58pow digits, and 58 times it if upper, between floor and ceiling. */
  method ClipZeros(low: int, high: int, checkUpper: bool, bnfloor: int, bnceil: int) returns (r: Ranges)
    requires low <= high < low * 58 && high <= bnceil && bnfloor < low * 58
    requires !checkUpper ==> bnceil < low * 58 && bnfloor < low
    requires low * 58 > bnceil ==> bnfloor < high
    ensures Ordered(r) && forall n :: Member(r, n) <==>
      && bnfloor <= n <= bnceil && !(n == bnfloor == high)
      && (In(Interval(low, high), n) || In(Interval(low * 58, high * 58 + 57), n))
  {
    var bnlow, bnhigh := low, high;
    var upper: Option<Interval> := None;
    if checkUpper {
      upper := Some(Interval(bnlow * 58, bnhigh * 58 + 57));
      if bnceil < upper.value.low {
        upper := None;
      } else if bnceil < upper.value.high {
        upper := Some(Interval(upper.value.low, bnceil));
      }
      if bnfloor >= bnhigh {
        assert upper.Some?;
        bnhigh, bnlow, upper := upper.value.high, upper.value.low, None;
      } else if bnfloor > bnlow {
        bnlow := bnfloor;
      }
    }
    r := Ranges(Interval(bnlow, bnhigh), upper);
  }

  lemma BlockMeaning(n: int, t: nat, m: nat, b58pow: nat, floor: int, ceil: int)
    requires 0 < m <= b58pow && t > 0 && floor > 0 && (floor == 1 || floor % 2 == 0)
    ensures var p := Pow(Base58, b58pow - m); var low, high := p * t, p * t + (p - 1);
      (floor < low * 58 ==>
      (InBlock(n, t, b58pow, m, floor, ceil) <==>
      && floor <= n <= ceil && !(n == floor == high)
      && (In(Interval(low, high), n) || In(Interval(low * 58, high * 58 + 57), n))))
  {
    var k := b58pow - m;
    if n >= 0 {
      Bounds(n, t, k);
    }
    if k > 0 {
      FloorIsNotHigh(t, k, floor);
    }
  }

  lemma BlockMeanings(r: Ranges, t: nat, m: nat, b58pow: nat, low: int, high: int, floor: int, ceil: int)
    requires 0 < m <= b58pow && t > 0 && floor > 0 && (floor == 1 || floor % 2 == 0)
    requires low == Pow(Base58, b58pow - m) * t && high == low + (Pow(Base58, b58pow - m) - 1) && floor < low * 58
    requires forall n :: Member(r, n) <==>
      && floor <= n <= ceil && !(n == floor == high)
      && (In(Interval(low, high), n) || In(Interval(low * 58, high * 58 + 57), n))
    ensures forall n :: Member(r, n) <==> InBlock(n, t, b58pow, m, floor, ceil)
  {
    forall n ensures Member(r, n) <==> InBlock(n, t, b58pow, m, floor, ceil) {
      BlockMeaning(n, t, m, b58pow, floor, ceil);
    }
  }

  /**
   * The block of get_prefix_ranges for a prefix with a digit other than '1'; t is its number, m its digits, top the
   * first.
   */
  method Block(t: nat, m: nat, top: nat, bnfloor: int, bnceil: int) returns (r: Ranges)
    requires 0 < m <= Power(bnceil) && 0 < top < 58
    requires top * Pow(Base58, m - 1) <= t < (top + 1) * Pow(Base58, m - 1)
    requires bnfloor > 0 && bnceil == 256 * bnfloor - 1 && (bnfloor == 1 || bnfloor % 2 == 0)
    ensures Ordered(r) && forall n :: Member(r, n) <==> InBlock(n, t, Power(bnceil), m, bnfloor, bnceil)
  {
    var b58pow, b58ceil := FindMagnitude(bnceil);
    var bntmp := Pow(Base58, b58pow - m);
    var bnlow := bntmp * t;
    var bnhigh := bnlow + (bntmp - 1);
    Layout(t, m, top, b58pow - m, bnfloor, bnceil);
    r := ClipZeros(bnlow, bnhigh, top <= b58ceil, bnfloor, bnceil);
    BlockMeanings(r, t, m, b58pow, bnlow, bnhigh, bnfloor, bnceil);
  }

  // ---- The ranges of a prefix

  /** The text of n starts with pfx, and what is above the 24 bytes of hash and check value is the version. */
  ghost predicate Matches(addrtype: nat, pfx: string, n: int)
    requires AllDigits(pfx)
  {
    IsAddress(n) && DigitsOf(pfx) <= TextOf(n) && Cut(n, Bytes, 24) == addrtype
  }

  function Ones(pfx: string): nat
    requires AllDigits(pfx)
  {
    LeadingZeros(DigitsOf(pfx))
  }

  /**
   * The numbers that get_prefix_ranges looks at: with a digit other than '1' these have b58pow or b58pow + 1 digits.
   */
  ghost predicate Considered(pfx: string, n: nat)
    requires AllDigits(pfx)
  {
    var z := Ones(pfx);
    var b58pow := Power(Ceiling(z));
    z < |pfx| ==> |Digits(n, Base58)| in {b58pow, b58pow + 1} && !(|pfx| - z == b58pow && n == Floor(z))
  }

  ghost predicate Wanted(addrtype: nat, pfx: string, n: int)
    requires AllDigits(pfx)
  {
    Matches(addrtype, pfx, n) && Considered(pfx, n)
  }

  /** The part after the leading ones has at most b58pow digits. */
  predicate ShortEnough(pfx: string) {
    AllDigits(pfx) ==> Ones(pfx) == |pfx| || |pfx| - Ones(pfx) <= Power(Ceiling(Ones(pfx)))
  }

  /** The variables of the parser after the first i characters. */
  ghost predicate Parsed(pfx: string, i: nat, zero_prefix: nat, bntarg: nat, b58top: nat)
    requires i <= |pfx|
  {
    && AllDigits(pfx[..i]) && bntarg == Value(DigitsOf(pfx[..i]), Base58)
    && zero_prefix <= i && (forall j :: 0 <= j < zero_prefix ==> ReverseMap(pfx[j]) == 0)
    && if zero_prefix < i then b58top == ReverseMap(pfx[zero_prefix]) > 0 else b58top == bntarg == 0
  }

  lemma ParseNext(pfx: string, i: nat)
    requires i < |pfx| && AllDigits(pfx[..i]) && ReverseMap(pfx[i]) >= 0
    ensures AllDigits(pfx[..i + 1])
    ensures Value(DigitsOf(pfx[..i + 1]), Base58) == Value(DigitsOf(pfx[..i]), Base58) * 58 + ReverseMap(pfx[i])
  {
    ValueNext(pfx[..i], pfx[i]);
    assert pfx[..i + 1] == pfx[..i] + [pfx[i]];
  }

  lemma ParsedAll(pfx: string, zero_prefix: nat, bntarg: nat, b58top: nat)
    requires Parsed(pfx, |pfx|, zero_prefix, bntarg, b58top)
    ensures AllDigits(pfx) && zero_prefix == Ones(pfx) && bntarg == Value(DigitsOf(pfx), Base58)
    ensures b58top == if zero_prefix < |pfx| then DigitsOf(pfx)[zero_prefix] else 0
  {
    assert pfx[..|pfx|] == pfx;
    LeadingZerosAre(DigitsOf(pfx), zero_prefix);
  }

  /** The loop over the characters: how many ones lead, the number, and its first digit; none for a bad character. */
  method Parse(pfx: string) returns (valid: bool, zero_prefix: nat, bntarg: nat, b58top: nat)
    ensures valid <==> AllDigits(pfx)
    ensures valid ==> zero_prefix == Ones(pfx) && bntarg == Value(DigitsOf(pfx), Base58)
    ensures valid ==> b58top == if zero_prefix < |pfx| then DigitsOf(pfx)[zero_prefix] else 0
  {
    valid, zero_prefix, bntarg, b58top := true, 0, 0, 0;
    for i := 0 to |pfx|
      invariant Parsed(pfx, i, zero_prefix, bntarg, b58top)
    {
      var c := ReverseMap(pfx[i]);
      if c == -1 {
        return false, 0, 0, 0;
      }
      MapLetter(pfx[i]);
      ParseNext(pfx, i);
      if i == zero_prefix {
        if c == 0 {
          zero_prefix := zero_prefix + 1;
        } else {
          b58top := c;
          bntarg := c;
        }
      } else {
        bntarg := bntarg * 58 + c;
      }
    }
    ParsedAll(pfx, zero_prefix, bntarg, b58top);
  }

  lemma StartsMeaning(n: nat, t: nat, b58pow: nat)
    requires t > 0 && |Digits(t, Base58)| <= b58pow
    ensures Starts(n, t, b58pow, |Digits(t, Base58)|) <==>
      Digits(t, Base58) <= Digits(n, Base58) && |Digits(n, Base58)| in {b58pow, b58pow + 1}
  {
    hide Digits, Cut;
    var m := |Digits(t, Base58)|;
    StartsWith(n, t, Base58);
    if Cut(n, Base58, b58pow - m) == t {
      DigitsOfCut(n, Base58, b58pow - m);
    }
    if Cut(n, Base58, b58pow - m + 1) == t {
      DigitsOfCut(n, Base58, b58pow - m + 1);
    }
  }

  /** The digits of a prefix after the leading ones. */
  lemma PrefixDigits(pfx: string)
    requires AllDigits(pfx) && Ones(pfx) < |pfx|
    ensures var t, z, m := Value(DigitsOf(pfx), Base58), Ones(pfx), |pfx| - Ones(pfx); var top := DigitsOf(pfx)[z];
      && t > 0 && |Digits(t, Base58)| == m && 0 < top < 58
      && top * Pow(Base58, m - 1) <= t < (top + 1) * Pow(Base58, m - 1)
  {
    hide Value, Digits, Pow, LeadingZeros;
    var ds := DigitsOf(pfx);
    var z := Ones(pfx);
    ZerosThenDigits(ds, Base58);
    assert ds == Zeros(z) + ds[z..];
    ValueOfZeros(z, ds[z..], Base58);
    LeadingDigit(ds[z..], Base58);
    DigitsOfValue(ds[z..], Base58);
  }

  lemma CeilingPower(z: nat)
    requires Power(Ceiling(z)) > 0
    ensures z <= 24
  {
  }

  /** Exactly z leading ones, as bounds. */
  lemma BytesBounds(n: nat, z: nat)
    requires z <= 24
    ensures |Digits(n, Bytes)| == 25 - z <==> Floor(z) <= n <= Ceiling(z)
  {
    hide Digits, Pow;
    var k := 24 - z;
    AtMostBytes(n, k);
    AtMostBytes(n, k + 1);
  }

  lemma TextBounds(pfx: string, n: nat)
    requires AllDigits(pfx) && Ones(pfx) < |pfx| && Ones(pfx) <= 24
    ensures var t, z := Value(DigitsOf(pfx), Base58), Ones(pfx);
      IsAddress(n) && DigitsOf(pfx) <= TextOf(n) <==> Floor(z) <= n <= Ceiling(z) && Digits(t, Base58) <= Digits(n, Base58)
  {
    if IsAddress(n) {
      PrefixMeaning(n, DigitsOf(pfx));
    }
    BytesBounds(n, Ones(pfx));
  }

  /** Digit count, as the bounds that the block works with. */
  lemma CountBounds(n: int, t: nat, b58pow: nat, floor: int, ceil: int)
    requires t > 0 && |Digits(t, Base58)| <= b58pow && floor > 0
    ensures var m := |Digits(t, Base58)|; InBlock(n, t, b58pow, m, floor, ceil) <==>
      && floor <= n <= ceil && Digits(t, Base58) <= Digits(n, Base58)
      && |Digits(n, Base58)| in {b58pow, b58pow + 1} && !(m == b58pow && n == floor)
  {
    if n >= 0 {
      StartsMeaning(n, t, b58pow);
    }
  }

  lemma BlockWanted(pfx: string, n: int)
    requires AllDigits(pfx) && Ones(pfx) < |pfx| && |pfx| - Ones(pfx) <= Power(Ceiling(Ones(pfx)))
    ensures var t, z := Value(DigitsOf(pfx), Base58), Ones(pfx);
      InBlock(n, t, Power(Ceiling(z)), |pfx| - z, Floor(z), Ceiling(z))
      <==> IsAddress(n) && DigitsOf(pfx) <= TextOf(n) && Considered(pfx, n)
  {
    var t, z := Value(DigitsOf(pfx), Base58), Ones(pfx);
    CeilingPower(z);
    PrefixDigits(pfx);
    BlockMeansWanted(pfx, n, t, z, Power(Ceiling(z)), Floor(z), Ceiling(z));
  }

  lemma BlockMeansWanted(pfx: string, n: int, t: nat, z: nat, b58pow: nat, floor: int, ceil: int)
    requires AllDigits(pfx) && z == Ones(pfx) < |pfx| && t == Value(DigitsOf(pfx), Base58) > 0 && z <= 24
    requires |Digits(t, Base58)| == |pfx| - z <= b58pow == Power(Ceiling(z))
    requires floor == Floor(z) && ceil == Ceiling(z)
    ensures InBlock(n, t, b58pow, |pfx| - z, floor, ceil)
      <==> IsAddress(n) && DigitsOf(pfx) <= TextOf(n) && Considered(pfx, n)
  {
    hide Digits, Value, TextOf, Power, InBlock, Pow;
    CountBounds(n, t, b58pow, floor, ceil);
    if n >= 0 {
      TextBounds(pfx, n);
    }
  }

  /** The block for a prefix of ones only. */
  lemma OnesWanted(pfx: string, n: int)
    requires AllDigits(pfx) && Ones(pfx) == |pfx|
    ensures 0 <= n <= Ceiling(Ones(pfx)) <==> IsAddress(n) && DigitsOf(pfx) <= TextOf(n) && Considered(pfx, n)
  {
    var z := Ones(pfx);
    if n >= 0 {
      if z <= 25 {
        AtMostBytes(n, 25 - z);
      }
      if IsAddress(n) {
        PrefixMeaning(n, DigitsOf(pfx));
      }
    }
  }

  /** What the prefix alone allows, before the clipping to the version byte. */
  method TextRanges(pfx: string) returns (valid: bool, r: Ranges)
    requires ShortEnough(pfx)
    ensures valid <==> AllDigits(pfx)
    ensures valid ==> Ordered(r) || (r.upper.None? && r.lower.high < 0)
    ensures valid ==> forall n :: Member(r, n) <==> IsAddress(n) && DigitsOf(pfx) <= TextOf(n) && Considered(pfx, n)
  {
    var zero_prefix, bntarg, b58top;
    valid, zero_prefix, bntarg, b58top := Parse(pfx);
    r := Ranges(Interval(0, 0), None);
    if valid {
      var bnfloor, bnceil := SetFloorAndCeiling(zero_prefix);
      if b58top != 0 {
        PrefixDigits(pfx);
        CeilingPower(zero_prefix);
        FloorAndCeiling(zero_prefix);
        FloorEven(zero_prefix);
        r := Block(bntarg, |pfx| - zero_prefix, b58top, bnfloor, bnceil);
        forall n ensures Member(r, n) <==> IsAddress(n) && DigitsOf(pfx) <= TextOf(n) && Considered(pfx, n) {
          BlockWanted(pfx, n);
        }
      } else {
        r := Ranges(Interval(0, bnceil), None);
        forall n ensures Member(r, n) <==> IsAddress(n) && DigitsOf(pfx) <= TextOf(n) && Considered(pfx, n) {
          OnesWanted(pfx, n);
        }
      }
    }
  }

  /** The numbers with a version are those from its shifted value to the next. */
  lemma VersionBounds(n: nat, addrtype: nat, k: nat, bits: nat)
    requires bits == 8 * k
    ensures Cut(n, Bytes, k) == addrtype <==> Shift(addrtype, bits) <= n <= Shift(addrtype + 1, bits) - 1
  {
    CutInterval(n, Bytes, k, addrtype);
    Pow2OfBytes(k);
  }

  /** get_prefix_ranges, for every version byte and every prefix that is not absurdly long. */
  method GetPrefixRanges(addrtype: nat, pfx: string) returns (result: Result)
    requires ShortEnough(pfx)
    ensures result.Invalid? <==> !AllDigits(pfx)
    ensures result.Found? ==> Ordered(result.ranges) && 0 <= result.ranges.lower.low
    ensures result.Found? ==> forall n :: Member(result.ranges, n) <==> Wanted(addrtype, pfx, n)
    ensures result.NotPossible? ==> forall n :: !Wanted(addrtype, pfx, n)
  {
    var valid, text := TextRanges(pfx);
    if !valid {
      return Invalid;
    }
    var bits := 192;
    var low := Shift(addrtype, bits);
    var high := Shift(addrtype + 1, bits) - 1;
    forall n: nat ensures Cut(n, Bytes, 24) == addrtype <==> low <= n <= high {
      VersionBounds(n, addrtype, 24, bits);
    }
    var above := ClipBelow(text, low);
    if above.None? {
      return NotPossible;
    }
    var both := ClipAbove(above.value, high);
    if both.None? {
      return NotPossible;
    }
    assert Member(both.value, both.value.lower.low);
    return Found(both.value);
  }
}
