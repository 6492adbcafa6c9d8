/**
 * What get_prefix_ranges misses.
 */
module PrefixCompleteness {
  // It looks only at numbers with b58pow or b58pow + 1 Base58 digits, where 58^b58pow is the magnitude of the greatest
  // number with as many leading ones as the prefix; which prefixes this makes incomplete depends on the version byte and
  // on how many ones lead.

  import opened Radix
  import opened Base58
  import opened Base58Check
  import opened PrefixRanges

  function Greater(a: int, b: int): int { if a < b then b else a }

  function Lesser(a: int, b: int): int { if a < b then a else b }

  /** The least number of version 1, 2^192. */
  const UNIT: nat := 0x1_000000000000000000000000_000000000000000000000000

  /** The least and the greatest number with the version and exactly z leading ones in their text. */
  function First(addrtype: nat, z: nat): int {
    Greater(Floor(z), addrtype * UNIT)
  }

  function Last(addrtype: nat, z: nat): int {
    Lesser(Ceiling(z), (addrtype + 1) * UNIT - 1)
  }

  /** A prefix with z leading ones, something behind them, and not too long. */
  ghost predicate Ordinary(pfx: string, z: nat) {
    AllDigits(pfx) && Ones(pfx) == z < |pfx| && ShortEnough(pfx)
  }

  /** For these prefixes the ranges hold every number whose text starts with the prefix. */
  ghost predicate Complete(addrtype: nat, z: nat) {
    forall pfx, n :: Ordinary(pfx, z) && Matches(addrtype, pfx, n) ==> Wanted(addrtype, pfx, n)
  }

  /** The same, but for a full-length prefix of the floor. */
  ghost predicate CompleteButForFloor(addrtype: nat, z: nat) {
    forall pfx, n :: Ordinary(pfx, z) && Matches(addrtype, pfx, n) && !(|pfx| - z == Power(Ceiling(z)) && n == Floor(z))
      ==> Wanted(addrtype, pfx, n)
  }

  lemma CeilingPowerPositive(z: nat)
    requires z <= 24
    ensures Power(Ceiling(z)) > 0
  {
    FloorAndCeiling(z);
  }

  lemma InRange(addrtype: nat, z: nat, pfx: string, n: nat)
    requires z <= 24 && Ordinary(pfx, z)
    ensures Matches(addrtype, pfx, n)
      <==> First(addrtype, z) <= n <= Last(addrtype, z) && Digits(Value(DigitsOf(pfx), Base58), Base58) <= Digits(n, Base58)
  {
    hide Digits, Value, TextOf, Floor, Ceiling, Cut, Pow;
    TextBounds(pfx, n);
    BytePowers();
    CutInterval(n, Bytes, 24, addrtype);
  }

  /** The prefix of z ones and one more digit. */
  lemma OneDigit(z: nat, d: nat) returns (pfx: string)
    requires z <= 24 && 0 < d < 58
    ensures Ordinary(pfx, z) && |pfx| == z + 1 && Digits(Value(DigitsOf(pfx), Base58), Base58) == [d]
  {
    var ds := Zeros(z) + [d];
    pfx := Letters(ds);
    LettersAndBack(ds);
    OnesThenDigit(z, d);
    CeilingPowerPositive(z);
  }

  lemma OnesThenDigit(z: nat, d: nat)
    requires 0 < d < 58
    ensures LeadingZeros(Zeros(z) + [d]) == z && Digits(Value(Zeros(z) + [d], Base58), Base58) == [d]
  {
    LeadingZerosOf(z, [d]);
    ValueOfZeros(z, [d], Base58);
    DigitsOfValue([d], Base58);
  }

  lemma Witness(addrtype: nat, z: nat, n: nat) returns (pfx: string)
    requires z <= 24 && First(addrtype, z) <= n <= Last(addrtype, z)
    ensures Ordinary(pfx, z) && |pfx| == z + 1 && Matches(addrtype, pfx, n)
  {
    FloorAndCeiling(z);
    ValueOfDigits(n, Base58);
    var d := Digits(n, Base58);
    pfx := OneDigit(z, d[0]);
    assert [d[0]] <= d;
    InRange(addrtype, z, pfx, n);
  }

  lemma FloorIsSmall(z: nat)
    requires z <= 24
    ensures 0 < Floor(z) < Pow(Base58, Power(Ceiling(z)) + 1)
  {
    FloorAndCeiling(z);
    var c := Ceiling(z);
    Magnitude(c);
    MulOrder(Lead(c) + 1, 59, Pow(Base58, Power(c)));
  }

  lemma CountIs(n: nat, b58pow: nat)
    requires b58pow > 0
    ensures |Digits(n, Base58)| in {b58pow, b58pow + 1} <==> Pow(Base58, b58pow - 1) <= n < Pow(Base58, b58pow + 1)
  {
    if n < Pow(Base58, b58pow - 1) {
      DigitsAtMost(n, Base58, b58pow - 1);
    } else {
      DigitsMoreThan(n, Base58, b58pow - 1);
      if n < Pow(Base58, b58pow + 1) {
        DigitsAtMost(n, Base58, b58pow + 1);
      } else {
        DigitsMoreThan(n, Base58, b58pow + 1);
      }
    }
  }

  /** All numbers from first to last, if any, lie from low to below high. */
  predicate Spanned(first: int, last: int, low: int, high: int) {
    first > last || (low <= first && last < high)
  }

  /**
   * But for the floor, nothing is missed exactly when the first and the last number have b58pow or b58pow + 1 digits.
   */
  lemma CompleteButForFloorExactly(addrtype: nat, z: nat)
    requires z <= 24
    ensures var b58pow := Power(Ceiling(z));
      b58pow > 0 &&
      (CompleteButForFloor(addrtype, z) <==>
       Spanned(First(addrtype, z), Last(addrtype, z), Pow(Base58, b58pow - 1), Pow(Base58, b58pow + 1)))
  {
    var first, last, b58pow := First(addrtype, z), Last(addrtype, z), Power(Ceiling(z));
    CeilingPowerPositive(z);
    FloorIsSmall(z);
    if Spanned(first, last, Pow(Base58, b58pow - 1), Pow(Base58, b58pow + 1)) {
      forall pfx, n | Ordinary(pfx, z) && Matches(addrtype, pfx, n) && !(|pfx| - z == b58pow && n == Floor(z))
        ensures Wanted(addrtype, pfx, n)
      {
        InRange(addrtype, z, pfx, n);
        CountIs(n, b58pow);
      }
    } else {
      var n := if first < Pow(Base58, b58pow - 1) then first else last;
      var pfx := Witness(addrtype, z, n);
      CountIs(n, b58pow);
      assert Pow(Base58, 0) == 1;
      assert !Wanted(addrtype, pfx, n);
    }
  }

  /** A floor of b58pow digits, asked for by all its digits, is missed. */
  lemma FloorIsMissed(addrtype: nat, z: nat) returns (pfx: string)
    requires z <= 24 && First(addrtype, z) == Floor(z) <= Last(addrtype, z)
    requires |Digits(Floor(z), Base58)| == Power(Ceiling(z))
    ensures Ordinary(pfx, z) && Matches(addrtype, pfx, Floor(z)) && !Wanted(addrtype, pfx, Floor(z))
  {
    hide Pow, Digits, Value, Power, TextOf, Cut;
    FloorAndCeiling(z);
    var n: nat := Floor(z);
    var d := Digits(n, Base58);
    ValueOfDigits(n, Base58);
    pfx := Letters(Zeros(z) + d);
    LettersAndBack(Zeros(z) + d);
    LeadingZerosOf(z, d);
    ValueOfZeros(z, d, Base58);
    InRange(addrtype, z, pfx, n);
  }

  /** The floor has at most b58pow digits, so that it can only be missed by all of them. */
  lemma FloorDigits(z: nat)
    requires z <= 24
    ensures |Digits(Floor(z), Base58)| <= Power(Ceiling(z))
  {
    FloorAndCeiling(z);
    var c := Ceiling(z);
    Magnitude(c);
    MulOrder(Lead(c) + 1, 59, Pow(Base58, Power(c)));
    DigitsAtMost(Floor(z), Base58, Power(c));
  }

  lemma FloorHasAll(addrtype: nat, z: nat)
    requires z <= 24 && First(addrtype, z) == Floor(z) <= Last(addrtype, z) && Power(Ceiling(z)) > 0
    requires Spanned(First(addrtype, z), Last(addrtype, z),
                     Pow(Base58, Power(Ceiling(z)) - 1), Pow(Base58, Power(Ceiling(z)) + 1))
    ensures |Digits(Floor(z), Base58)| == Power(Ceiling(z))
  {
    FloorAndCeiling(z);
    FloorDigits(z);
    CountIs(Floor(z), Power(Ceiling(z)));
  }

  /**
   * Nothing is missed, whatever the prefix, exactly when the first and the last number of the kind have b58pow or
   * b58pow + 1 digits and the first is not the floor.
   */
  lemma CompleteExactly(addrtype: nat, z: nat)
    requires z <= 24
    ensures var first, last, b58pow := First(addrtype, z), Last(addrtype, z), Power(Ceiling(z));
      b58pow > 0 &&
      (Complete(addrtype, z) <==>
       Spanned(first, last, Pow(Base58, b58pow - 1), Pow(Base58, b58pow + 1)) && !(first == Floor(z) <= last))
  {
    hide Pow, Digits, Power, Matches, Wanted, Spanned;
    CompleteButForFloorExactly(addrtype, z);
    if First(addrtype, z) == Floor(z) <= Last(addrtype, z) {
      if CompleteButForFloor(addrtype, z) {
        FloorHasAll(addrtype, z);
        var pfx := FloorIsMissed(addrtype, z);
      }
    } else {
      forall pfx, n | Ordinary(pfx, z) && Matches(addrtype, pfx, n) ensures n != Floor(z) {
        NotTheFloor(addrtype, z, pfx, n);
      }
    }
  }

  lemma NotTheFloor(addrtype: nat, z: nat, pfx: string, n: int)
    requires z <= 24 && Ordinary(pfx, z) && Matches(addrtype, pfx, n)
    requires !(First(addrtype, z) == Floor(z) <= Last(addrtype, z))
    ensures n != Floor(z)
  {
    InRange(addrtype, z, pfx, n);
  }

  lemma FiveDigits(k: nat)
    ensures Pow(Base58, k + 5) == 656356768 * Pow(Base58, k)
    ensures Pow(Bytes, k + 5) == 0x100_0000_0000 * Pow(Bytes, k)
  {
    assert Pow(Base58, k + 2) == 58 * (58 * Pow(Base58, k));
    assert Pow(Base58, k + 4) == 58 * (58 * Pow(Base58, k + 2));
    assert Pow(Bytes, k + 2) == 256 * (256 * Pow(Bytes, k));
    assert Pow(Bytes, k + 4) == 256 * (256 * Pow(Bytes, k + 2));
  }

  lemma Thirty()
    ensures Pow(Base58, 30) == 79953928393091004080532279173738402825689466587316224
    ensures Pow(Bytes, 20) == 0x1_0000000000_0000000000_0000000000_0000000000
  {
    assert Pow(Base58, 0) == 1 && Pow(Bytes, 0) == 1;
    FiveDigits(0);
    FiveDigits(5);
    FiveDigits(10);
    FiveDigits(15);
    FiveDigits(20);
    FiveDigits(25);
  }

  /** How to read off the magnitude of a number. */
  lemma MagnitudeIs(n: int, p: nat)
    requires p > 0 && 59 * Pow(Base58, p - 1) <= n < Pow(Base58, p + 1)
    ensures Power(n) == p
  {
    Magnitude(n);
    var q := Power(n);
    if q > p {
      PowMonotone(Base58, p + 1, q);
      MulOrder(1, Lead(n), Pow(Base58, q));
    } else if q < p {
      PowMonotone(Base58, q, p - 1);
      MulOrder(Lead(n) + 1, 59, Pow(Base58, q));
    }
  }

  lemma DigitPowers()
    ensures Pow(Base58, 29) == 1378516006777431104836763434029972462511887354953728
    ensures Pow(Base58, 30) == 58 * 1378516006777431104836763434029972462511887354953728
    ensures Pow(Base58, 31) == 58 * 58 * 1378516006777431104836763434029972462511887354953728
    ensures Pow(Base58, 32) == 58 * 58 * 58 * 1378516006777431104836763434029972462511887354953728
    ensures Pow(Base58, 33) == 58 * 58 * 58 * 58 * 1378516006777431104836763434029972462511887354953728
    ensures Pow(Base58, 35) == 58 * 58 * 58 * 58 * 58 * 58 * 1378516006777431104836763434029972462511887354953728
  {
    Thirty();
    var p := Pow(Base58, 29);
    assert Pow(Base58, 29 + 1) == 58 * p;
    assert Pow(Base58, 30 + 1) == 58 * Pow(Base58, 30);
    assert Pow(Base58, 31 + 1) == 58 * Pow(Base58, 31);
    assert Pow(Base58, 32 + 1) == 58 * Pow(Base58, 32);
    FiveDigits(30);
  }

  lemma BytePowers()
    ensures Pow(Bytes, 24) == UNIT && Pow(Bytes, 25) == 256 * UNIT
    ensures UNIT == 256 * Pow(Bytes, 23) && Pow(Bytes, 23) == 256 * Pow(Bytes, 22)
      && Pow(Bytes, 22) == 256 * Pow(Bytes, 21)
  {
    Thirty();
    assert Pow(Bytes, 20 + 1) == 256 * Pow(Bytes, 20);
    assert Pow(Bytes, 21 + 1) == 256 * Pow(Bytes, 21);
    assert Pow(Bytes, 22 + 1) == 256 * Pow(Bytes, 22);
    assert Pow(Bytes, 23 + 1) == 256 * Pow(Bytes, 23);
    assert Pow(Bytes, 24 + 1) == 256 * Pow(Bytes, 24);
  }

  /** The magnitudes for up to three leading ones. */
  lemma Magnitudes(z: nat) returns (floor: nat, b58pow: nat, low: nat, high: nat)
    requires z <= 3
    ensures floor == Floor(z) && 256 * floor - 1 == Ceiling(z) && b58pow == Power(Ceiling(z)) > 0
    ensures b58pow == if z == 0 then 34 else 33 - z
    ensures low == Pow(Base58, b58pow - 1) && high == Pow(Base58, b58pow + 1)
    ensures UNIT == (if z == 0 then 1 else if z == 1 then 256 else if z == 2 then 0x1_0000 else 0x100_0000) * floor
    ensures low == (if z == 0 then 58 * 58 * 58 * 58 else if z == 1 then 58 * 58 else if z == 2 then 58 else 1)
      * 1378516006777431104836763434029972462511887354953728
    ensures high == 58 * 58 * low
  {
    DigitPowers();
    BytePowers();
    FloorAndCeiling(z);
    assert Pow(Base58, 33 + 2) == Pow(Base58, 35);
    floor := Pow(Bytes, 24 - z);
    b58pow := if z == 0 then 34 else if z == 1 then 32 else if z == 2 then 31 else 30;
    low, high := Pow(Base58, b58pow - 1), Pow(Base58, b58pow + 1);
    assert high == 58 * (58 * low);
    MagnitudeIs(256 * floor - 1, b58pow);
  }

  predicate Misses(addrtype: nat, z: nat) {
    (z == 0 && addrtype in {1, 2}) || (z == 3 && addrtype == 0)
  }

  lemma SpansOfVersions(addrtype: nat, z: nat, floor: nat, low: nat)
    requires z <= 3
    requires UNIT == (if z == 0 then 1 else if z == 1 then 256 else if z == 2 then 0x1_0000 else 0x100_0000) * floor
    requires low == (if z == 0 then 58 * 58 * 58 * 58 else if z == 1 then 58 * 58 else if z == 2 then 58 else 1)
      * 1378516006777431104836763434029972462511887354953728
    ensures Spanned(Greater(floor, addrtype * UNIT), Lesser(256 * floor - 1, (addrtype + 1) * UNIT - 1), low, 58 * 58 * low)
      <==> !Misses(addrtype, z)
  {
  }

  lemma SpannedUnlessMisses(addrtype: nat, z: nat, b58pow: nat)
    requires z <= 3 && b58pow == Power(Ceiling(z)) > 0
    ensures Spanned(First(addrtype, z), Last(addrtype, z), Pow(Base58, b58pow - 1), Pow(Base58, b58pow + 1))
      <==> !Misses(addrtype, z)
  {
    hide Pow, Floor, Ceiling, Power, Misses, Spanned;
    var floor, p, low, high := Magnitudes(z);
    SpansOfVersions(addrtype, z, floor, low);
  }

  /**
   * With up to three leading ones, only the floor can be missed except for the versions 1 and 2 without ones and version
   * 0 with three. The floor is missed with version 0, by a prefix as long as its text.
   */
  lemma CompleteUnlessMisses(addrtype: nat, z: nat)
    requires z <= 3
    ensures CompleteButForFloor(addrtype, z) <==> !Misses(addrtype, z)
    ensures Complete(addrtype, z) <==> !Misses(addrtype, z) && !(addrtype == 0 && z > 0)
  {
    hide Pow, Digits, Power, Spanned, Complete, CompleteButForFloor;
    CompleteButForFloorExactly(addrtype, z);
    CompleteExactly(addrtype, z);
    SpannedUnlessMisses(addrtype, z, Power(Ceiling(z)));
    FloorIsFirst(addrtype, z);
  }

  /** The floor is an address of the version only for version 0 with ones and for version 1 without. */
  lemma FloorIsFirst(addrtype: nat, z: nat)
    requires z <= 24
    ensures First(addrtype, z) == Floor(z) <= Last(addrtype, z) <==> if z == 0 then addrtype == 1 else addrtype == 0
  {
    FloorAndCeiling(z);
    BytePowers();
    if z > 0 {
      PowMonotone(Bytes, 24 - z, 23);
    }
  }

  /** With one leading one, the floor 256^23 has 32 digits, and a prefix of 33 characters misses it. */
  lemma FloorOfOne() returns (pfx: string)
    ensures |Digits(Floor(1), Base58)| == Power(Ceiling(1)) == 32
    ensures Ordinary(pfx, 1) && Matches(0, pfx, Floor(1)) && !Wanted(0, pfx, Floor(1))
  {
    hide Pow, Digits, Power, Matches, Wanted, Ordinary, Spanned, Floor, Ceiling, First, Last;
    FloorIsFirst(0, 1);
    var floor, b58pow, low, high := Magnitudes(1);
    SpannedUnlessMisses(0, 1, Power(Ceiling(1)));
    FloorHasAll(0, 1);
    pfx := FloorIsMissed(0, 1);
  }
}
