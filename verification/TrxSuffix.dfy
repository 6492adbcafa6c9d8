/**
 * Suffix patterns for Tron addresses in pattern.c: the suffix as a remainder, which the GPU tests, and as text, which
 * the CPU compares.
 *
 * The remainder is that of the number the address spells, by a power of 58; the two tests must agree, and do for every
 * address of version 65.
 */
module TrxSuffix {
  import opened Arithmetic
  import opened Radix
  import opened Base58
  import opened Base58Check

  const WORD: nat := 0x1_0000_0000_0000_0000

  // ---- The last digits of a number

  lemma OneMoreDigit(x: nat, p: nat, y: nat, d: nat)
    ensures (x * p + y) * 58 + d == x * (p * 58) + (y * 58 + d)
  {
    assert x * (p * 58) == (x * p) * 58;
  }

  lemma {:induction false} ValueConcat(a: seq<nat>, b: seq<nat>)
    ensures Value(a + b, Radix.Base58) == Value(a, Radix.Base58) * Pow(Radix.Base58, |b|) + Value(b, Radix.Base58)
  {
    if b == [] {
      assert a + b == a;
    } else {
      var n := |b| - 1;
      assert (a + b)[..|a| + n] == a + b[..n];
      ValueConcat(a, b[..n]);
      OneMoreDigit(Value(a, Radix.Base58), Pow(Radix.Base58, n), Value(b[..n], Radix.Base58), b[n]);
    }
  }

  lemma {:induction false} ValueBound(s: seq<nat>)
    requires Proper(s, Radix.Base58)
    ensures Value(s, Radix.Base58) < Pow(Radix.Base58, |s|)
  {
    if s != [] {
      ValueBound(s[..|s| - 1]);
    }
  }

  lemma SameDigit(v: nat, w: nat, d: nat, e: nat)
    requires v * 58 + d == w * 58 + e && d < 58 && e < 58
    ensures v == w && d == e
  {
  }

  /** Digit strings of the same length with the same value are the same. */
  lemma {:induction false} ValueInjective(s: seq<nat>, t: seq<nat>)
    requires Proper(s, Radix.Base58) && Proper(t, Radix.Base58) && |s| == |t|
      && Value(s, Radix.Base58) == Value(t, Radix.Base58)
    ensures s == t
  {
    if s != [] {
      var n := |s| - 1;
      SameDigit(Value(s[..n], Radix.Base58), Value(t[..n], Radix.Base58), s[n], t[n]);
      ValueInjective(s[..n], t[..n]);
      assert s == s[..n] + [s[n]] && t == t[..n] + [t[n]];
    }
  }

  /** A remainder modulo a power of 58 is the value of the last digits. */
  lemma LastDigits(s: seq<nat>, k: nat)
    requires Proper(s, Radix.Base58) && k <= |s|
    ensures Value(s, Radix.Base58) % Pow(Radix.Base58, k) == Value(s[|s| - k..], Radix.Base58)
  {
    hide Value, Pow;
    var a, b := s[..|s| - k], s[|s| - k..];
    assert s == a + b;
    ValueConcat(a, b);
    ValueBound(b);
    ModIs(Value(s, Radix.Base58), Pow(Radix.Base58, k), Value(a, Radix.Base58), Value(b, Radix.Base58));
  }

  // ---- Parsing the suffix

  lemma SmallPowers()
    ensures Pow(Radix.Base58, 9) == 7427658739644928 < WORD
  {
    assert Pow(Radix.Base58, 3) == 195112 && Pow(Radix.Base58, 6) == 38068692544;
  }

  /** 58^i for i up to 9 fits a word with room to spare. */
  lemma FitsWord(i: nat)
    requires i <= 9
    ensures Pow(Radix.Base58, i) <= 7427658739644928
  {
    hide Pow;
    SmallPowers();
    PowMonotone(Radix.Base58, i, 9);
  }

  /** Remainder, divisor and the checks before them; both are computed in 64-bit words. */
  method ParseSuffix(suffix: string) returns (ok: bool, target: nat, divisor: nat)
    ensures ok <==> AllDigits(suffix) && 1 <= |suffix| <= 9
    ensures ok ==> target == Value(DigitsOf(suffix), Radix.Base58) && divisor == Pow(Radix.Base58, |suffix|)
    ensures ok ==> target < divisor <= 7427658739644928
  {
    hide Value, Pow, ReverseMap;
    target, divisor := 0, 1;
    for s := 0 to |suffix|
      invariant AllDigits(suffix[..s])
    {
      if ReverseMap(suffix[s]) < 0 {
        return false, 0, 1;
      }
    }
    assert suffix[..|suffix|] == suffix;
    if |suffix| == 0 || |suffix| > 9 {
      return false, 0, 1;
    }
    Start();
    assert DigitsOf(suffix[..0]) == [];
    for s := 0 to |suffix|
      invariant target == Value(DigitsOf(suffix[..s]), Radix.Base58)
    {
      NextDigit(suffix, s);
      target := (target * 58 + ReverseMap(suffix[s])) % WORD;
    }
    for s := 0 to |suffix|
      invariant divisor == Pow(Radix.Base58, s)
    {
      NextPower(s);
      divisor := (divisor * 58) % WORD;
    }
    ValueBound(DigitsOf(suffix));
    FitsWord(|suffix|);
    ok := true;
  }

  lemma Start()
    ensures Value([], Radix.Base58) == 0 && Pow(Radix.Base58, 0) == 1
  {
  }

  lemma NextDigit(suffix: string, s: nat)
    requires AllDigits(suffix) && s < |suffix| <= 9
    ensures ReverseMap(suffix[s]) >= 0
    ensures var v := Value(DigitsOf(suffix[..s]), Radix.Base58) * 58 + ReverseMap(suffix[s]);
      v == Value(DigitsOf(suffix[..s + 1]), Radix.Base58) && v % WORD == v
  {
    hide Pow, ReverseMap;
    assert suffix[..s + 1] == suffix[..s] + [suffix[s]];
    ValueNext(suffix[..s], suffix[s]);
    ValueBound(DigitsOf(suffix[..s + 1]));
    FitsWord(s + 1);
  }

  lemma NextPower(s: nat)
    requires s < 9
    ensures var p := Pow(Radix.Base58, s) * 58; p == Pow(Radix.Base58, s + 1) && p % WORD == p
  {
    FitsWord(s + 1);
  }

  // ---- The two tests

  /** The text ends with the suffix. */
  predicate EndsWith(text: string, suffix: string) {
    |text| >= |suffix| && text[|text| - |suffix|..] == suffix
  }

  /** vg_prefix_check_suffix_trx: the address of version and hash, compared at its end. */
  method CheckSuffix(binres: seq<nat>, sum: seq<nat> -> seq<nat>, suffix: string) returns (found: bool)
    requires |binres| == 21 && Proper(binres, Bytes) && IsChecksum(sum)
    ensures found <==> EndsWith(Text(binres + sum(binres)), suffix)
  {
    BufferSuffices(|binres|, sum);
    var addr_buf := EncodeCheck(binres, sum);
    if |addr_buf| < |suffix| {
      return false;
    }
    found := addr_buf[|addr_buf| - |suffix|..] == suffix;
  }

  lemma NumeralsValue(bytes: seq<nat>)
    requires Proper(bytes, Bytes)
    ensures Value(Numerals(bytes), Radix.Base58) == Value(bytes, Bytes)
  {
    var n := Value(bytes, Bytes);
    ValueOfZeros(LeadingZeros(bytes), Digits(n, Radix.Base58), Radix.Base58);
    ValueOfDigits(n, Radix.Base58);
  }

  lemma LettersAtEnd(ds: seq<nat>, suffix: string)
    requires Proper(ds, Radix.Base58) && AllDigits(suffix) && |suffix| <= |ds|
    ensures EndsWith(Letters(ds), suffix) <==> ds[|ds| - |suffix|..] == DigitsOf(suffix)
  {
    var k, n := |suffix|, |ds|;
    var t := Letters(ds);
    if EndsWith(t, suffix) {
      forall i | 0 <= i < k ensures ds[n - k..][i] == DigitsOf(suffix)[i] {
        assert t[n - k..][i] == suffix[i];
        LetterMap(ds[n - k + i]);
      }
    }
    if ds[n - k..] == DigitsOf(suffix) {
      forall i | 0 <= i < k ensures t[n - k..][i] == suffix[i] {
        assert ds[n - k..][i] == DigitsOf(suffix)[i];
        MapLetter(suffix[i]);
      }
    }
  }

  /** The remainder test and the comparison agree on every text that is as long as the suffix. */
  lemma TestsAgree(bytes: seq<nat>, suffix: string)
    requires Proper(bytes, Bytes) && AllDigits(suffix) && |suffix| <= |Text(bytes)|
    ensures Value(bytes, Bytes) % Pow(Radix.Base58, |suffix|) == Value(DigitsOf(suffix), Radix.Base58) <==>
      EndsWith(Text(bytes), suffix)
  {
    hide Value, Pow, LeadingZeros, Digits;
    var ds, k := Numerals(bytes), |suffix|;
    NumeralsValue(bytes);
    LastDigits(ds, k);
    LettersAtEnd(ds, suffix);
    if Value(ds[|ds| - k..], Radix.Base58) == Value(DigitsOf(suffix), Radix.Base58) {
      ValueInjective(ds[|ds| - k..], DigitsOf(suffix));
    }
  }

  /** A shorter text never ends with the suffix, but the remainder can still be the one looked for. */
  lemma ShortTexts(bytes: seq<nat>, suffix: string)
    requires Proper(bytes, Bytes) && AllDigits(suffix) && |suffix| > |Text(bytes)|
    ensures !EndsWith(Text(bytes), suffix)
    ensures Value(bytes, Bytes) % Pow(Radix.Base58, |suffix|) == Value(DigitsOf(suffix), Radix.Base58)
      <==> Value(bytes, Bytes) == Value(DigitsOf(suffix), Radix.Base58)
  {
    hide Value, Pow, LeadingZeros, Digits;
    NumeralsValue(bytes);
    ValueBound(Numerals(bytes));
    PowMonotone(Radix.Base58, |Numerals(bytes)|, |suffix|);
    ModIs(Value(bytes, Bytes), Pow(Radix.Base58, |suffix|), 0, Value(bytes, Bytes));
  }

  /** An address with a version other than zero is longer than any suffix. */
  lemma AddressIsLong(bytes: seq<nat>)
    requires Proper(bytes, Bytes) && |bytes| == 25 && bytes[0] != 0
    ensures |Text(bytes)| > 9
  {
    hide Digits, Value;
    LeadingDigit(bytes, Bytes);
    AtLeastOnce(bytes[0], Pow(Bytes, 24));
    var e := 24;
    PowMonotone(Bytes, 7, e);
    SmallPowers();
    SevenBytes();
    DigitsMoreThan(Value(bytes, Bytes), Radix.Base58, 9);
  }

  lemma SevenBytes()
    ensures Pow(Bytes, 7) == 0x100_0000_0000_0000
  {
    assert Pow(Bytes, 4) == 0x1_0000_0000;
  }

  lemma AtLeastOnce(x: nat, p: nat)
    requires x > 0
    ensures p <= x * p
  {
    assert x * p == (x - 1) * p + p;
  }

  /** For Tron addresses the two tests always agree. */
  lemma TronTestsAgree(binres: seq<nat>, sum: seq<nat> -> seq<nat>, suffix: string)
    requires |binres| == 21 && Proper(binres, Bytes) && IsChecksum(sum) && binres[0] == 65
    requires AllDigits(suffix) && 1 <= |suffix| <= 9
    ensures var bytes := binres + sum(binres);
      Value(bytes, Bytes) % Pow(Radix.Base58, |suffix|) == Value(DigitsOf(suffix), Radix.Base58)
      <==> EndsWith(Text(bytes), suffix)
  {
    hide Value, Pow, Text;
    AddressIsLong(binres + sum(binres));
    TestsAgree(binres + sum(binres), suffix);
  }
}
