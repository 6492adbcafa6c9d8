/**
 * Numbers and their digits, most significant digit first, in the two bases the address code works with. The number
 * zero has no digits.
 *
 * Dividing again and again gives the digits, multiplying and adding gives the number back, and the numbers that begin
 * with given digits are an interval.
 */
module Radix {

  datatype Base = Base58 | Bytes {
    function Size(): nat {
      match this
      case Base58 => 58
      case Bytes => 256
    }

    function Div(n: nat): (q: nat)
      ensures n > 0 ==> q < n
    {
      match this
      case Base58 => n / 58
      case Bytes => n / 256
    }

    function Mod(n: nat): (r: nat)
      ensures r < Size()
    {
      match this
      case Base58 => n % 58
      case Bytes => n % 256
    }

    function Times(n: nat): nat {
      match this
      case Base58 => n * 58
      case Bytes => n * 256
    }
  }

  function Pow(b: Base, e: nat): (p: nat)
    ensures p > 0
  {
    if e == 0 then 1 else b.Times(Pow(b, e - 1))
  }

  function Digits(n: nat, b: Base): seq<nat> {
    if n == 0 then [] else Digits(b.Div(n), b) + [b.Mod(n)]
  }

  function Value(s: seq<nat>, b: Base): nat {
    if s == [] then 0 else b.Times(Value(s[..|s| - 1], b)) + s[|s| - 1]
  }

  /** Proper digits of base b. */
  predicate Proper(s: seq<nat>, b: Base) {
    forall i :: 0 <= i < |s| ==> s[i] < b.Size()
  }

  lemma {:induction false} ValueOfDigits(n: nat, b: Base)
    ensures Value(Digits(n, b), b) == n && Proper(Digits(n, b), b)
    ensures if n == 0 then Digits(n, b) == [] else Digits(n, b) != [] && Digits(n, b)[0] != 0
  {
    if n > 0 {
      var d := Digits(b.Div(n), b);
      ValueOfDigits(b.Div(n), b);
      assert (d + [b.Mod(n)])[..|d|] == d;
    }
  }

  lemma AppendDigit(n: nat, d: nat, b: Base)
    requires d < b.Size()
    ensures b.Div(b.Times(n) + d) == n && b.Mod(b.Times(n) + d) == d
  {
  }

  /** Putting one more digit behind a number. */
  lemma DigitsAppend(n: nat, d: nat, b: Base)
    requires d < b.Size() && b.Times(n) + d > 0
    ensures Digits(b.Times(n) + d, b) == Digits(n, b) + [d]
  {
    AppendDigit(n, d, b);
  }

  lemma {:induction false} DigitsOfValue(s: seq<nat>, b: Base)
    requires Proper(s, b) && (s != [] ==> s[0] != 0)
    ensures Digits(Value(s, b), b) == s && (s != [] ==> Value(s, b) > 0)
  {
    if s != [] {
      var n := |s| - 1;
      var head := s[..n];
      assert s == head + [s[n]];
      assert head != [] ==> head[0] == s[0];
      DigitsOfValue(head, b);
      var v := Value(head, b);
      assert b.Times(v) + s[n] > 0;
      DigitsAppend(v, s[n], b);
    }
  }

  /** A number with k digits is less than the power k and at least the power k - 1. */
  lemma {:induction false} DigitsBounds(n: nat, b: Base)
    ensures n < Pow(b, |Digits(n, b)|)
    ensures n > 0 ==> Pow(b, |Digits(n, b)| - 1) <= n
  {
    if n > 0 {
      DigitsBounds(b.Div(n), b);
    }
  }

  lemma {:induction false} PowMonotone(b: Base, d: nat, e: nat)
    requires d <= e
    ensures Pow(b, d) <= Pow(b, e)
  {
    if d < e {
      PowMonotone(b, d, e - 1);
    }
  }

  /** n without its last k digits. */
  function Cut(n: nat, b: Base, k: nat): nat {
    if k == 0 then n else Cut(b.Div(n), b, k - 1)
  }

  lemma {:induction false} CutDigits(n: nat, b: Base, k: nat)
    requires k <= |Digits(n, b)|
    ensures Digits(Cut(n, b, k), b) == Digits(n, b)[..|Digits(n, b)| - k]
  {
    if k > 0 {
      CutDigits(b.Div(n), b, k - 1);
    }
  }

  lemma TimesAssoc(t: nat, p: nat, b: Base)
    ensures t * b.Times(p) == b.Times(t * p)
  {
    match b
    case Base58 => assert t * (p * 58) == (t * p) * 58;
    case Bytes => assert t * (p * 256) == (t * p) * 256;
  }

  /** Numbers with the same head are the numbers of an interval. */
  lemma {:induction false} CutInterval(n: nat, b: Base, k: nat, t: nat)
    ensures Cut(n, b, k) == t <==> t * Pow(b, k) <= n < (t + 1) * Pow(b, k)
  {
    if k > 0 {
      CutInterval(b.Div(n), b, k - 1, t);
      TimesAssoc(t, Pow(b, k - 1), b);
      TimesAssoc(t + 1, Pow(b, k - 1), b);
    }
  }

  /** The first digit bounds a number. */
  lemma {:induction false} LeadingDigit(s: seq<nat>, b: Base)
    requires s != [] && Proper(s, b)
    ensures s[0] * Pow(b, |s| - 1) <= Value(s, b) < (s[0] + 1) * Pow(b, |s| - 1)
  {
    if |s| > 1 {
      var t := s[..|s| - 1];
      LeadingDigit(t, b);
      TimesAssoc(s[0], Pow(b, |t| - 1), b);
      TimesAssoc(s[0] + 1, Pow(b, |t| - 1), b);
    }
  }

  lemma {:induction false} DigitsOfCut(n: nat, b: Base, k: nat)
    requires Cut(n, b, k) > 0
    ensures |Digits(n, b)| == |Digits(Cut(n, b, k), b)| + k
  {
    if k > 0 {
      DigitsOfCut(b.Div(n), b, k - 1);
    }
  }

  /** The digits of n start with those of t exactly when cutting n down to as many digits leaves t. */
  lemma StartsWith(n: nat, t: nat, b: Base)
    ensures var m, k := |Digits(t, b)|, |Digits(n, b)|;
      Digits(t, b) <= Digits(n, b) <==> k >= m && Cut(n, b, k - m) == t
  {
    hide Digits, Cut, Value;
    var m, k := |Digits(t, b)|, |Digits(n, b)|;
    if k >= m {
      CutDigits(n, b, k - m);
      var h := Cut(n, b, k - m);
      assert Digits(h, b) == Digits(n, b)[..m];
      if Digits(h, b) == Digits(t, b) {
        ValueOfDigits(t, b);
        ValueOfDigits(h, b);
      }
    }
  }
}
