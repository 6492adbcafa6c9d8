/**
 * prefix_case_iter of pattern.c: the spellings of a prefix in upper and lower case that consist of Base58 characters.
 */
module CaseVariants {
  import opened Base58
  import opened Characters
  import opened PrefixRanges

  predicate IsLetter(c: char) { IsUpper(c) || IsLower(c) }

  /** c & 0xdf and c ^ 0x20, for a letter. */
  function Upper(c: char): char { if IsLower(c) then (c as int - 32) as char else c }

  function Swapped(c: char): char { if IsUpper(c) then Lower(c) else Upper(c) }

  datatype CaseClass = Fixed | Swappable | Misspelt

  /** b58_case_map */
  function CaseMap(c: char): CaseClass {
    if c in {'I', 'O', 'l'} then Misspelt
    else if IsLetter(c) && c !in {'L', 'i', 'o'} then Swappable
    else Fixed
  }

  /** v spells the same letters as pfx, in Base58 characters; whatever is not a letter stays as it is. */
  ghost predicate Spelling(pfx: string, v: string) {
    |v| == |pfx| && forall k :: 0 <= k < |v| ==> Lower(v[k]) == Lower(pfx[k]) && (IsLetter(v[k]) ==> ReverseMap(v[k]) >= 0)
  }

  /** How many characters before k can be written both ways. */
  function Rank(pfx: string, k: nat): (r: nat)
    requires k <= |pfx|
    ensures r <= k
  {
    if k == 0 then 0 else Rank(pfx, k - 1) + if CaseMap(pfx[k - 1]).Swappable? then 1 else 0
  }

  function Bits(pfx: string): nat { Rank(pfx, |pfx|) }

  /** val without its lowest i bits. */
  function Shifted(val: nat, i: nat): nat {
    if i == 0 then val else Shifted(val / 2, i - 1)
  }

  lemma {:induction false} ShiftOnce(val: nat, i: nat)
    ensures Shifted(val, i + 1) == Shifted(val, i) / 2
  {
    if i > 0 {
      ShiftOnce(val / 2, i - 1);
    }
  }

  /** Bit i of val. */
  predicate Bit(val: nat, i: nat) {
    Shifted(val, i) % 2 == 1
  }

  function SpellChar(pfx: string, k: nat, val: nat): char
    requires k < |pfx|
  {
    match CaseMap(pfx[k])
    case Fixed => pfx[k]
    case Misspelt => Swapped(pfx[k])
    case Swappable => if Bit(val, Rank(pfx, k)) then Upper(pfx[k]) else Lower(pfx[k])
  }

  /** The spelling whose letters are upper case where val has ones. */
  function Spell(pfx: string, val: nat): (v: string)
    ensures |v| == |pfx| && forall k :: 0 <= k < |v| ==> v[k] == SpellChar(pfx, k, val)
  {
    seq(|pfx|, k requires 0 <= k < |pfx| => SpellChar(pfx, k, val))
  }

  lemma SpellIsSpelling(pfx: string, val: nat)
    ensures Spelling(pfx, Spell(pfx, val))
  {
  }

  lemma {:induction false} RankMonotone(pfx: string, i: nat, k: nat)
    requires i <= k <= |pfx|
    ensures Rank(pfx, i) <= Rank(pfx, k)
    ensures i < k && CaseMap(pfx[i]).Swappable? ==> Rank(pfx, i) < Rank(pfx, k)
  {
    if i < k {
      RankMonotone(pfx, i, k - 1);
    }
  }

  /** A number below the power is made of its bits. */
  lemma {:induction false} BitsDetermine(a: nat, b: nat, n: nat)
    requires a < Pow2(n) && b < Pow2(n) && forall i :: 0 <= i < n ==> (Bit(a, i) <==> Bit(b, i))
    ensures a == b
  {
    if n > 0 {
      assert Bit(a, 0) <==> Bit(b, 0);
      forall i | 0 <= i < n - 1 ensures Bit(a / 2, i) <==> Bit(b / 2, i) {
        assert Bit(a, i + 1) <==> Bit(b, i + 1);
      }
      BitsDetermine(a / 2, b / 2, n - 1);
    }
  }

  lemma {:induction false} NumberOfBits(bits: seq<bool>) returns (val: nat)
    ensures val < Pow2(|bits|) && forall i :: 0 <= i < |bits| ==> (Bit(val, i) <==> bits[i])
  {
    val := 0;
    if bits != [] {
      var rest := NumberOfBits(bits[1..]);
      val := 2 * rest + if bits[0] then 1 else 0;
      forall i | 0 <= i < |bits| ensures Bit(val, i) <==> bits[i] {
        if i > 0 {
          assert Bit(val, i) <==> Bit(rest, i - 1);
          assert bits[1..][i - 1] == bits[i];
        }
      }
    }
  }

  /** The swappable character with a given rank. */
  lemma {:induction false} AtRank(pfx: string, n: nat, r: nat) returns (k: nat)
    requires n <= |pfx| && r < Rank(pfx, n)
    ensures k < n && CaseMap(pfx[k]).Swappable? && Rank(pfx, k) == r
  {
    if r < Rank(pfx, n - 1) {
      k := AtRank(pfx, n - 1, r);
    } else {
      k := n - 1;
    }
  }

  /** Different numbers give different spellings. */
  lemma SpellingsDiffer(pfx: string, a: nat, b: nat)
    requires a < Pow2(Bits(pfx)) && b < Pow2(Bits(pfx)) && Spell(pfx, a) == Spell(pfx, b)
    ensures a == b
  {
    forall r | 0 <= r < Bits(pfx) ensures Bit(a, r) <==> Bit(b, r) {
      var k := AtRank(pfx, |pfx|, r);
      assert Spell(pfx, a)[k] == Spell(pfx, b)[k];
    }
    BitsDetermine(a, b, Bits(pfx));
  }

  lemma {:induction false} UpperBits(pfx: string, v: string, n: nat) returns (bits: seq<bool>)
    requires n <= |pfx| == |v|
    ensures |bits| == Rank(pfx, n)
    ensures forall k :: 0 <= k < n && CaseMap(pfx[k]).Swappable? ==>
      Rank(pfx, k) < |bits| && (bits[Rank(pfx, k)] <==> IsUpper(v[k]))
  {
    bits := [];
    if n > 0 {
      bits := UpperBits(pfx, v, n - 1);
      if CaseMap(pfx[n - 1]).Swappable? {
        bits := bits + [IsUpper(v[n - 1])];
      }
    }
  }

  /** Every spelling has a number. */
  lemma EverySpelling(pfx: string, v: string) returns (val: nat)
    requires Spelling(pfx, v)
    ensures val < Pow2(Bits(pfx)) && v == Spell(pfx, val)
  {
    var bits := UpperBits(pfx, v, |pfx|);
    val := NumberOfBits(bits);
    forall k | 0 <= k < |v| ensures v[k] == SpellChar(pfx, k, val) {
      SpelledSo(pfx[k], v[k]);
    }
  }

  lemma SpelledSo(c: char, v: char)
    requires Lower(v) == Lower(c) && (IsLetter(v) ==> ReverseMap(v) >= 0)
    ensures CaseMap(c).Fixed? ==> v == c
    ensures CaseMap(c).Misspelt? ==> v == Swapped(c)
    ensures CaseMap(c).Swappable? ==> v == if IsUpper(v) then Upper(c) else Lower(c)
  {
  }

  /** The character k can be written both ways, and i characters that can are before it. */
  ghost predicate Pending(pfx: string, k: nat, i: nat)
    requires k < |pfx|
  {
    CaseMap(pfx[k]).Swappable? && Rank(pfx, k) >= i
  }

  lemma OnlyOne(pfx: string, p: nat, k: nat)
    requires p < |pfx| && k < |pfx| && k != p && CaseMap(pfx[p]).Swappable? && CaseMap(pfx[k]).Swappable?
    ensures Rank(pfx, k) != Rank(pfx, p)
  {
    RankMonotone(pfx, if k < p then k else p, if k < p then p else k);
  }

  /** The characters are those of val, but for those to be written yet. */
  ghost predicate SpelledUpTo(pfx: string, v: string, val: nat, i: nat)
    requires |v| == |pfx|
  {
    forall k :: 0 <= k < |pfx| && !Pending(pfx, k, i) ==> v[k] == SpellChar(pfx, k, val)
  }

  lemma SpellOne(pfx: string, v: string, val: nat, p: nat)
    requires |v| == |pfx| && p < |pfx| && CaseMap(pfx[p]).Swappable? && SpelledUpTo(pfx, v, val, Rank(pfx, p))
    ensures SpelledUpTo(pfx, v[p := SpellChar(pfx, p, val)], val, Rank(pfx, p) + 1)
  {
    forall k | 0 <= k < |pfx| && k != p && CaseMap(pfx[k]).Swappable? ensures Rank(pfx, k) != Rank(pfx, p) {
      OnlyOne(pfx, p, k);
    }
  }

  lemma SpelledAll(pfx: string, v: string, val: nat)
    requires |v| == |pfx| && SpelledUpTo(pfx, v, val, Bits(pfx))
    ensures v == Spell(pfx, val)
  {
    forall k | 0 <= k < |pfx| ensures !Pending(pfx, k, Bits(pfx)) {
      RankMonotone(pfx, k, |pfx|);
    }
  }

  /** prefix_case_iter_t, with the spelling it stands at. */
  class CaseIter {
    var prefix: seq<char>
    var caseMap: seq<nat>
    var value: nat
    const pattern: string

    ghost predicate Valid()
      reads this
    {
      && value < Pow2(Bits(pattern)) && prefix == Spell(pattern, value) && |caseMap| == Bits(pattern)
      && forall i :: 0 <= i < |caseMap| ==>
        caseMap[i] < |pattern| && CaseMap(pattern[caseMap[i]]).Swappable? && Rank(pattern, caseMap[i]) == i
    }

    /** prefix_case_iter_init, for a prefix that fits the buffer. */
    constructor (pfx: string)
      ensures Valid() && value == 0 && pattern == pfx
    {
      pattern, value := pfx, 0;
      prefix, caseMap := [], [];
      new;
      ZeroBits(|pfx|);
      for i := 0 to |pfx|
        invariant value == 0 && pattern == pfx && |prefix| == i && |caseMap| == Rank(pfx, i)
        invariant forall k :: 0 <= k < i ==> prefix[k] == SpellChar(pfx, k, 0)
        invariant forall k :: 0 <= k < |caseMap| ==>
          caseMap[k] < i && CaseMap(pfx[caseMap[k]]).Swappable? && Rank(pfx, caseMap[k]) == k
      {
        match CaseMap(pfx[i])
        case Fixed => prefix := prefix + [pfx[i]];
        case Misspelt => prefix := prefix + [Swapped(pfx[i])];
        case Swappable =>
          prefix := prefix + [Lower(pfx[i])];
          caseMap := caseMap + [i];
      }
    }

    /** prefix_case_iter_next: the next spelling, if there is one. */
    method Next() returns (more: bool)
      requires Valid()
      modifies this`prefix, this`value
      ensures Valid() && more == (old(value) + 1 < Pow2(Bits(pattern)))
      ensures value == if more then old(value) + 1 else old(value)
    {
      var nbits := |caseMap|;
      var max := Pow2(nbits) - 1;
      var val := value + 1;
      if val > max {
        return false;
      }
      var rest := val;
      for i := 0 to nbits
        invariant |prefix| == |pattern| && value == old(value) && rest == Shifted(val, i)
        invariant SpelledUpTo(pattern, prefix, val, i)
      {
        SpellOne(pattern, prefix, val, caseMap[i]);
        prefix := prefix[caseMap[i] := if rest % 2 == 1 then Upper(pattern[caseMap[i]]) else Lower(pattern[caseMap[i]])];
        ShiftOnce(val, i);
        rest := rest / 2;
      }
      SpelledAll(pattern, prefix, val);
      value := val;
      more := true;
    }
  }

  lemma {:induction false} ZeroBits(n: nat)
    ensures forall i :: 0 <= i < n ==> !Bit(0, i)
  {
    if n > 0 {
      ZeroBits(n - 1);
      assert n > 1 ==> (Bit(0, n - 1) <==> Bit(0, n - 2));
    }
  }
}
