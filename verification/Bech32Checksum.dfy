/**
 * The checksum of BIP 173 and BIP 350 as bech32.c computes it: a 30-bit state, one step per 5-bit symbol.
 *
 * Everything rests on the step being linear and one-to-one: the checksum of a difference is the difference of the
 * checksums, and zeros neither make nor lose a difference. So six symbols at the end can be chosen in one way only, and
 * strings that differ within six neighbouring symbols never have the same checksum.
 */
module Bech32Checksum {

  /** Addition without carry. */
  function Plus(x: bv32, y: bv32): bv32 { x ^ y }

  function Half(b: bv32): bv32 { b >> 1 }

  /** b >> k, one bit at a time. */
  function Shifted(b: bv32, k: nat): bv32 {
    if k == 0 then b else Half(Shifted(b, k - 1))
  }

  /** -(b & 1) */
  function Sign(b: bv32): bv32 { 0 - (b & 1) }

  function And(b: bv32, g: bv32): bv32 { b & g }

  /** -((b >> k) & 1) & g */
  function Masked(b: bv32, k: nat, g: bv32): bv32 { And(Sign(Shifted(b, k)), g) }

  /** What the five bits that move out put back in. */
  function Generator(b: bv32): bv32 {
    Plus(Plus(Plus(Plus(Masked(b, 0, 0x3b6a57b2), Masked(b, 1, 0x26508e6d)), Masked(b, 2, 0x1ea119fa)),
              Masked(b, 3, 0x3d4233dd)),
         Masked(b, 4, 0x2a1462b3))
  }

  /** bech32_polymod_step */
  function Step(pre: bv32): bv32 {
    Plus(Low(pre), Generator(High(pre)))
  }

  function Low(pre: bv32): bv32 { (pre & 0x1FFFFFF) << 5 }

  function High(pre: bv32): bv32 { pre >> 25 }

  /** The state after a string of symbols. */
  function Poly(chk: bv32, s: seq<bv32>): bv32 {
    if s == [] then chk else Plus(Step(Poly(chk, s[..|s| - 1])), s[|s| - 1])
  }

  predicate Symbols(s: seq<bv32>) {
    forall i :: 0 <= i < |s| ==> s[i] < 32
  }

  predicate IsState(x: bv32) { x < 0x4000_0000 }

  // ---- Linearity

  lemma HalfXor(x: bv32, y: bv32)
    ensures Half(x ^ y) == Half(x) ^ Half(y)
  {
  }

  lemma HalfPlus(x: bv32, y: bv32)
    ensures Half(Plus(x, y)) == Plus(Half(x), Half(y))
  {
    hide Half;
    HalfXor(x, y);
  }

  lemma SignXor(x: bv32, y: bv32)
    ensures Sign(x ^ y) == Sign(x) ^ Sign(y)
  {
  }

  lemma AndXor(x: bv32, y: bv32, g: bv32)
    ensures And(x ^ y, g) == And(x, g) ^ And(y, g)
  {
  }

  lemma {:induction false} ShiftedPlus(x: bv32, y: bv32, k: nat)
    ensures Shifted(Plus(x, y), k) == Plus(Shifted(x, k), Shifted(y, k))
  {
    hide Half, Plus;
    if k > 0 {
      ShiftedPlus(x, y, k - 1);
      HalfPlus(Shifted(x, k - 1), Shifted(y, k - 1));
    }
  }

  lemma SignPlus(x: bv32, y: bv32)
    ensures Sign(Plus(x, y)) == Plus(Sign(x), Sign(y))
  {
    hide Sign;
    SignXor(x, y);
  }

  lemma AndPlus(x: bv32, y: bv32, g: bv32)
    ensures And(Plus(x, y), g) == Plus(And(x, g), And(y, g))
  {
    hide And;
    AndXor(x, y, g);
  }

  lemma MaskedPlus(x: bv32, y: bv32, k: nat, g: bv32)
    ensures Masked(Plus(x, y), k, g) == Plus(Masked(x, k, g), Masked(y, k, g))
  {
    hide Shifted, Sign, And, Plus;
    ShiftedPlus(x, y, k);
    SignPlus(Shifted(x, k), Shifted(y, k));
    AndPlus(Sign(Shifted(x, k)), Sign(Shifted(y, k)), g);
  }

  lemma FivePairs(a: bv32, a': bv32, b: bv32, b': bv32, c: bv32, c': bv32, d: bv32, d': bv32, e: bv32, e': bv32)
    ensures Plus(Plus(Plus(Plus(Plus(a, a'), Plus(b, b')), Plus(c, c')), Plus(d, d')), Plus(e, e'))
      == Plus(Plus(Plus(Plus(Plus(a, b), c), d), e), Plus(Plus(Plus(Plus(a', b'), c'), d'), e'))
  {
    hide Plus;
    FourPlus(a, a', b, b');
    FourPlus(Plus(a, b), Plus(a', b'), c, c');
    FourPlus(Plus(Plus(a, b), c), Plus(Plus(a', b'), c'), d, d');
    FourPlus(Plus(Plus(Plus(a, b), c), d), Plus(Plus(Plus(a', b'), c'), d'), e, e');
  }

  lemma GeneratorPlus(x: bv32, y: bv32)
    ensures Generator(Plus(x, y)) == Plus(Generator(x), Generator(y))
  {
    hide Masked, Plus;
    MaskedPlus(x, y, 0, 0x3b6a57b2);
    MaskedPlus(x, y, 1, 0x26508e6d);
    MaskedPlus(x, y, 2, 0x1ea119fa);
    MaskedPlus(x, y, 3, 0x3d4233dd);
    MaskedPlus(x, y, 4, 0x2a1462b3);
    FivePairs(Masked(x, 0, 0x3b6a57b2), Masked(y, 0, 0x3b6a57b2), Masked(x, 1, 0x26508e6d), Masked(y, 1, 0x26508e6d),
              Masked(x, 2, 0x1ea119fa), Masked(y, 2, 0x1ea119fa), Masked(x, 3, 0x3d4233dd), Masked(y, 3, 0x3d4233dd),
              Masked(x, 4, 0x2a1462b3), Masked(y, 4, 0x2a1462b3));
  }

  lemma PartsPlus(x: bv32, y: bv32)
    ensures High(Plus(x, y)) == Plus(High(x), High(y)) && Low(Plus(x, y)) == Plus(Low(x), Low(y))
  {
  }

  lemma StepPlus(x: bv32, y: bv32)
    ensures Step(Plus(x, y)) == Plus(Step(x), Step(y))
  {
    hide Generator, Low, High, Plus;
    PartsPlus(x, y);
    GeneratorPlus(High(x), High(y));
    FourPlus(Low(x), Low(y), Generator(High(x)), Generator(High(y)));
  }

  lemma StepOfZero()
    ensures Step(0) == 0
  {
  }

  lemma StepRange(x: bv32)
    ensures IsState(Step(x))
  {
  }

  lemma StepOfSmall(x: bv32)
    requires x < 0x200_0000
    ensures Step(x) == x << 5
  {
  }

  lemma StepZero(x: bv32)
    requires IsState(x) && Step(x) == 0
    ensures x == 0
  {
  }

  lemma PlusZero(x: bv32)
    ensures Plus(x, 0) == x && Plus(0, x) == x && Plus(x, x) == 0
  {
  }

  lemma PlusCancels(x: bv32, y: bv32)
    ensures Plus(x, y) == 0 <==> x == y
  {
  }

  lemma XorMoves(x: bv32, y: bv32, z: bv32)
    ensures x ^ y == z <==> y == x ^ z
  {
  }

  lemma PlusMoves(x: bv32, y: bv32, z: bv32)
    ensures Plus(x, y) == z <==> y == Plus(x, z)
  {
    XorMoves(x, y, z);
  }

  lemma PlusState(x: bv32, y: bv32)
    requires IsState(x) && IsState(y)
    ensures IsState(Plus(x, y))
  {
  }

  lemma PlusComm(a: bv32, b: bv32)
    ensures Plus(a, b) == Plus(b, a)
  {
  }

  lemma PlusAssoc(a: bv32, b: bv32, c: bv32)
    ensures Plus(Plus(a, b), c) == Plus(a, Plus(b, c))
  {
  }

  lemma FourPlus(a: bv32, b: bv32, c: bv32, d: bv32)
    ensures Plus(Plus(a, b), Plus(c, d)) == Plus(Plus(a, c), Plus(b, d))
  {
    hide Plus;
    PlusAssoc(a, b, Plus(c, d));
    PlusAssoc(b, c, d);
    PlusComm(b, c);
    PlusAssoc(c, b, d);
    PlusAssoc(a, c, Plus(b, d));
  }

  lemma SymbolIsState(v: bv32)
    requires v < 32
    ensures IsState(v)
  {
  }

  /** The step is one-to-one on states. */
  lemma StepInjective(x: bv32, y: bv32)
    requires IsState(x) && IsState(y) && Step(x) == Step(y)
    ensures x == y
  {
    hide Step, Plus, IsState;
    StepPlus(x, y);
    PlusCancels(Step(x), Step(y));
    PlusCancels(x, y);
    PlusState(x, y);
    StepZero(Plus(x, y));
  }

  // ---- Strings

  /** The difference of two strings. */
  function Difference(s: seq<bv32>, t: seq<bv32>): (r: seq<bv32>)
    requires |s| == |t|
    ensures |r| == |s| && forall i :: 0 <= i < |r| ==> r[i] == Plus(s[i], t[i])
  {
    seq(|s|, i requires 0 <= i < |s| => Plus(s[i], t[i]))
  }

  /** The checksum of a difference is the difference of the checksums. */
  lemma {:induction false} PolyPlus(x: bv32, y: bv32, s: seq<bv32>, t: seq<bv32>)
    requires |s| == |t|
    ensures Poly(Plus(x, y), Difference(s, t)) == Plus(Poly(x, s), Poly(y, t))
  {
    hide Step, Plus;
    if s != [] {
      var n := |s| - 1;
      assert Difference(s, t)[..n] == Difference(s[..n], t[..n]);
      PolyPlus(x, y, s[..n], t[..n]);
      StepPlus(Poly(x, s[..n]), Poly(y, t[..n]));
      FourPlus(Step(Poly(x, s[..n])), Step(Poly(y, t[..n])), s[n], t[n]);
    }
  }

  lemma {:induction false} PolyConcat(x: bv32, s: seq<bv32>, t: seq<bv32>)
    ensures Poly(x, s + t) == Poly(Poly(x, s), t)
  {
    hide Step, Plus;
    if t == [] {
      assert s + t == s;
    } else {
      var n := |t| - 1;
      assert (s + t)[..|s| + n] == s + t[..n];
      PolyConcat(x, s, t[..n]);
    }
  }

  lemma {:induction false} PolyState(x: bv32, s: seq<bv32>)
    requires IsState(x) && Symbols(s)
    ensures IsState(Poly(x, s))
  {
    hide Step, Plus, IsState;
    if s != [] {
      PolyState(x, s[..|s| - 1]);
      StepRange(Poly(x, s[..|s| - 1]));
      SymbolIsState(s[|s| - 1]);
      PlusState(Step(Poly(x, s[..|s| - 1])), s[|s| - 1]);
    }
  }

  lemma PolyNone(x: bv32, s: seq<bv32>)
    requires s == []
    ensures Poly(x, s) == x
  {
  }

  function Zeros(n: nat): (s: seq<bv32>)
    ensures |s| == n && Symbols(s) && forall i :: 0 <= i < n ==> s[i] == 0
  {
    seq(n, _ => 0)
  }

  /** Zeros neither make nor lose a difference. */
  lemma {:induction false} PolyOfZeros(x: bv32, n: nat)
    requires IsState(x)
    ensures Poly(x, Zeros(n)) == 0 <==> x == 0
  {
    hide Step, Plus, IsState;
    if n > 0 {
      var z := Zeros(n);
      assert z[..n - 1] == Zeros(n - 1);
      PolyOfZeros(x, n - 1);
      PolyState(x, Zeros(n - 1));
      var p := Poly(x, Zeros(n - 1));
      PlusZero(Step(p));
      StepOfZero();
      if Step(p) == 0 {
        StepZero(p);
      }
    }
  }

  // ---- Six symbols

  /** Six symbols next to each other in one word. */
  function Pack(s: seq<bv32>): bv32
    requires |s| == 6
  {
    Word(s[0], s[1], s[2], s[3], s[4], s[5])
  }

  function Word(a: bv32, b: bv32, c: bv32, d: bv32, e: bv32, f: bv32): bv32 {
    (a << 25) ^ (b << 20) ^ (c << 15) ^ (d << 10) ^ (e << 5) ^ f
  }

  /** Symbol i of a word, (c >> ((5 - i) * 5)) & 0x1f. */
  function Part(c: bv32, i: nat): bv32
    requires i < 6
  {
    (if i == 0 then c >> 25 else if i == 1 then c >> 20 else if i == 2 then c >> 15
     else if i == 3 then c >> 10 else if i == 4 then c >> 5 else c) & 0x1f
  }

  function Unpack(c: bv32): (s: seq<bv32>)
    ensures |s| == 6
  {
    [Part(c, 0), Part(c, 1), Part(c, 2), Part(c, 3), Part(c, 4), Part(c, 5)]
  }

  lemma WordParts(c: bv32)
    requires IsState(c)
    ensures Word((c >> 25) & 0x1f, (c >> 20) & 0x1f, (c >> 15) & 0x1f, (c >> 10) & 0x1f, (c >> 5) & 0x1f, c & 0x1f) == c
  {
  }

  lemma PartIsSymbol(c: bv32, i: nat)
    requires i < 6
    ensures Part(c, i) < 32
  {
  }

  lemma PartsOfWord(a: bv32, b: bv32, c: bv32, d: bv32, e: bv32, f: bv32)
    requires a < 32 && b < 32 && c < 32 && d < 32 && e < 32 && f < 32
    ensures var w := Word(a, b, c, d, e, f);
      && IsState(w) && (w >> 25) & 0x1f == a && (w >> 20) & 0x1f == b && (w >> 15) & 0x1f == c
      && (w >> 10) & 0x1f == d && (w >> 5) & 0x1f == e && w & 0x1f == f
  {
  }

  lemma UnpackSymbols(c: bv32)
    ensures Symbols(Unpack(c))
  {
    hide Part;
    PartIsSymbol(c, 0);
    PartIsSymbol(c, 1);
    PartIsSymbol(c, 2);
    PartIsSymbol(c, 3);
    PartIsSymbol(c, 4);
    PartIsSymbol(c, 5);
  }

  /** A word of 30 bits and six symbols: two forms of the same. */
  lemma PackUnpack(c: bv32, s: seq<bv32>)
    requires IsState(c) && |s| == 6 && Symbols(s)
    ensures Pack(s) == c <==> s == Unpack(c)
  {
    hide Word, IsState;
    if s == Unpack(c) {
      WordParts(c);
    }
    if Pack(s) == c {
      PartsOfWord(s[0], s[1], s[2], s[3], s[4], s[5]);
      assert s == [s[0], s[1], s[2], s[3], s[4], s[5]];
    }
  }

  /** Room for one more symbol. */
  function Append(a: bv32, b: bv32): bv32 { (a << 5) ^ b }

  predicate Holds(a: bv32, n: nat) {
    n < 7 && a < [1, 0x20, 0x400, 0x8000, 0x10_0000, 0x200_0000, 0x4000_0000][n]
  }

  lemma AppendHolds(a: bv32, b: bv32, n: nat)
    requires n < 6 && Holds(a, n) && b < 32
    ensures Holds(Append(a, b), n + 1)
  {
    if n == 0 {
      assert (a << 5) ^ b < 0x20;
    } else if n == 1 {
      assert (a << 5) ^ b < 0x400;
    } else if n == 2 {
      assert (a << 5) ^ b < 0x8000;
    } else if n == 3 {
      assert (a << 5) ^ b < 0x10_0000;
    } else if n == 4 {
      assert (a << 5) ^ b < 0x200_0000;
    } else {
      assert (a << 5) ^ b < 0x4000_0000;
    }
  }

  function Appended(s: seq<bv32>): bv32 {
    if s == [] then 0 else Append(Appended(s[..|s| - 1]), s[|s| - 1])
  }

  lemma HoldsFew(a: bv32, n: nat)
    requires n < 6 && Holds(a, n)
    ensures a < 0x200_0000
  {
  }

  lemma StepOfFew(a: bv32, b: bv32, n: nat)
    requires n < 6 && Holds(a, n)
    ensures Plus(Step(a), b) == Append(a, b)
  {
    hide Step, Holds;
    HoldsFew(a, n);
    StepOfSmall(a);
  }

  /** Starting from nothing, up to six symbols just move in. */
  lemma {:induction false} PolyOfFew(s: seq<bv32>)
    requires |s| <= 6 && Symbols(s)
    ensures Poly(0, s) == Appended(s) && Holds(Appended(s), |s|)
  {
    hide Step, Plus, Append;
    if s != [] {
      var n := |s| - 1;
      PolyOfFew(s[..n]);
      StepOfFew(Appended(s[..n]), s[n], n);
      AppendHolds(Appended(s[..n]), s[n], n);
    }
  }

  lemma FirstAppend(a: bv32)
    ensures Append(0, a) == a
  {
  }

  lemma Horner(a: bv32, b: bv32, c: bv32, d: bv32, e: bv32, f: bv32)
    requires a < 32 && b < 32 && c < 32 && d < 32 && e < 32 && f < 32
    ensures Append(Append(Append(Append(Append(a, b), c), d), e), f) == Word(a, b, c, d, e, f)
  {
  }

  lemma PolyOfSix(s: seq<bv32>)
    requires |s| == 6 && Symbols(s)
    ensures Poly(0, s) == Pack(s)
  {
    hide Step, Plus, Append, Word, Poly, Holds;
    PolyOfFew(s);
    FirstAppend(s[0]);
    Horner(s[0], s[1], s[2], s[3], s[4], s[5]);
    assert s[..5][..4] == s[..4] && s[..4][..3] == s[..3] && s[..3][..2] == s[..2]
      && s[..2][..1] == s[..1] && s[..1][..0] == [];
    assert Appended(s[..0]) == 0;
    assert Appended(s[..2]) == Append(Append(0, s[0]), s[1]);
    assert Appended(s[..4]) == Append(Append(Appended(s[..2]), s[2]), s[3]);
  }

  /** Of all six symbols that could end a string, exactly one choice makes the checksum come out as a given constant. */
  lemma LastSix(x: bv32, cs: seq<bv32>, target: bv32)
    requires IsState(x) && IsState(target) && |cs| == 6 && Symbols(cs)
    ensures Poly(x, cs) == target <==> cs == Unpack(Plus(Poly(x, Zeros(6)), target))
  {
    hide Step, Plus, Poly, Pack, Unpack, IsState, Symbols;
    var p := Poly(x, Zeros(6));
    PolyState(x, Zeros(6));
    PlusState(p, target);
    assert Difference(Zeros(6), cs) == cs by {
      forall i | 0 <= i < 6 ensures Difference(Zeros(6), cs)[i] == cs[i] {
        PlusZero(cs[i]);
      }
    }
    PlusZero(x);
    PolyPlus(x, 0, Zeros(6), cs);
    PolyOfSix(cs);
    PlusMoves(p, Pack(cs), target);
    PackUnpack(Plus(p, target), cs);
  }

  // ---- Bursts of errors

  lemma {:induction false} PolyOfNothing(n: nat)
    ensures Poly(0, Zeros(n)) == 0
  {
    assert IsState(0);
    PolyOfZeros(0, n);
  }

  /** A word that starts with zeros is zero only if the rest is. */
  lemma PackZero(w: seq<bv32>)
    requires |w| == 6 && Symbols(w) && Pack(w) == 0
    ensures w == Zeros(6)
  {
    PartsOfWord(w[0], w[1], w[2], w[3], w[4], w[5]);
    assert w == [w[0], w[1], w[2], w[3], w[4], w[5]];
  }

  lemma DifferenceOfSymbols(s: seq<bv32>, t: seq<bv32>)
    requires |s| == |t| && Symbols(s) && Symbols(t)
    ensures Symbols(Difference(s, t))
    ensures forall i :: 0 <= i < |s| ==> (Difference(s, t)[i] == 0 <==> s[i] == t[i])
  {
  }

  /** Six symbols among zeros show unless they are zeros. */
  lemma BurstIsSeen(before: nat, w: seq<bv32>, after: nat)
    requires |w| == 6 && Symbols(w) && Poly(0, Zeros(before) + (w + Zeros(after))) == 0
    ensures w == Zeros(6)
  {
    hide Step, Plus, Poly, Pack, IsState;
    PolyConcat(0, Zeros(before), w + Zeros(after));
    PolyOfNothing(before);
    PolyConcat(0, w, Zeros(after));
    SymbolIsState(0);
    PolyState(0, w);
    PolyOfZeros(Poly(0, w), after);
    PolyOfSix(w);
    PackZero(w);
  }

  /** Strings that differ, but only in six neighbouring symbols, differ in their checksums. */
  lemma BurstDetected(x: bv32, s: seq<bv32>, t: seq<bv32>, at: nat)
    requires IsState(x) && |s| == |t| && at + 6 <= |s| && Symbols(s) && Symbols(t)
    requires forall i :: 0 <= i < |s| && !(at <= i < at + 6) ==> s[i] == t[i]
    requires Poly(x, s) == Poly(x, t)
    ensures s == t
  {
    hide Step, Plus, Poly, Pack, IsState;
    var d := Difference(s, t);
    var w := d[at..at + 6];
    DifferenceOfSymbols(s, t);
    PolyPlus(x, x, s, t);
    PlusCancels(Poly(x, s), Poly(x, t));
    PlusZero(x);
    assert d == Zeros(at) + (w + Zeros(|s| - at - 6));
    BurstIsSeen(at, w, |s| - at - 6);
    forall i | 0 <= i < |s| ensures s[i] == t[i] {
      if at <= i < at + 6 {
        assert d[i] == w[i - at];
      }
    }
  }

  // ---- The code

  /** Multiplication by the generator of GF(32), whose fifth power is the third plus one. */
  function Double(v: bv32): bv32 {
    ((v << 1) ^ (if v & 16 != 0 then 0x29 else 0)) & 0x1f
  }

  /** Multiplication in GF(32). */
  function Times(a: bv32, b: bv32): bv32 {
    Plus(Plus(Plus(Plus(Masked(a, 0, b), Masked(a, 1, Double(b))), Masked(a, 2, Double(Double(b)))),
              Masked(a, 3, Double(Double(Double(b))))),
         Masked(a, 4, Double(Double(Double(Double(b))))))
  }

  /** The six coefficients below the first of the generator polynomial. */
  const COEFFICIENTS: seq<bv32> := [29, 22, 20, 21, 29, 18]

  lemma PartOfXor(x: bv32, y: bv32, i: nat)
    requires i < 6
    ensures Part(x ^ y, i) == Part(x, i) ^ Part(y, i)
  {
    if i == 0 {
    } else if i == 1 {
    } else if i == 2 {
    } else if i == 3 {
    } else if i == 4 {
    } else {
    }
  }

  lemma PartOfPlus(x: bv32, y: bv32, i: nat)
    requires i < 6
    ensures Part(Plus(x, y), i) == Plus(Part(x, i), Part(y, i))
  {
    hide Part;
    PartOfXor(x, y, i);
  }

  lemma PartOfMasked(b: bv32, k: nat, g: bv32, i: nat)
    requires i < 6
    ensures Part(Masked(b, k, g), i) == Masked(b, k, Part(g, i))
  {
    hide Shifted, Part;
    AllOrNothing(Shifted(b, k));
    PartOfAnd(Sign(Shifted(b, k)), g, i);
  }

  lemma AllOrNothing(b: bv32)
    ensures Sign(b) in {0, 0xffff_ffff}
  {
  }

  lemma PartOfAnd(m: bv32, g: bv32, i: nat)
    requires i < 6 && m in {0, 0xffff_ffff}
    ensures Part(And(m, g), i) == And(m, Part(g, i))
  {
    hide Part;
    if m == 0 {
      PartOfZero(i);
    }
    assert And(0xffff_ffff, g) == g && And(0xffff_ffff, Part(g, i)) == Part(g, i);
  }

  lemma PartOfZero(i: nat)
    requires i < 6
    ensures Part(0, i) == 0
  {
  }

  /** The five constants are the generator polynomial and its multiples by the powers of the generator of GF(32). */
  lemma ConstantsAre(i: nat)
    requires i < 6
    ensures var c := COEFFICIENTS[i];
      && Part(0x3b6a57b2, i) == c && Part(0x26508e6d, i) == Double(c) && Part(0x1ea119fa, i) == Double(Double(c))
      && Part(0x3d4233dd, i) == Double(Double(Double(c))) && Part(0x2a1462b3, i) == Double(Double(Double(Double(c))))
  {
  }

  /** What the step puts back in for the symbol that moves out: its multiple of the generator polynomial. */
  lemma GeneratorSymbols(b: bv32, i: nat)
    requires i < 6
    ensures Part(Generator(b), i) == Times(b, COEFFICIENTS[i])
  {
    hide Masked, Plus, Part, Double;
    ConstantsAre(i);
    PartOfMasked(b, 0, 0x3b6a57b2, i);
    PartOfMasked(b, 1, 0x26508e6d, i);
    PartOfMasked(b, 2, 0x1ea119fa, i);
    PartOfMasked(b, 3, 0x3d4233dd, i);
    PartOfMasked(b, 4, 0x2a1462b3, i);
    var x, y, z, u, v := Masked(b, 0, 0x3b6a57b2), Masked(b, 1, 0x26508e6d), Masked(b, 2, 0x1ea119fa),
      Masked(b, 3, 0x3d4233dd), Masked(b, 4, 0x2a1462b3);
    PartOfPlus(x, y, i);
    PartOfPlus(Plus(x, y), z, i);
    PartOfPlus(Plus(Plus(x, y), z), u, i);
    PartOfPlus(Plus(Plus(Plus(x, y), z), u), v, i);
  }

  lemma LowSymbols(c: bv32, i: nat)
    requires IsState(c) && i < 6
    ensures Part(Low(c), i) == if i < 5 then Part(c, i + 1) else 0
  {
    if i == 0 {
    } else if i == 1 {
    } else if i == 2 {
    } else if i == 3 {
    } else if i == 4 {
    } else {
    }
  }

  lemma HighSymbol(c: bv32)
    requires IsState(c)
    ensures High(c) == Part(c, 0) < 32
  {
  }

  /**
   * One step multiplies the state, a polynomial of six coefficients in GF(32), by x modulo the generator polynomial
   * x^6 + 29 x^5 + 22 x^4 + 20 x^3 + 21 x^2 + 29 x + 18.
   */
  lemma StepIsTimesX(c: bv32, i: nat)
    requires IsState(c) && i < 6
    ensures Part(Step(c), i) == Plus(if i < 5 then Part(c, i + 1) else 0, Times(Part(c, 0), COEFFICIENTS[i]))
  {
    hide Times, Plus, Low, High, Generator, IsState, Part;
    HighSymbol(c);
    LowSymbols(c, i);
    GeneratorSymbols(High(c), i);
    PartOfPlus(Low(c), Generator(High(c)), i);
  }
}
