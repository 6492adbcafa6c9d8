/**
 * bech32_encode and bech32_decode of bech32.c (BIP 173, section "Bech32", and BIP 350, section "Bech32m").
 */
module Bech32 {
  import opened Bech32Checksum
  import opened Characters

  /** bech32_encoding */
  datatype Encoding = NoEncoding | Plain | Modified

  /** bech32_final_constant */
  function FinalConstant(enc: Encoding): bv32 {
    if enc.Plain? then 1 else 0x2bc830a3
  }

  const CHARSET := "qpzry9x8" + "gf2tvdw0" + "s3jn54kh" + "ce6mua7l"

  /** charset[v] */
  function Letter(v: nat): char
    requires v < 32
  {
    if v < 8 then "qpzry9x8"[v]
    else if v < 16 then "gf2tvdw0"[v - 8]
    else if v < 24 then "s3jn54kh"[v - 16]
    else "ce6mua7l"[v - 24]
  }

  /** charset_rev, which knows both cases; -1 beyond ASCII. */
  function CharsetRev(c: char): int {
    match Lower(c)
    case 'q' => 0 case 'p' => 1 case 'z' => 2 case 'r' => 3 case 'y' => 4 case '9' => 5 case 'x' => 6 case '8' => 7
    case 'g' => 8 case 'f' => 9 case '2' => 10 case 't' => 11 case 'v' => 12 case 'd' => 13 case 'w' => 14 case '0' => 15
    case 's' => 16 case '3' => 17 case 'j' => 18 case 'n' => 19 case '5' => 20 case '4' => 21 case 'k' => 22 case 'h' => 23
    case 'c' => 24 case 'e' => 25 case '6' => 26 case 'm' => 27 case 'u' => 28 case 'a' => 29 case '7' => 30 case 'l' => 31
    case _ => -1
  }

  lemma CharsetLetters()
    ensures |CHARSET| == 32 && forall v :: 0 <= v < 32 ==> CHARSET[v] == Letter(v)
  {
    assert forall v :: 0 <= v < 8 ==> "qpzry9x8"[v] == Letter(v);
    assert forall v :: 0 <= v < 8 ==> "gf2tvdw0"[v] == Letter(8 + v);
    assert forall v :: 0 <= v < 8 ==> "s3jn54kh"[v] == Letter(16 + v);
    assert forall v :: 0 <= v < 8 ==> "ce6mua7l"[v] == Letter(24 + v);
  }

  /** The two tables undo each other, up to case. */
  lemma LetterAndBack(c: char, v: nat)
    requires v < 32
    ensures CharsetRev(c) == v <==> Lower(c) == Letter(v)
    ensures Letter(v) != '1' && Lower(Letter(v)) == Letter(v)
  {
  }

  // ---- Symbols

  /** All values fit in five bits. */
  predicate Small(s: seq<nat>) {
    forall i :: 0 <= i < |s| ==> s[i] < 32
  }

  /** A symbol as a machine word. */
  function Bits(v: nat): (w: bv32)
    requires v < 32
  {
    (v as bv5) as bv32
  }

  lemma BitsAreSmall(v: nat)
    requires v < 32
    ensures Bits(v) < 32
  {
  }

  lemma BitsAndBack(v: nat)
    requires v < 32
    ensures Bits(v) as nat == v
  {
  }

  lemma NumberAndBack(w: bv32)
    requires w < 32
    ensures w as nat < 32 && Bits(w as nat) == w
  {
  }

  function Words(s: seq<nat>): (w: seq<bv32>)
    requires Small(s)
    ensures |w| == |s| && forall i :: 0 <= i < |w| ==> w[i] == Bits(s[i])
  {
    seq(|s|, i requires 0 <= i < |s| => Bits(s[i]))
  }

  lemma WordsAreSymbols(s: seq<nat>)
    requires Small(s)
    ensures Symbols(Words(s))
  {
    hide Bits;
    forall i | 0 <= i < |s| ensures Words(s)[i] < 32 {
      BitsAreSmall(s[i]);
    }
  }

  function Numbers(w: seq<bv32>): (s: seq<nat>)
    requires Symbols(w)
    ensures |s| == |w| && Small(s) && forall i :: 0 <= i < |s| ==> s[i] == w[i] as nat
  {
    assert forall i :: 0 <= i < |w| ==> w[i] as nat < 32 by {
      forall i | 0 <= i < |w| ensures w[i] as nat < 32 {
        NumberAndBack(w[i]);
      }
    }
    seq(|w|, i requires 0 <= i < |w| => w[i] as nat)
  }

  lemma WordsAndNumbers(s: seq<nat>, w: seq<bv32>)
    requires Small(s) && Symbols(w)
    ensures Words(s) == w <==> s == Numbers(w)
  {
    hide Bits;
    if Words(s) == w {
      forall i | 0 <= i < |s| ensures s[i] == Numbers(w)[i] {
        BitsAndBack(s[i]);
      }
    }
    if s == Numbers(w) {
      forall i | 0 <= i < |w| ensures Words(s)[i] == w[i] {
        NumberAndBack(w[i]);
      }
    }
  }

  // ---- The checksum of a text

  /** A character the code takes in the human-readable part. */
  predicate Readable(c: char) { 33 <= c as int <= 126 }

  predicate ValidHrp(hrp: string) {
    forall i :: 0 <= i < |hrp| ==> Readable(hrp[i]) && !IsUpper(hrp[i])
  }

  predicate AllReadable(hrp: string) {
    forall i :: 0 <= i < |hrp| ==> Readable(hrp[i])
  }

  /** ch >> 5 and ch & 0x1f */
  function HighBits(c: char): nat { c as int / 32 }

  function LowBits(c: char): nat { c as int % 32 }

  function Highs(hrp: string): (s: seq<nat>)
    requires AllReadable(hrp)
    ensures |s| == |hrp| && Small(s) && forall i :: 0 <= i < |s| ==> s[i] == HighBits(hrp[i])
  {
    seq(|hrp|, i requires 0 <= i < |hrp| => HighBits(hrp[i]))
  }

  function Lows(hrp: string): (s: seq<nat>)
    requires AllReadable(hrp)
    ensures |s| == |hrp| && Small(s) && forall i :: 0 <= i < |s| ==> s[i] == LowBits(hrp[i])
  {
    seq(|hrp|, i requires 0 <= i < |hrp| => LowBits(hrp[i]))
  }

  /** What goes into the checksum for the human-readable part. */
  function Expand(hrp: string): (s: seq<nat>)
    requires AllReadable(hrp)
    ensures Small(s)
  {
    Highs(hrp) + [0] + Lows(hrp)
  }

  /** The state after some symbols. */
  function Residue(s: seq<nat>): bv32
    requires Small(s)
  {
    Poly(1, Words(s))
  }

  lemma ResidueIsState(s: seq<nat>)
    requires Small(s)
    ensures IsState(Residue(s))
  {
    hide Poly;
    WordsAreSymbols(s);
    PolyState(1, Words(s));
  }

  lemma ResidueNext(s: seq<nat>, v: nat)
    requires Small(s) && v < 32
    ensures Residue(s + [v]) == Step(Residue(s)) ^ Bits(v)
  {
    hide Step, Bits;
    assert Words(s + [v])[..|s|] == Words(s);
  }

  lemma ResidueZero(s: seq<nat>)
    requires Small(s)
    ensures Residue(s + [0]) == Step(Residue(s))
  {
    ResidueNext(s, 0);
    hide Step, Residue;
    PlusZero(Step(Residue(s)));
  }

  /** The six symbols of the checksum. */
  function Checksum(s: seq<nat>, enc: Encoding): (cs: seq<nat>)
    requires Small(s)
    ensures |cs| == 6 && Small(cs)
  {
    UnpackSymbols(Plus(Poly(Residue(s), Zeros(6)), FinalConstant(enc)));
    Numbers(Unpack(Plus(Poly(Residue(s), Zeros(6)), FinalConstant(enc))))
  }

  lemma FinalConstantIsState(enc: Encoding)
    ensures IsState(FinalConstant(enc))
  {
  }

  lemma FinalConstantsDiffer()
    ensures FinalConstant(Plain) != FinalConstant(Modified)
  {
  }

  /** The checksum is the only way to make the state come out right. */
  lemma ChecksumIsUnique(s: seq<nat>, cs: seq<nat>, enc: Encoding)
    requires Small(s) && Small(cs) && |cs| == 6
    ensures Residue(s + cs) == FinalConstant(enc) <==> cs == Checksum(s, enc)
  {
    hide Poly, Plus, Unpack, IsState, Symbols, FinalConstant;
    ResidueIsState(s);
    FinalConstantIsState(enc);
    WordsAreSymbols(cs);
    assert Words(s + cs) == Words(s) + Words(cs);
    PolyConcat(1, Words(s), Words(cs));
    LastSix(Residue(s), Words(cs), FinalConstant(enc));
    var w := Plus(Poly(Residue(s), Zeros(6)), FinalConstant(enc));
    UnpackSymbols(w);
    WordsAndNumbers(cs, Unpack(w));
  }

  // ---- The text

  function Letters(s: seq<nat>): (t: string)
    requires Small(s)
    ensures |t| == |s| && forall i :: 0 <= i < |t| ==> t[i] == Letter(s[i])
  {
    seq(|s|, i requires 0 <= i < |s| => Letter(s[i]))
  }

  lemma ValidIsReadable(hrp: string)
    requires ValidHrp(hrp)
    ensures AllReadable(hrp)
  {
  }

  /** Human-readable part, separator, data and checksum. */
  function Text(hrp: string, data: seq<nat>, enc: Encoding): string
    requires ValidHrp(hrp) && Small(data)
  {
    hrp + "1" + Letters(data + Checksum(Expand(hrp) + data, enc))
  }

  predicate Encodable(hrp: string, data: seq<nat>) {
    ValidHrp(hrp) && |hrp| + 7 + |data| <= 90 && Small(data)
  }

  // ---- Encoding

  lemma HighsNext(hrp: string, i: nat)
    requires i < |hrp| && AllReadable(hrp[..i + 1])
    ensures AllReadable(hrp[..i]) && Highs(hrp[..i + 1]) == Highs(hrp[..i]) + [HighBits(hrp[i])]
  {
  }

  lemma LowsNext(hrp: string, i: nat)
    requires i < |hrp| && AllReadable(hrp)
    ensures AllReadable(hrp[..i]) && AllReadable(hrp[..i + 1])
      && Lows(hrp[..i + 1]) == Lows(hrp[..i]) + [LowBits(hrp[i])]
  {
  }

  /** The first pass over the human-readable part. */
  method CheckHrp(hrp: string) returns (ok: bool, chk: bv32)
    ensures ok <==> ValidHrp(hrp)
    ensures ok ==> chk == Residue(Highs(hrp))
  {
    hide Residue, Step, Bits;
    chk := 1;
    assert Residue(Highs(hrp[..0])) == 1 by {
      ResidueStart();
      assert Highs(hrp[..0]) == [];
    }
    for i := 0 to |hrp|
      invariant ValidHrp(hrp[..i]) && chk == Residue(Highs(hrp[..i]))
    {
      var ch := hrp[i];
      if ch as int < 33 || ch as int > 126 {
        return false, chk;
      }
      if IsUpper(ch) {
        return false, chk;
      }
      HighsNext(hrp, i);
      ResidueNext(Highs(hrp[..i]), HighBits(ch));
      chk := Step(chk) ^ Bits(HighBits(ch));
    }
    assert hrp[..|hrp|] == hrp;
    ok := true;
  }

  lemma ResidueStart()
    ensures Residue([]) == 1
  {
  }

  /** The second pass, which also copies the human-readable part to the output. */
  method CopyHrp(output: array<char>, hrp: string, chk0: bv32) returns (chk: bv32)
    requires ValidHrp(hrp) && output.Length >= |hrp| && chk0 == Residue(Highs(hrp))
    modifies output
    ensures output[..|hrp|] == hrp && chk == Residue(Expand(hrp))
  {
    hide Residue, Step, Bits;
    ghost var s := Highs(hrp) + [0];
    ResidueZero(Highs(hrp));
    chk := Step(chk0);
    assert s + Lows(hrp[..0]) == s;
    for i := 0 to |hrp|
      invariant output[..i] == hrp[..i] && chk == Residue(s + Lows(hrp[..i]))
    {
      LowsNext(hrp, i);
      assert s + Lows(hrp[..i + 1]) == (s + Lows(hrp[..i])) + [LowBits(hrp[i])];
      ResidueNext(s + Lows(hrp[..i]), LowBits(hrp[i]));
      chk := Step(chk) ^ Bits(LowBits(hrp[i]));
      output[i] := hrp[i];
    }
    assert hrp[..|hrp|] == hrp;
    assert Expand(hrp) == s + Lows(hrp);
  }

  /** The data symbols; false at the first value of more than five bits. */
  method CopyData(output: array<char>, at: nat, data: seq<nat>, chk0: bv32, ghost s: seq<nat>)
      returns (ok: bool, chk: bv32)
    requires Small(s) && chk0 == Residue(s) && at + |data| <= output.Length
    modifies output
    ensures ok <==> Small(data)
    ensures ok ==> chk == Residue(s + data) && output[at..at + |data|] == Letters(data)
    ensures output[..at] == old(output[..at])
  {
    hide Residue, Step, Bits, Letter;
    chk := chk0;
    assert s + data[..0] == s;
    for i := 0 to |data|
      invariant Small(data[..i]) && chk == Residue(s + data[..i])
      invariant output[..at] == old(output[..at]) && output[at..at + i] == Letters(data[..i])
    {
      if data[i] >= 32 {
        return false, chk;
      }
      assert s + data[..i + 1] == (s + data[..i]) + [data[i]];
      ResidueNext(s + data[..i], data[i]);
      chk := Step(chk) ^ Bits(data[i]);
      output[at + i] := Letter(data[i]);
      assert output[at..at + i + 1] == output[at..at + i] + [Letter(data[i])];
      assert data[..i + 1] == data[..i] + [data[i]];
    }
    assert data[..|data|] == data;
    ok := true;
  }

  lemma ZerosNext(x: bv32, i: nat)
    ensures Poly(x, Zeros(i + 1)) == Step(Poly(x, Zeros(i)))
  {
    hide Step, Plus;
    assert Zeros(i + 1)[..i] == Zeros(i);
    PlusZero(Step(Poly(x, Zeros(i))));
  }

  /** The six symbols of the checksum. */
  method WriteChecksum(output: array<char>, at: nat, chk0: bv32, enc: Encoding, ghost s: seq<nat>)
    requires Small(s) && chk0 == Residue(s) && at + 6 < output.Length
    modifies output
    ensures output[at..at + 6] == Letters(Checksum(s, enc)) && output[at + 6] == '\0'
    ensures output[..at] == old(output[..at])
  {
    hide Residue, Step, Poly, Bits, FinalConstant, Plus, Part, Letter;
    var chk := chk0;
    PolyNone(chk0, Zeros(0));
    for i := 0 to 6
      invariant chk == Poly(chk0, Zeros(i)) && output[..at] == old(output[..at])
    {
      ZerosNext(chk0, i);
      chk := Step(chk);
    }
    chk := Plus(chk, FinalConstant(enc));
    UnpackSymbols(chk);
    for i := 0 to 6
      invariant output[..at] == old(output[..at])
      invariant forall j :: 0 <= j < i ==> output[at + j] == Letter(Checksum(s, enc)[j])
    {
      PartIsSymbol(chk, i);
      NumberAndBack(Part(chk, i));
      assert Unpack(chk)[i] == Part(chk, i);
      output[at + i] := Letter(Part(chk, i) as nat);
    }
    output[at + 6] := '\0';
  }

  /** bech32_encode; the buffer has room for the text and its end mark. */
  method Encode(output: array<char>, hrp: string, data: seq<nat>, enc: Encoding) returns (ok: bool)
    requires output.Length >= |hrp| + |data| + 8
    modifies output
    ensures ok <==> Encodable(hrp, data)
    ensures ok ==> var n := |hrp| + |data| + 7; output[..n] == Text(hrp, data, enc) && output[n] == '\0'
  {
    hide Residue, Step, Bits, Letter, FinalConstant, Checksum;
    var chk;
    ok, chk := CheckHrp(hrp);
    if !ok {
      return;
    }
    if |hrp| + 7 + |data| > 90 {
      return false;
    }
    chk := CopyHrp(output, hrp, chk);
    output[|hrp|] := '1';
    assert output[..|hrp| + 1] == hrp + "1";
    ok := WriteSymbols(output, |hrp| + 1, data, chk, enc, Expand(hrp));
    if ok {
      LettersConcat(data, Checksum(Expand(hrp) + data, enc));
      Glue(output[..|hrp| + |data| + 7], hrp + "1", Letters(data + Checksum(Expand(hrp) + data, enc)));
    }
  }

  lemma Glue(out: string, a: string, b: string)
    requires |a| + |b| == |out| && out[..|a|] == a && out[|a|..] == b
    ensures out == a + b
  {
  }

  /** Data and checksum. */
  method WriteSymbols(output: array<char>, at: nat, data: seq<nat>, chk0: bv32, enc: Encoding, ghost s: seq<nat>)
      returns (ok: bool)
    requires Small(s) && chk0 == Residue(s) && at + |data| + 6 < output.Length
    modifies output
    ensures ok <==> Small(data)
    ensures output[..at] == old(output[..at])
    ensures ok ==> output[at..at + |data| + 6] == Letters(data) + Letters(Checksum(s + data, enc))
    ensures ok ==> output[at + |data| + 6] == '\0'
  {
    hide Residue, Letter, Checksum;
    var chk;
    ok, chk := CopyData(output, at, data, chk0, s);
    if ok {
      ghost var before := output[..at + |data|];
      WriteChecksum(output, at + |data|, chk, enc, s + data);
      assert output[..at + |data|][..at] == output[..at];
      assert output[at..at + |data|] == before[at..];
      assert output[at..at + |data| + 6] == output[at..at + |data|] + output[at + |data|..at + |data| + 6];
    }
  }

  lemma LettersConcat(s: seq<nat>, t: seq<nat>)
    requires Small(s) && Small(t)
    ensures Letters(s + t) == Letters(s) + Letters(t)
  {
  }

  // ---- What a text means

  function LowerText(s: string): (t: string)
    ensures |t| == |s| && forall i :: 0 <= i < |t| ==> t[i] == Lower(s[i])
  {
    seq(|s|, i requires 0 <= i < |s| => Lower(s[i]))
  }

  predicate HasLower(s: string) { exists i :: 0 <= i < |s| && IsLower(s[i]) }

  predicate HasUpper(s: string) { exists i :: 0 <= i < |s| && IsUpper(s[i]) }

  /** The input, in one case throughout, is the text of these; that is all the decoder is to find out. */
  predicate Decodes(input: string, enc: Encoding, hrp: string, data: seq<nat>) {
    && !enc.NoEncoding? && hrp != "" && 8 <= |input| <= 90 && !(HasLower(input) && HasUpper(input))
    && ValidHrp(hrp) && Small(data) && LowerText(input) == Text(hrp, data, enc)
  }

  /** The separator is the last '1'. */
  predicate SeparatedAt(input: string, k: nat) {
    k < |input| && input[k] == '1' && forall i :: k < i < |input| ==> input[i] != '1'
  }

  lemma LettersHaveNoOne(s: seq<nat>)
    requires Small(s)
    ensures '1' !in Letters(s)
  {
    hide Letter;
    forall i | 0 <= i < |s| ensures Letters(s)[i] != '1' {
      LetterAndBack('1', s[i]);
    }
  }

  lemma LowerOne(c: char)
    ensures Lower(c) == '1' <==> c == '1'
  {
  }

  lemma SeparatorFound(input: string, k: nat, h: string, l: string)
    requires SeparatedAt(input, k) && LowerText(input) == h + "1" + l && '1' !in l
    ensures |h| == k && h == LowerText(input[..k]) && l == LowerText(input[k + 1..])
  {
    var t := h + "1" + l;
    assert t[|h|] == '1';
    LowerOne(input[|h|]);
    forall i | |h| < i < |input| ensures input[i] != '1' {
      assert t[i] == l[i - |h| - 1];
      LowerOne(input[i]);
    }
    assert t[..k] == h && t[k + 1..] == l;
  }

  lemma LettersDetermine(s: seq<nat>, t: seq<nat>)
    requires Small(s) && Small(t) && Letters(s) == Letters(t)
    ensures s == t
  {
    hide Letter;
    forall i | 0 <= i < |s| ensures s[i] == t[i] {
      LetterAndBack(Letter(s[i]), s[i]);
      LetterAndBack(Letter(s[i]), t[i]);
      assert Letters(s)[i] == Letters(t)[i];
    }
  }

  lemma SplitLast(s: seq<nat>, d: seq<nat>, cs: seq<nat>)
    requires |cs| == 6 && |s| >= 6
    ensures s == d + cs <==> d == s[..|s| - 6] && cs == s[|s| - 6..]
  {
  }

  /** Everything but the final comparison has been checked. */
  predicate Parsed(input: string, k: nat, syms: seq<nat>) {
    && 8 <= |input| <= 90 && 0 < k && SeparatedAt(input, k) && |syms| == |input| - k - 1 && |syms| >= 6
    && AllReadable(input[..k]) && Small(syms) && LowerText(input[k + 1..]) == Letters(syms)
    && !(HasLower(input) && HasUpper(input))
  }

  lemma TextOfParts(input: string, k: nat, syms: seq<nat>)
    requires Parsed(input, k, syms)
    ensures LowerText(input) == LowerText(input[..k]) + "1" + Letters(syms)
  {
  }

  lemma DecodesThenVerifies(input: string, k: nat, syms: seq<nat>, enc: Encoding, hrp: string, data: seq<nat>)
    requires Parsed(input, k, syms) && Decodes(input, enc, hrp, data)
    ensures hrp == LowerText(input[..k]) && data == syms[..|syms| - 6]
      && Residue(Expand(hrp) + syms) == FinalConstant(enc)
  {
    hide Letter, Residue, FinalConstant, Checksum, HasLower, HasUpper, Expand;
    var cs := Checksum(Expand(hrp) + data, enc);
    LettersHaveNoOne(data + cs);
    SeparatorFound(input, k, hrp, Letters(data + cs));
    LettersDetermine(data + cs, syms);
    SplitLast(syms, data, cs);
    assert Expand(hrp) + syms == (Expand(hrp) + data) + cs;
    ChecksumIsUnique(Expand(hrp) + data, cs, enc);
  }

  lemma VerifiesThenDecodes(input: string, k: nat, syms: seq<nat>, enc: Encoding)
    requires Parsed(input, k, syms) && ValidHrp(LowerText(input[..k])) && !enc.NoEncoding?
    requires Residue(Expand(LowerText(input[..k])) + syms) == FinalConstant(enc)
    ensures Decodes(input, enc, LowerText(input[..k]), syms[..|syms| - 6])
  {
    hide Letter, Residue, FinalConstant, Checksum, HasLower, HasUpper, Expand;
    var hrp, data, cs := LowerText(input[..k]), syms[..|syms| - 6], syms[|syms| - 6..];
    TextOfParts(input, k, syms);
    SmallParts(syms);
    SplitLast(syms, data, cs);
    assert Expand(hrp) + syms == (Expand(hrp) + data) + cs;
    ChecksumIsUnique(Expand(hrp) + data, cs, enc);
  }

  lemma SmallParts(syms: seq<nat>)
    requires Small(syms) && |syms| >= 6
    ensures Small(syms[..|syms| - 6]) && Small(syms[|syms| - 6..])
  {
  }

  /** An input that stands for something can be parsed. */
  lemma DecodesIsParsed(input: string, enc: Encoding, hrp: string, data: seq<nat>, k: nat)
    requires Decodes(input, enc, hrp, data) && SeparatedAt(input, k)
    ensures k > 0 && |input| - k - 1 >= 6 && AllReadable(input[..k]) && ValidHrp(LowerText(input[..k]))
    ensures forall i :: k < i < |input| ==> CharsetRev(input[i]) >= 0
  {
    hide Letter, Residue, FinalConstant, Checksum, HasLower, HasUpper, Expand;
    var cs := Checksum(Expand(hrp) + data, enc);
    LettersHaveNoOne(data + cs);
    SeparatorFound(input, k, hrp, Letters(data + cs));
    LowerReadable(input[..k]);
    forall i | k < i < |input| ensures CharsetRev(input[i]) >= 0 {
      var v := (data + cs)[i - k - 1];
      assert LowerText(input[k + 1..])[i - k - 1] == Letter(v);
      LetterAndBack(input[i], v);
    }
  }

  lemma LowerReadable(s: string)
    requires ValidHrp(LowerText(s))
    ensures AllReadable(s)
  {
    forall i | 0 <= i < |s| ensures Readable(s[i]) {
      assert Readable(LowerText(s)[i]);
    }
  }

  lemma DecodesIsSeparated(input: string, enc: Encoding, hrp: string, data: seq<nat>)
    requires Decodes(input, enc, hrp, data)
    ensures '1' in input
  {
    hide Letter, Checksum, Expand;
    assert LowerText(input)[|hrp|] == '1';
    LowerOne(input[|hrp|]);
  }

  // ---- Decoding

  /** The loop that looks for the last separator, from the end. */
  method FindSeparator(input: string) returns (data_len: nat)
    ensures data_len <= |input| && (data_len == |input| <==> '1' !in input)
    ensures data_len < |input| ==> SeparatedAt(input, |input| - 1 - data_len)
  {
    data_len := 0;
    while data_len < |input| && input[|input| - 1 - data_len] != '1'
      invariant data_len <= |input| && forall i :: |input| - data_len <= i < |input| ==> input[i] != '1'
    {
      data_len := data_len + 1;
    }
  }

  /** The first pass over the human-readable part: its lower-case form, and which cases occur. */
  method ReadHrp(input: string, hrp_len: nat, hrp: array<char>)
      returns (ok: bool, chk: bv32, have_lower: bool, have_upper: bool)
    requires hrp_len <= |input| && hrp.Length > hrp_len
    modifies hrp
    ensures ok <==> AllReadable(input[..hrp_len])
    ensures ok ==>
      hrp[..hrp_len] == LowerText(input[..hrp_len]) && hrp[hrp_len] == '\0' && ValidHrp(LowerText(input[..hrp_len]))
    ensures ok ==> chk == Residue(Highs(LowerText(input[..hrp_len])))
    ensures ok ==> have_lower == HasLower(input[..hrp_len]) && have_upper == HasUpper(input[..hrp_len])
  {
    hide Residue, Step, Bits, HasLower, HasUpper;
    chk, have_lower, have_upper := 1, false, false;
    ResidueStart();
    assert Highs(LowerText(input[..0])) == [];
    assert !HasLower(input[..0]) && !HasUpper(input[..0]) by {
      NoCase(input[..0]);
    }
    for i := 0 to hrp_len
      invariant AllReadable(input[..i]) && ValidHrp(LowerText(input[..i])) && hrp[..i] == LowerText(input[..i])
      invariant chk == Residue(Highs(LowerText(input[..i])))
      invariant have_lower == HasLower(input[..i]) && have_upper == HasUpper(input[..i])
    {
      var ch := input[i];
      if ch as int < 33 || ch as int > 126 {
        return false, chk, have_lower, have_upper;
      }
      CaseNext(input, i);
      if IsLower(ch) {
        have_lower := true;
      } else if IsUpper(ch) {
        have_upper := true;
        ch := Lower(ch);
      }
      LowerNext(input, i);
      HighsNext(LowerText(input[..i + 1]), i);
      hrp[i] := ch;
      ResidueNext(Highs(LowerText(input[..i])), HighBits(ch));
      chk := Step(chk) ^ Bits(HighBits(ch));
    }
    hrp[hrp_len] := '\0';
    ok := true;
  }

  lemma NoCase(s: string)
    requires s == ""
    ensures !HasLower(s) && !HasUpper(s)
  {
  }

  lemma CaseNext(s: string, i: nat)
    requires i < |s|
    ensures HasLower(s[..i + 1]) <==> HasLower(s[..i]) || IsLower(s[i])
    ensures HasUpper(s[..i + 1]) <==> HasUpper(s[..i]) || IsUpper(s[i])
  {
    if HasLower(s[..i]) {
      var j :| 0 <= j < i && IsLower(s[..i][j]);
      assert s[..i + 1][j] == s[j];
    }
    if HasUpper(s[..i]) {
      var j :| 0 <= j < i && IsUpper(s[..i][j]);
      assert s[..i + 1][j] == s[j];
    }
    assert s[..i + 1][i] == s[i];
  }

  lemma LowerNext(s: string, i: nat)
    requires i < |s| && Readable(s[i]) && ValidHrp(LowerText(s[..i]))
    ensures LowerText(s[..i + 1]) == LowerText(s[..i]) + [Lower(s[i])] && ValidHrp(LowerText(s[..i + 1]))
    ensures LowerText(s[..i + 1])[..i] == LowerText(s[..i]) && LowerText(s[..i + 1])[..i + 1] == LowerText(s[..i + 1])
  {
  }

  /** Case does not show in the lower five bits. */
  lemma LowBitsOfLower(c: char)
    ensures LowBits(Lower(c)) == LowBits(c)
  {
  }

  /** The second pass over the human-readable part. */
  method HrpLows(input: string, hrp_len: nat, chk0: bv32) returns (chk: bv32)
    requires hrp_len <= |input| && AllReadable(input[..hrp_len]) && ValidHrp(LowerText(input[..hrp_len]))
    requires chk0 == Residue(Highs(LowerText(input[..hrp_len])))
    ensures chk == Residue(Expand(LowerText(input[..hrp_len])))
  {
    hide Residue, Step, Bits;
    ghost var h := LowerText(input[..hrp_len]);
    ghost var s := Highs(h) + [0];
    ResidueZero(Highs(h));
    chk := Step(chk0);
    assert s + Lows(h[..0]) == s;
    for i := 0 to hrp_len
      invariant chk == Residue(s + Lows(h[..i]))
    {
      LowsNext(h, i);
      LowBitsOfLower(input[i]);
      assert s + Lows(h[..i + 1]) == (s + Lows(h[..i])) + [LowBits(h[i])];
      ResidueNext(s + Lows(h[..i]), LowBits(h[i]));
      chk := Step(chk) ^ Bits(LowBits(input[i]));
    }
    assert h[..hrp_len] == h;
    assert Expand(h) == s + Lows(h);
  }

  lemma LettersNext(t: string, j: nat, syms: seq<nat>, v: nat)
    requires j < |t| && Small(syms) && v < 32 && CharsetRev(t[j]) == v && LowerText(t[..j]) == Letters(syms)
    ensures LowerText(t[..j + 1]) == Letters(syms + [v])
  {
    hide Letter;
    LetterAndBack(t[j], v);
    assert |syms| == |LowerText(t[..j])| == j;
  }

  /** The data part; the last six symbols are the checksum and are not stored. */
  method ReadData(input: string, hrp_len: nat, data: array<nat>, chk0: bv32, lower0: bool, upper0: bool,
      ghost h: seq<nat>)
    returns (ok: bool, chk: bv32, have_lower: bool, have_upper: bool, ghost syms: seq<nat>)
    requires hrp_len + 7 <= |input| && data.Length >= |input| - hrp_len - 7
    requires Small(h) && chk0 == Residue(h) && lower0 == HasLower(input[..hrp_len + 1])
      && upper0 == HasUpper(input[..hrp_len + 1])
    modifies data
    ensures ok <==> forall i :: hrp_len < i < |input| ==> CharsetRev(input[i]) >= 0
    ensures ok ==> |syms| == |input| - hrp_len - 1 && Small(syms) && LowerText(input[hrp_len + 1..]) == Letters(syms)
    ensures ok ==> chk == Residue(h + syms) && data[..|syms| - 6] == syms[..|syms| - 6]
    ensures ok ==> have_lower == HasLower(input) && have_upper == HasUpper(input)
  {
    hide Residue, Step, Bits, Letter, HasLower, HasUpper, CharsetRev;
    chk, have_lower, have_upper, syms := chk0, lower0, upper0, [];
    ghost var t := input[hrp_len + 1..];
    var i := hrp_len + 1;
    assert h + syms == h;
    assert LowerText(t[..0]) == Letters([]);
    while i < |input|
      invariant hrp_len < i <= |input| && |syms| == i - hrp_len - 1 && Small(syms)
      invariant forall j :: hrp_len < j < i ==> CharsetRev(input[j]) >= 0
      invariant LowerText(t[..i - hrp_len - 1]) == Letters(syms) && chk == Residue(h + syms)
      invariant forall j :: 0 <= j < |syms| && j < |input| - hrp_len - 7 ==> data[j] == syms[j]
      invariant have_lower == HasLower(input[..i]) && have_upper == HasUpper(input[..i])
    {
      var v := CharsetRev(input[i]);
      CaseNext(input, i);
      if IsLower(input[i]) {
        have_lower := true;
      }
      if IsUpper(input[i]) {
        have_upper := true;
      }
      if v == -1 {
        return false, chk, have_lower, have_upper, syms;
      }
      RevIsSmall(input[i]);
      LettersNext(t, i - hrp_len - 1, syms, v);
      ResidueNext(h + syms, v);
      assert h + (syms + [v]) == (h + syms) + [v];
      chk := Step(chk) ^ Bits(v);
      if i + 6 < |input| {
        data[i - (1 + hrp_len)] := v;
      }
      syms := syms + [v];
      i := i + 1;
    }
    assert t[..|t|] == t && input[..|input|] == input;
    ok := true;
  }

  lemma RevIsSmall(c: char)
    ensures -1 <= CharsetRev(c) < 32
  {
  }

  lemma CaseOfSeparator(input: string, k: nat)
    requires k < |input| && input[k] == '1'
    ensures HasLower(input[..k + 1]) == HasLower(input[..k]) && HasUpper(input[..k + 1]) == HasUpper(input[..k])
  {
    CaseNext(input, k);
  }

  /** Nothing is decoded: the reason must hold whatever the text might stand for. */
  ghost predicate Meaningless(input: string) {
    forall enc, hrp, data :: !Decodes(input, enc, hrp, data)
  }

  lemma NotSeparated(input: string)
    requires '1' !in input
    ensures Meaningless(input)
  {
    hide Decodes;
    forall enc, hrp, data ensures !Decodes(input, enc, hrp, data) {
      if Decodes(input, enc, hrp, data) {
        DecodesIsSeparated(input, enc, hrp, data);
      }
    }
  }

  lemma NotParsed(input: string, k: nat)
    requires SeparatedAt(input, k)
    requires k == 0 || |input| - k - 1 < 6 || !AllReadable(input[..k])
      || exists i :: k < i < |input| && CharsetRev(input[i]) < 0
    ensures Meaningless(input)
  {
    hide Decodes, CharsetRev, AllReadable;
    forall enc, hrp, data ensures !Decodes(input, enc, hrp, data) {
      if Decodes(input, enc, hrp, data) {
        DecodesIsParsed(input, enc, hrp, data, k);
      }
    }
  }

  lemma NotVerified(input: string, k: nat, syms: seq<nat>)
    requires Parsed(input, k, syms) && ValidHrp(LowerText(input[..k]))
    requires Residue(Expand(LowerText(input[..k])) + syms) !in {FinalConstant(Plain), FinalConstant(Modified)}
    ensures Meaningless(input)
  {
    hide Residue, FinalConstant, Parsed;
    forall enc, hrp, data ensures !Decodes(input, enc, hrp, data) {
      if Decodes(input, enc, hrp, data) {
        DecodesThenVerifies(input, k, syms, enc, hrp, data);
      }
    }
  }

  /** bech32_decode; the buffers are as large as the header file asks for. */
  method Decode(hrp: array<char>, data: array<nat>, input: string)
    returns (enc: Encoding, data_len: nat, ghost h: string)
    requires |input| <= 90 ==> hrp.Length >= |input| - 6 && data.Length >= |input| - 8
    modifies hrp, data
    ensures enc.NoEncoding? <==> Meaningless(input)
    ensures !enc.NoEncoding? ==> |h| < hrp.Length && data_len <= data.Length && |h| + data_len + 7 == |input|
    ensures !enc.NoEncoding? ==> hrp[..|h|] == h && hrp[|h|] == '\0' && Decodes(input, enc, h, data[..data_len])
  {
    hide Residue, FinalConstant, Decodes, CharsetRev, HasLower, HasUpper, AllReadable, ValidHrp, Letter, Expand;
    data_len, h := 0, "";
    if |input| < 8 || |input| > 90 {
      TooShortOrLong(input);
      return NoEncoding, 0, "";
    }
    data_len := FindSeparator(input);
    if data_len == |input| {
      NotSeparated(input);
    } else if 1 + data_len >= |input| || data_len < 6 {
      NotParsed(input, |input| - 1 - data_len);
    }
    if 1 + data_len >= |input| || data_len < 6 {
      return NoEncoding, data_len, "";
    }
    var hrp_len := |input| - (1 + data_len);
    data_len := data_len - 6;
    var ok, chk, have_lower, have_upper := ReadHrp(input, hrp_len, hrp);
    if !ok {
      NotParsed(input, hrp_len);
      return NoEncoding, data_len, "";
    }
    h := LowerText(input[..hrp_len]);
    chk := HrpLows(input, hrp_len, chk);
    CaseOfSeparator(input, hrp_len);
    ghost var syms;
    ValidIsReadable(h);
    ok, chk, have_lower, have_upper, syms := ReadData(input, hrp_len, data, chk, have_lower, have_upper, Expand(h));
    if !ok {
      NotParsed(input, hrp_len);
      return NoEncoding, data_len, "";
    }
    if have_lower && have_upper {
      BothCases(input);
      return NoEncoding, data_len, "";
    }
    if chk == FinalConstant(Plain) {
      VerifiesThenDecodes(input, hrp_len, syms, Plain);
      enc := Plain;
    } else if chk == FinalConstant(Modified) {
      VerifiesThenDecodes(input, hrp_len, syms, Modified);
      enc := Modified;
    } else {
      NotVerified(input, hrp_len, syms);
      enc := NoEncoding;
    }
  }

  lemma TooShortOrLong(input: string)
    requires |input| < 8 || |input| > 90
    ensures Meaningless(input)
  {
    hide Text, ValidHrp, HasLower, HasUpper;
  }

  lemma BothCases(input: string)
    requires HasLower(input) && HasUpper(input)
    ensures Meaningless(input)
  {
    hide Text, ValidHrp, HasLower, HasUpper;
  }

  // ---- The two undo each other

  lemma TextIsLower(hrp: string, data: seq<nat>, enc: Encoding)
    requires ValidHrp(hrp) && Small(data)
    ensures LowerText(Text(hrp, data, enc)) == Text(hrp, data, enc) && !HasUpper(Text(hrp, data, enc))
  {
    hide Letter, Checksum, Expand;
    var t, all := Text(hrp, data, enc), data + Checksum(Expand(hrp) + data, enc);
    forall i | 0 <= i < |t| ensures Lower(t[i]) == t[i] && !IsUpper(t[i]) {
      if i > |hrp| {
        LetterAndBack(t[i], all[i - |hrp| - 1]);
        assert t[i] == Letters(all)[i - |hrp| - 1];
      }
    }
  }

  /**
   * What was encoded decodes to itself and to nothing else, unless the human-readable part is empty: then it does not
   * decode.
   */
  lemma DecodeEncode(hrp: string, data: seq<nat>, enc: Encoding)
    requires Encodable(hrp, data) && !enc.NoEncoding?
    ensures Decodes(Text(hrp, data, enc), enc, hrp, data) <==> hrp != ""
    ensures forall e, h, d :: Decodes(Text(hrp, data, enc), e, h, d) ==> e == enc && h == hrp && d == data
  {
    hide HasLower, HasUpper, Text;
    TextIsLower(hrp, data, enc);
    TextLength(hrp, data, enc);
    forall e, h, d | Decodes(Text(hrp, data, enc), e, h, d) ensures e == enc && h == hrp && d == data {
      TextsDiffer(hrp, data, enc, h, d, e);
    }
  }

  lemma TextLength(hrp: string, data: seq<nat>, enc: Encoding)
    requires ValidHrp(hrp) && Small(data)
    ensures |Text(hrp, data, enc)| == |hrp| + |data| + 7
  {
  }

  lemma TextsDiffer(hrp: string, data: seq<nat>, enc: Encoding, h: string, d: seq<nat>, e: Encoding)
    requires ValidHrp(hrp) && Small(data) && ValidHrp(h) && Small(d) && !enc.NoEncoding? && !e.NoEncoding?
    requires Text(hrp, data, enc) == Text(h, d, e)
    ensures h == hrp && d == data && e == enc
  {
    hide Letter, Checksum, Expand, FinalConstant;
    var cs, cs' := Checksum(Expand(hrp) + data, enc), Checksum(Expand(h) + d, e);
    var t := Text(hrp, data, enc);
    LettersHaveNoOne(data + cs);
    LettersHaveNoOne(d + cs');
    SameSplit(hrp, Letters(data + cs), h, Letters(d + cs'));
    LettersDetermine(data + cs, d + cs');
    SplitLast(data + cs, data, cs);
    SplitLast(data + cs, d, cs');
    ChecksumIsUnique(Expand(hrp) + data, cs, enc);
    ChecksumIsUnique(Expand(hrp) + data, cs, e);
    FinalConstantsDiffer();
  }

  lemma SameSplit(a: string, b: string, c: string, d: string)
    requires a + "1" + b == c + "1" + d && '1' !in b && '1' !in d
    ensures a == c && b == d
  {
    var t := a + "1" + b;
    assert t[|a|] == '1' && t[|c|] == '1';
    assert forall i :: |a| < i < |t| ==> t[i] == b[i - |a| - 1] && t[i] != '1';
    assert forall i :: |c| < i < |t| ==> t[i] == d[i - |c| - 1] && t[i] != '1';
    assert t[..|a|] == a && t[..|c|] == c;
    assert t[|a| + 1..] == b && t[|c| + 1..] == d;
  }

  /**
   * What the decoder checks: the symbols behind the separator carry the state of the lower-case text to the constant.
   */
  ghost predicate Verifies(input: string, enc: Encoding, hrp: string, data: seq<nat>) {
    !enc.NoEncoding? && exists k, syms :: SplitsAt(input, enc, hrp, data, k, syms)
  }

  ghost predicate SplitsAt(input: string, enc: Encoding, hrp: string, data: seq<nat>, k: nat, syms: seq<nat>) {
    && Parsed(input, k, syms) && hrp == LowerText(input[..k]) && data == syms[..|syms| - 6]
    && ValidHrp(hrp) && Residue(Expand(hrp) + syms) == FinalConstant(enc)
  }

  /** What verifies is encoded again, and comes out in lower case: its checksum is the one the encoder writes. */
  lemma EncodeDecode(input: string, enc: Encoding, hrp: string, data: seq<nat>)
    requires Verifies(input, enc, hrp, data)
    ensures Encodable(hrp, data) && Text(hrp, data, enc) == LowerText(input)
  {
    hide HasLower, HasUpper, Residue, Expand, FinalConstant, Parsed, Text;
    var k, syms :| SplitsAt(input, enc, hrp, data, k, syms);
    VerifiesThenDecodes(input, k, syms, enc);
    TextLength(hrp, data, enc);
  }

  /** The texts that verify are those of some parts: the decoder accepts what the encoder writes, in either case. */
  lemma DecodesIffVerifies(input: string, enc: Encoding, hrp: string, data: seq<nat>)
    ensures Decodes(input, enc, hrp, data) <==> Verifies(input, enc, hrp, data)
  {
    hide HasLower, HasUpper, Residue, Expand, FinalConstant, Text, Letters, Checksum;
    if Decodes(input, enc, hrp, data) {
      var x := DecodedSymbols(input, enc, hrp, data);
      DecodedSplit(input, hrp, x);
      DecodesThenVerifies(input, |hrp|, x, enc, hrp, data);
      assert SplitsAt(input, enc, hrp, data, |hrp|, x);
    }
    if Verifies(input, enc, hrp, data) {
      var k, syms :| SplitsAt(input, enc, hrp, data, k, syms);
      VerifiesThenDecodes(input, k, syms, enc);
    }
  }

  lemma DecodedSplit(input: string, hrp: string, x: seq<nat>)
    requires 8 <= |input| <= 90 && hrp != "" && ValidHrp(hrp) && !(HasLower(input) && HasUpper(input))
    requires Small(x) && |x| == |input| - |hrp| - 1 && |x| >= 6 && LowerText(input) == hrp + "1" + Letters(x)
    ensures Parsed(input, |hrp|, x) && hrp == LowerText(input[..|hrp|])
  {
    hide HasLower, HasUpper, Letter;
    LettersHaveNoOne(x);
    assert LowerText(input)[|hrp|] == '1';
    LowerOne(input[|hrp|]);
    forall i | |hrp| < i < |input| ensures input[i] != '1' {
      assert LowerText(input)[i] == Letters(x)[i - |hrp| - 1];
      LowerOne(input[i]);
    }
    SeparatorFound(input, |hrp|, hrp, Letters(x));
    LowerReadable(input[..|hrp|]);
  }

  lemma BurstInSymbols(s: seq<nat>, x: seq<nat>, y: seq<nat>, at: nat)
    requires Small(s) && Small(x) && Small(y) && |x| == |y| && at + 6 <= |x|
    requires forall i :: 0 <= i < |x| && !(at <= i < at + 6) ==> x[i] == y[i]
    requires Residue(s + x) == Residue(s + y)
    ensures x == y
  {
    hide Poly, IsState;
    ResidueIsState(s);
    WordsAreSymbols(x);
    WordsAreSymbols(y);
    assert Words(s + x) == Words(s) + Words(x) && Words(s + y) == Words(s) + Words(y);
    PolyConcat(1, Words(s), Words(x));
    PolyConcat(1, Words(s), Words(y));
    BurstDetected(Residue(s), Words(x), Words(y), at);
    SameWords(x, y);
  }

  /** The symbols behind the separator, data and checksum. */
  lemma DecodedSymbols(input: string, enc: Encoding, hrp: string, data: seq<nat>) returns (x: seq<nat>)
    requires Decodes(input, enc, hrp, data)
    ensures Small(x) && |x| == |input| - |hrp| - 1 && |x| >= 6 && LowerText(input) == hrp + "1" + Letters(x)
    ensures ValidHrp(hrp) && Residue(Expand(hrp) + x) == FinalConstant(enc)
  {
    hide Letter, Residue, Checksum, Expand, HasLower, HasUpper, FinalConstant;
    var cs := Checksum(Expand(hrp) + data, enc);
    x := data + cs;
    ChecksumIsUnique(Expand(hrp) + data, cs, enc);
    assert (Expand(hrp) + data) + cs == Expand(hrp) + x;
  }

  /** Two accepted texts of the same kind whose data parts differ within six neighbouring symbols only are the same. */
  lemma BurstsAreDetected(a: string, b: string, enc: Encoding, hrp: string, d: seq<nat>, e: seq<nat>, at: nat)
    requires Decodes(a, enc, hrp, d) && Decodes(b, enc, hrp, e) && |a| == |b| && |hrp| + 1 + at + 6 <= |a|
    requires forall i :: 0 <= i < |a| && !(|hrp| + 1 + at <= i < |hrp| + 1 + at + 6) ==> Lower(a[i]) == Lower(b[i])
    ensures LowerText(a) == LowerText(b)
  {
    hide Letter, Expand, Residue, FinalConstant, Decodes;
    var x := DecodedSymbols(a, enc, hrp, d);
    var y := DecodedSymbols(b, enc, hrp, e);
    DecodedHrp(a, enc, hrp, d);
    forall i | 0 <= i < |x| && !(at <= i < at + 6) ensures x[i] == y[i] {
      var j := |hrp| + 1 + i;
      assert LowerText(a)[j] == Letters(x)[i] && LowerText(b)[j] == Letters(y)[i];
      LetterAndBack(Letter(x[i]), x[i]);
      LetterAndBack(Letter(x[i]), y[i]);
    }
    BurstInSymbols(Expand(hrp), x, y, at);
  }

  lemma DecodedHrp(input: string, enc: Encoding, hrp: string, data: seq<nat>)
    requires Decodes(input, enc, hrp, data)
    ensures ValidHrp(hrp)
  {
  }

  lemma SameWords(x: seq<nat>, y: seq<nat>)
    requires Small(x) && Small(y) && Words(x) == Words(y)
    ensures x == y
  {
    hide Bits;
    WordsAreSymbols(y);
    WordsAndNumbers(x, Words(y));
    WordsAndNumbers(y, Words(y));
  }

  // ---- What separates the two encodings

  /** The state before and after a last 'p' tells whether a 'q' can be slipped in before it. */
  lemma SlippedIn(r: bv32, enc: Encoding)
    requires IsState(r) && !enc.NoEncoding? && Step(r) ^ 1 == FinalConstant(enc)
    ensures enc.Plain? ==> Step(Step(r)) ^ 1 == FinalConstant(Plain)
    ensures enc.Modified? ==> Step(Step(r)) ^ 1 !in {FinalConstant(Plain), FinalConstant(Modified)}
  {
    if enc.Plain? {
      assert Step(r) == 0;
      StepOfZero();
    } else {
      assert Step(r) == 0x2bc830a2;
      assert Step(0x2bc830a2) == 0x36d938bb;
    }
  }

  /** The state after one symbol more, in one expression. */
  function After(x: bv32, w: bv32): bv32 {
    Plus(Plus(Low(x),
              Plus(Plus(Plus(Plus(And(Sign(x >> 25), 0x3b6a57b2), And(Sign(x >> 26), 0x26508e6d)),
                             And(Sign(x >> 27), 0x1ea119fa)), And(Sign(x >> 28), 0x3d4233dd)), And(Sign(x >> 29), 0x2a1462b3))),
         w)
  }

  lemma ShiftsAre(x: bv32)
    ensures Shifted(High(x), 0) == x >> 25 && Shifted(High(x), 1) == x >> 26 && Shifted(High(x), 2) == x >> 27
    ensures Shifted(High(x), 3) == x >> 28 && Shifted(High(x), 4) == x >> 29
  {
  }

  lemma AfterIsStep(x: bv32, w: bv32)
    ensures After(x, w) == Plus(Step(x), w)
  {
    hide Shifted, High, Low, Sign, And, Plus;
    ShiftsAre(x);
  }

  lemma Extended(s: seq<nat>, v: nat, t: seq<nat>, x: bv32, w: bv32, y: bv32)
    requires Small(s) && v < 32 && t == s + [v] && Residue(s) == x && Bits(v) == w && After(x, w) == y
    ensures Small(t) && Residue(t) == y
  {
    hide Residue, Step, Bits, After;
    ResidueNext(s, v);
    AfterIsStep(x, w);
  }

  lemma ShortBits()
    ensures Bits(0) == 0 && Bits(1) == 1 && Bits(3) == 3 && Bits(9) == 9 && Bits(10) == 10 && Bits(17) == 17
    ensures Bits(19) == 19 && Bits(20) == 20 && Bits(25) == 25 && Bits(28) == 28 && Bits(29) == 29 && Bits(31) == 31
  {
  }

  lemma ShortStartStates()
    ensures After(1, 3) == 0x23 && After(0x23, 0) == 0x460 && After(0x460, 1) == 0x8c01
  {
  }

  lemma ShortStart()
    ensures Residue([3, 0, 1]) == 0x8c01
  {
    hide Residue, After, Bits;
    ShortBits();
    ResidueStart();
    ShortStartStates();
    Extended([], 3, [3], 1, 3, 0x23);
    Extended([3], 0, [3, 0], 0x23, 0, 0x460);
    Extended([3, 0], 1, [3, 0, 1], 0x460, 1, 0x8c01);
  }

  lemma ShortPlainStates()
    ensures After(0x8c01, 10) == 0x11802a && After(0x11802a, 28) == 0x230055c && After(0x230055c, 25) == 0x3d6afc2b
    ensures After(0x3d6afc2b, 31) == 0x2f84386 && After(0x2f84386, 20) == 0x24622766 && After(0x24622766, 31) == 1
  {
  }

  lemma ShortPlain()
    ensures Residue([3, 0, 1, 10, 28, 25, 31, 20, 31]) == 1
  {
    hide Residue, After, Bits;
    ShortBits();
    ShortStart();
    ShortPlainStates();
    Extended([3, 0, 1], 10, [3, 0, 1, 10], 0x8c01, 10, 0x11802a);
    Extended([3, 0, 1, 10], 28, [3, 0, 1, 10, 28], 0x11802a, 28, 0x230055c);
    Extended([3, 0, 1, 10, 28], 25, [3, 0, 1, 10, 28, 25], 0x230055c, 25, 0x3d6afc2b);
    Extended([3, 0, 1, 10, 28, 25], 31, [3, 0, 1, 10, 28, 25, 31], 0x3d6afc2b, 31, 0x2f84386);
    Extended([3, 0, 1, 10, 28, 25, 31], 20, [3, 0, 1, 10, 28, 25, 31, 20], 0x2f84386, 20, 0x24622766);
    Extended([3, 0, 1, 10, 28, 25, 31, 20], 31, [3, 0, 1, 10, 28, 25, 31, 20, 31], 0x24622766, 31, 1);
  }

  lemma ShortModifiedStates()
    ensures After(0x8c01, 31) == 0x11803f && After(0x11803f, 0) == 0x23007e0 && After(0x23007e0, 9) == 0x3d6aabbb
    ensures After(0x3d6aabbb, 19) == 0x2f2b18a && After(0x2f2b18a, 17) == 0x253c66e3 && After(0x253c66e3, 29) == 0x2bc830a3
  {
  }

  lemma ShortModified()
    ensures Residue([3, 0, 1, 31, 0, 9, 19, 17, 29]) == 0x2bc830a3
  {
    hide Residue, After, Bits;
    ShortBits();
    ShortStart();
    ShortModifiedStates();
    Extended([3, 0, 1], 31, [3, 0, 1, 31], 0x8c01, 31, 0x11803f);
    Extended([3, 0, 1, 31], 0, [3, 0, 1, 31, 0], 0x11803f, 0, 0x23007e0);
    Extended([3, 0, 1, 31, 0], 9, [3, 0, 1, 31, 0, 9], 0x23007e0, 9, 0x3d6aabbb);
    Extended([3, 0, 1, 31, 0, 9], 19, [3, 0, 1, 31, 0, 9, 19], 0x3d6aabbb, 19, 0x2f2b18a);
    Extended([3, 0, 1, 31, 0, 9, 19], 17, [3, 0, 1, 31, 0, 9, 19, 17], 0x2f2b18a, 17, 0x253c66e3);
    Extended([3, 0, 1, 31, 0, 9, 19, 17], 29, [3, 0, 1, 31, 0, 9, 19, 17, 29], 0x253c66e3, 29, 0x2bc830a3);
  }

  lemma ShortLetters()
    ensures Letters([10, 28, 25, 31, 20, 31]) == "2uel5l" && Letters([31, 0, 9, 19, 17, 29]) == "lqfn3a"
    ensures Expand("a") == [3, 0, 1]
  {
  }

  /** A text without data, from its symbols. */
  lemma TextOfSymbols(hrp: string, enc: Encoding, s: seq<nat>, cs: seq<nat>)
    requires ValidHrp(hrp) && s == Expand(hrp) && |cs| == 6 && Small(s) && Small(cs) && Residue(s + cs) == FinalConstant(enc)
    ensures Text(hrp, [], enc) == hrp + "1" + Letters(cs)
  {
    hide Residue, FinalConstant, Expand, Letter, Checksum;
    ChecksumIsUnique(s, cs, enc);
    assert s + [] == s && [] + cs == cs;
  }

  /** The shortest texts with the human-readable part "a", one of each kind. */
  lemma ShortTexts()
    ensures ValidHrp("a") && Text("a", [], Plain) == "a12uel5l" && Text("a", [], Modified) == "a1lqfn3a"
  {
    hide Residue, Text, Letters, Expand;
    ShortPlain();
    ShortModified();
    ShortLetters();
    assert [3, 0, 1] + [10, 28, 25, 31, 20, 31] == [3, 0, 1, 10, 28, 25, 31, 20, 31];
    assert [3, 0, 1] + [31, 0, 9, 19, 17, 29] == [3, 0, 1, 31, 0, 9, 19, 17, 29];
    TextOfSymbols("a", Plain, [3, 0, 1], [10, 28, 25, 31, 20, 31]);
    TextOfSymbols("a", Modified, [3, 0, 1], [31, 0, 9, 19, 17, 29]);
    assert "a" + "1" + "2uel5l" == "a12uel5l" && "a" + "1" + "lqfn3a" == "a1lqfn3a";
  }

  /** The same for the symbols of an accepted text. */
  lemma SlippedInSymbols(s: seq<nat>, x: seq<nat>, y: seq<nat>, enc: Encoding)
    requires Small(s) && Small(x) && x != [] && x[|x| - 1] == 1 && y == x[..|x| - 1] + [0] + x[|x| - 1..]
    requires !enc.NoEncoding? && Residue(s + x) == FinalConstant(enc)
    ensures enc.Plain? ==> Residue(s + y) == FinalConstant(Plain)
    ensures enc.Modified? ==> Residue(s + y) !in {FinalConstant(Plain), FinalConstant(Modified)}
  {
    hide Residue, Step, FinalConstant, IsState;
    var front := s + x[..|x| - 1];
    assert s + x == front + [1] && s + y == (front + [0]) + [1];
    ResidueIsState(front);
    ResidueNext(front, 1);
    ResidueZero(front);
    ResidueNext(front + [0], 1);
    SlippedIn(Residue(front), enc);
  }

  /** The texts, from their symbols. */
  lemma InsertedText(input: string, text: string, q: char, hrp: string, x: seq<nat>)
    requires Small(x) && |x| >= 6 && LowerText(input) == hrp + "1" + Letters(x) && Lower(q) == 'q'
    requires Lower(input[|input| - 1]) == 'p' && text == input[..|input| - 1] + [q] + input[|input| - 1..]
    ensures x[|x| - 1] == 1 && |text| == |input| + 1
    ensures var y := x[..|x| - 1] + [0] + x[|x| - 1..]; Small(y) && LowerText(text) == hrp + "1" + Letters(y)
  {
    hide Letter;
    var n := |x| - 1;
    var y := x[..n] + [0] + x[n..];
    assert LowerText(input)[|input| - 1] == Letters(x)[n];
    LetterAndBack(Letter(x[n]), x[n]);
    assert Letter(0) == 'q' && Letter(1) == 'p' by {
      FirstLetters();
    }
    LetterAndBack('p', 1);
    var h := hrp + "1";
    forall i | 0 <= i < |text| ensures LowerText(text)[i] == (h + Letters(y))[i] {
      if i < |input| - 1 {
        assert LowerText(text)[i] == LowerText(input)[i] == (h + Letters(x))[i];
      } else if i == |input| {
        assert LowerText(text)[i] == Lower(input[i - 1]);
      }
    }
  }

  lemma FirstLetters()
    ensures Letter(0) == 'q' && Letter(1) == 'p'
  {
  }

  /**
   * A 'q' put in before a last 'p': a Bech32 text is still accepted, as Bech32, and a Bech32m text never is. The second
   * constant was chosen for that.
   */
  lemma InsertedQ(input: string, enc: Encoding, hrp: string, data: seq<nat>, q: char) returns (text: string)
    requires Decodes(input, enc, hrp, data) && |input| < 90 && Lower(input[|input| - 1]) == 'p' && Lower(q) == 'q'
    requires var t := input[..|input| - 1] + [q] + input[|input| - 1..]; !(HasLower(t) && HasUpper(t))
    ensures text == input[..|input| - 1] + [q] + input[|input| - 1..]
    ensures enc.Plain? ==> exists d :: Decodes(text, Plain, hrp, d)
    ensures enc.Modified? ==> Meaningless(text)
  {
    hide HasLower, HasUpper, Residue, Expand, FinalConstant, Letter, Decodes, Checksum, Parsed;
    DecodedShape(input, enc, hrp, data);
    text := input[..|input| - 1] + [q] + input[|input| - 1..];
    var x := DecodedSymbols(input, enc, hrp, data);
    var y := x[..|x| - 1] + [0] + x[|x| - 1..];
    InsertedText(input, text, q, hrp, x);
    SlippedInSymbols(Expand(hrp), x, y, enc);
    DecodedSplit(text, hrp, y);
    if enc.Plain? {
      VerifiesThenDecodes(text, |hrp|, y, Plain);
    } else {
      NotVerified(text, |hrp|, y);
    }
  }

  lemma DecodedShape(input: string, enc: Encoding, hrp: string, data: seq<nat>)
    requires Decodes(input, enc, hrp, data)
    ensures 8 <= |input| <= 90 && hrp != "" && ValidHrp(hrp) && !enc.NoEncoding?
  {
    hide Text, HasLower, HasUpper;
  }
}
