/**
 * vg_b58_encode_check, vg_b58_encode_raw and vg_b58_decode_check of util.c.
 */
module Base58Check {
  // The four check bytes of a payload are those of an arbitrary function `sum`, which stands for the first bytes of a
  // double SHA-256 or Groestl-512.

  import opened Radix
  import opened Base58

  ghost predicate IsChecksum(sum: seq<nat> -> seq<nat>) {
    forall p :: |sum(p)| == 4 && Proper(sum(p), Bytes)
  }

  function LeadingZeros(s: seq<nat>): (z: nat)
    ensures z <= |s| && (forall i :: 0 <= i < z ==> s[i] == 0) && (z < |s| ==> s[z] != 0)
  {
    if s == [] || s[0] != 0 then 0 else 1 + LeadingZeros(s[1..])
  }

  /** The digits of the text of a byte string. */
  function Numerals(bytes: seq<nat>): (ds: seq<nat>)
    ensures Proper(ds, Base58)
  {
    ValueOfDigits(Value(bytes, Bytes), Base58);
    Zeros(LeadingZeros(bytes)) + Digits(Value(bytes, Bytes), Base58)
  }

  function Letters(ds: seq<nat>): (s: string)
    requires Proper(ds, Base58)
    ensures |s| == |ds| && forall i :: 0 <= i < |s| ==> s[i] == Letter(ds[i])
  {
    seq(|ds|, i requires 0 <= i < |ds| => Letter(ds[i]))
  }

  function Text(bytes: seq<nat>): string {
    Letters(Numerals(bytes))
  }

  // ---- Leading zeros

  lemma {:induction false} ValueOfZeros(k: nat, s: seq<nat>, b: Base)
    ensures Value(Zeros(k) + s, b) == Value(s, b)
  {
    var t := Zeros(k) + s;
    if s != [] {
      assert t[..|t| - 1] == Zeros(k) + s[..|s| - 1];
      ValueOfZeros(k, s[..|s| - 1], b);
    } else if k > 0 {
      assert t[..|t| - 1] == Zeros(k - 1) + [];
      ValueOfZeros(k - 1, [], b);
    }
  }

  lemma {:induction false} LeadingZerosOf(k: nat, s: seq<nat>)
    requires s != [] ==> s[0] != 0
    ensures LeadingZeros(Zeros(k) + s) == k
  {
    var t := Zeros(k) + s;
    if k > 0 {
      assert t[1..] == Zeros(k - 1) + s;
      LeadingZerosOf(k - 1, s);
    } else {
      assert t == s;
    }
  }

  /** A string of digits is its leading zeros and then the digits of its value. */
  lemma ZerosThenDigits(s: seq<nat>, b: Base)
    requires Proper(s, b)
    ensures s == Zeros(LeadingZeros(s)) + Digits(Value(s, b), b)
  {
    var z := LeadingZeros(s);
    assert s == Zeros(z) + s[z..];
    ValueOfZeros(z, s[z..], b);
    DigitsOfValue(s[z..], b);
  }

  // ---- The buffer bound

  lemma {:induction false} TwoDigitsPerByte(m: nat)
    ensures Pow(Bytes, m) <= Pow(Base58, 2 * m)
    ensures m >= 7 ==> Pow(Bytes, m) <= Pow(Base58, 2 * m - 4)
  {
    if m > 0 {
      TwoDigitsPerByte(m - 1);
      assert Pow(Base58, 2 * m) == 58 * (58 * Pow(Base58, 2 * (m - 1)));
    }
    if m == 7 {
      assert Pow(Bytes, 7) == 0x100_0000_0000_0000;
      assert Pow(Base58, 10) == 430804206899405824;
    } else if m > 7 {
      assert Pow(Base58, 2 * m - 4) == 58 * (58 * Pow(Base58, 2 * (m - 1) - 4));
    }
  }

  lemma FewBytes(m: nat)
    requires m < 7
    ensures Pow(Bytes, m) <= Pow(Base58, m + 3)
  {
    assert Pow(Bytes, 0) == 1 && Pow(Bytes, 1) == 256 && Pow(Bytes, 2) == 0x1_0000 && Pow(Bytes, 3) == 0x100_0000;
    assert Pow(Bytes, 4) == 0x1_0000_0000 && Pow(Bytes, 5) == 0x100_0000_0000 && Pow(Bytes, 6) == 0x1_0000_0000_0000;
    assert Pow(Base58, 3) == 195112 && Pow(Base58, 4) == 11316496 && Pow(Base58, 5) == 656356768;
    assert Pow(Base58, 6) == 38068692544 && Pow(Base58, 7) == 2207984167552 && Pow(Base58, 8) == 128063081718016;
    assert Pow(Base58, 9) == 7427658739644928;
  }

  lemma PowLess(b: Base, i: nat, k: nat)
    requires Pow(b, i) < Pow(b, k)
    ensures i < k
  {
    if i >= k {
      PowMonotone(b, k, i);
    }
  }

  lemma DigitsAtMost(n: nat, b: Base, k: nat)
    requires n < Pow(b, k)
    ensures |Digits(n, b)| <= k
  {
    if n > 0 {
      DigitsBounds(n, b);
      PowLess(b, |Digits(n, b)| - 1, k);
    }
  }

  /**
   * The text of n bytes needs at most 2n characters, and at most 2n - 4 when there are at least 7 bytes: the index that
   * runs down through the buffer of the encoders stays at or above zero.
   */
  lemma TextFits(bytes: seq<nat>)
    requires Proper(bytes, Bytes)
    ensures |Numerals(bytes)| <= 2 * |bytes|
    ensures |bytes| >= 7 ==> |Numerals(bytes)| <= 2 * |bytes| - 4
  {
    var n := Value(bytes, Bytes);
    var m := |Digits(n, Bytes)|;
    ZerosThenDigits(bytes, Bytes);
    DigitsBounds(n, Bytes);
    TwoDigitsPerByte(m);
    DigitsAtMost(n, Base58, 2 * m);
    if m < 7 {
      FewBytes(m);
      DigitsAtMost(n, Base58, m + 3);
    } else {
      DigitsAtMost(n, Base58, 2 * m - 4);
    }
  }

  // ---- Encoding

  lemma LastDigit(n: nat)
    requires n > 0
    ensures Digits(n, Base58) == Digits(n / 58, Base58) + [n % 58]
  {
  }

  /** Takes the digits of n one by one and writes their letters downwards from p. */
  method WriteDigits(buf: array<int>, n0: nat, p0: nat) returns (p: nat)
    requires p0 <= buf.Length && |Digits(n0, Base58)| <= p0
    modifies buf
    ensures p + |Digits(n0, Base58)| == p0
    ensures Proper(Digits(n0, Base58), Base58)
    ensures forall i :: p <= i < p0 ==> buf[i] == Letter(Digits(n0, Base58)[i - p]) as int
    ensures forall i :: 0 <= i < p || p0 <= i < buf.Length ==> buf[i] == old(buf[i])
  {
    hide Digits, Value;
    var n := n0;
    p := p0;
    ghost var all := Digits(n0, Base58);
    ghost var start := p0 - |all|;
    ValueOfDigits(n0, Base58);
    while n != 0
      invariant start <= p <= p0 && Digits(n, Base58) == all[..p - start]
      invariant forall i :: p <= i < p0 ==> buf[i] == Letter(all[i - start]) as int
      invariant forall i :: 0 <= i < p || p0 <= i < buf.Length ==> buf[i] == old(buf[i])
      decreases n
    {
      var d := n % 58;
      LastDigit(n);
      n := n / 58;
      p := p - 1;
      assert d == all[p - start];
      buf[p] := Letter(d) as int;
    }
    ValueOfDigits(0, Base58);
  }

  method WriteOnes(buf: array<int>, zpfx0: nat, p0: nat) returns (p: nat)
    requires zpfx0 <= p0 <= buf.Length
    modifies buf
    ensures p + zpfx0 == p0
    ensures forall i :: p <= i < p0 ==> buf[i] == Letter(0) as int
    ensures forall i :: p0 <= i < buf.Length ==> buf[i] == old(buf[i])
  {
    var zpfx := zpfx0;
    p := p0;
    while zpfx > 0
      invariant 0 <= zpfx <= zpfx0 && p + zpfx0 == p0 + zpfx
      invariant forall i :: p <= i < p0 ==> buf[i] == Letter(0) as int
      invariant forall i :: p0 <= i < buf.Length ==> buf[i] == old(buf[i])
    {
      zpfx := zpfx - 1;
      p := p - 1;
      buf[p] := Letter(0) as int;
    }
  }

  method CountZeros(buf: array<int>, n: nat) returns (zpfx: nat)
    requires n <= buf.Length && forall i :: 0 <= i < n ==> buf[i] >= 0
    ensures zpfx == LeadingZeros(buf[..n])
  {
    zpfx := 0;
    while zpfx < n && buf[zpfx] == 0
      invariant zpfx <= n && forall i :: 0 <= i < zpfx ==> buf[i] == 0
    {
      zpfx := zpfx + 1;
    }
  }

  method WriteText(buf: array<int>, n: nat, zpfx: nat) returns (p: nat)
    requires zpfx + |Digits(n, Base58)| <= buf.Length
    modifies buf
    ensures var ds := Zeros(zpfx) + Digits(n, Base58);
      Proper(ds, Base58) && p + |ds| == buf.Length && forall i :: 0 <= i < |ds| ==> buf[p + i] == Letter(ds[i]) as int
  {
    hide Digits, Letter;
    ghost var ds := Digits(n, Base58);
    var q := WriteDigits(buf, n, buf.Length);
    p := WriteOnes(buf, zpfx, q);
    assert forall i :: q <= i < buf.Length ==> buf[i] == Letter(ds[i - q]) as int;
  }

  /** The characters from p to the end of the buffer. */
  method CopyText(buf: array<int>, p: nat, ghost ds: seq<nat>) returns (result: string)
    requires Proper(ds, Base58) && p + |ds| == buf.Length
    requires forall i :: 0 <= i < |ds| ==> buf[p + i] == Letter(ds[i]) as int
    ensures result == Letters(ds)
  {
    result := [];
    for i := p to buf.Length
      invariant result == Letters(ds)[..i - p]
    {
      assert buf[p + (i - p)] == Letter(ds[i - p]) as int;
      result := result + [buf[i] as char];
    }
  }

  /**
   * The common part of the two encoders: bytes sits at the front of a buffer of brlen bytes and is written over from
   * its end.
   */
  method EncodeBuffer(bytes: seq<nat>, brlen: nat) returns (result: string)
    requires Proper(bytes, Bytes) && |bytes| <= brlen && |Numerals(bytes)| <= brlen
    ensures result == Text(bytes)
  {
    var binres := new int[brlen](i => if 0 <= i < |bytes| then bytes[i] else 0);
    var zpfx := CountZeros(binres, |bytes|);
    assert binres[..|bytes|] == bytes;
    var p := WriteText(binres, Value(bytes, Bytes), zpfx);
    result := CopyText(binres, p, Numerals(bytes));
  }

  /** The text stays within the buffer of the checked encoder. */
  predicate FitsBuffer(payload: seq<nat>, sum: seq<nat> -> seq<nat>) {
    |Numerals(payload + sum(payload))| <= 2 * |payload| + 4
  }

  /** vg_b58_encode_check, where it does not write below its buffer; see BufferSuffices. */
  method EncodeCheck(payload: seq<nat>, sum: seq<nat> -> seq<nat>) returns (result: string)
    requires Proper(payload, Bytes) && IsChecksum(sum) && FitsBuffer(payload, sum)
    ensures result == Text(payload + sum(payload))
  {
    var bytes := payload + sum(payload);
    result := EncodeBuffer(bytes, 2 * |payload| + 4);
  }

  /** vg_b58_encode_raw */
  method EncodeRaw(buf: seq<nat>) returns (result: string)
    requires Proper(buf, Bytes)
    ensures result == Text(buf)
  {
    TextFits(buf);
    result := EncodeBuffer(buf, 2 * |buf| + 2);
  }

  // ---- Which payloads fit the buffer

  lemma DigitsMoreThan(n: nat, b: Base, k: nat)
    requires Pow(b, k) <= n
    ensures |Digits(n, b)| > k
  {
    DigitsBounds(n, b);
    PowLess(b, k, |Digits(n, b)|);
  }

  /** With fewer than 3 bytes the text can be longer than the buffer, whatever the checksum of these bytes. */
  lemma ShortPayload(n: nat, sum: seq<nat> -> seq<nat>) returns (payload: seq<nat>)
    requires IsChecksum(sum) && n < 3 && (n == 0 ==> sum([])[0] != 0)
    ensures |payload| == n && Proper(payload, Bytes) && !FitsBuffer(payload, sum)
  {
    payload := if n == 0 then [] else if n == 1 then [255] else [255, 255];
    var bytes := payload + sum(payload);
    LeadingDigit(bytes, Bytes);
    assert Pow(Bytes, 3) == 0x100_0000 && Pow(Bytes, 4) == 0x1_0000_0000 && Pow(Bytes, 5) == 0x100_0000_0000;
    assert Pow(Base58, 4) == 11316496 && Pow(Base58, 6) == 38068692544 && Pow(Base58, 8) == 128063081718016;
    DigitsMoreThan(Value(bytes, Bytes), Base58, 2 * n + 4);
  }

  /** The buffer is large enough for all payloads of n bytes exactly when there are at least 3 of them. */
  lemma BufferSuffices(n: nat, sum: seq<nat> -> seq<nat>)
    requires IsChecksum(sum) && (n == 0 ==> sum([])[0] != 0)
    ensures (forall payload :: |payload| == n && Proper(payload, Bytes) ==> FitsBuffer(payload, sum)) <==> n >= 3
  {
    if n >= 3 {
      forall payload | |payload| == n && Proper(payload, Bytes) ensures FitsBuffer(payload, sum) {
        TextFits(payload + sum(payload));
      }
    } else {
      var payload := ShortPayload(n, sum);
    }
  }

  // ---- Decoding

  predicate SkipChar(c: char) {
    c == '\r' || c == '\n' || c == ' ' || c == '\t'
  }

  /** The text without the characters the decoder skips. */
  function Strip(s: string): (t: string)
    ensures forall c :: c in t ==> !SkipChar(c)
  {
    if s == [] then [] else
    var n := |s| - 1;
    if SkipChar(s[n]) then Strip(s[..n]) else Strip(s[..n]) + [s[n]]
  }

  predicate AllDigits(t: string) {
    forall i :: 0 <= i < |t| ==> ReverseMap(t[i]) >= 0
  }

  function DigitsOf(t: string): (ds: seq<nat>)
    requires AllDigits(t)
    ensures |ds| == |t| && Proper(ds, Base58) && forall i :: 0 <= i < |t| ==> ds[i] == ReverseMap(t[i])
  {
    seq(|t|, i requires 0 <= i < |t| => MapLetter(t[i]); ReverseMap(t[i]))
  }

  /** The bytes a text stands for: one zero byte per leading '1', then the bytes of the number. */
  function BytesOf(t: string): (bs: seq<nat>)
    requires AllDigits(t)
    ensures Proper(bs, Bytes)
  {
    ValueOfDigits(Value(DigitsOf(t), Base58), Bytes);
    Zeros(LeadingZeros(DigitsOf(t))) + Digits(Value(DigitsOf(t), Base58), Bytes)
  }

  /** The text is accepted, and stands for payload. */
  predicate Accepts(input: string, sum: seq<nat> -> seq<nat>, payload: seq<nat>) {
    AllDigits(Strip(input)) && |payload| >= 1 && BytesOf(Strip(input)) == payload + sum(payload)
  }

  lemma {:induction false} StripPrefix(s: string, i: nat)
    requires i <= |s|
    ensures Strip(s[..i]) <= Strip(s)
  {
    if i < |s| {
      var n := |s| - 1;
      assert s[..n][..i] == s[..i];
      StripPrefix(s[..n], i);
    } else {
      assert s[..i] == s;
    }
  }

  lemma StripNext(s: string, i: nat)
    requires i < |s|
    ensures Strip(s[..i + 1]) == if SkipChar(s[i]) then Strip(s[..i]) else Strip(s[..i]) + [s[i]]
  {
    assert s[..i + 1][..i] == s[..i];
  }

  lemma ValueNext(t: string, c: char)
    requires AllDigits(t) && ReverseMap(c) >= 0
    ensures AllDigits(t + [c]) && Value(DigitsOf(t + [c]), Base58) == Value(DigitsOf(t), Base58) * 58 + ReverseMap(c)
  {
    var ds := DigitsOf(t + [c]);
    assert ds[..|t|] == DigitsOf(t);
  }

  lemma BadCharacter(s: string, i: nat)
    requires i < |s| && !SkipChar(s[i]) && ReverseMap(s[i]) < 0
    ensures !AllDigits(Strip(s))
  {
    StripNext(s, i);
    StripPrefix(s, i + 1);
    assert Strip(s)[|Strip(s[..i])|] == s[i];
  }

  /** The number that the first i characters spell, once the character i is read as well. */
  lemma ReadNext(s: string, i: nat)
    requires i < |s| && AllDigits(Strip(s[..i])) && (SkipChar(s[i]) || ReverseMap(s[i]) >= 0)
    ensures AllDigits(Strip(s[..i + 1]))
    ensures var n := Value(DigitsOf(Strip(s[..i])), Base58);
      Value(DigitsOf(Strip(s[..i + 1])), Base58) == if SkipChar(s[i]) then n else n * 58 + ReverseMap(s[i])
  {
    StripNext(s, i);
    if !SkipChar(s[i]) {
      ValueNext(Strip(s[..i]), s[i]);
    }
  }

  /** Reads the text as a number; -1 for a character outside the alphabet. */
  method ReadNumber(input: string) returns (bn: int)
    ensures if AllDigits(Strip(input)) then bn == Value(DigitsOf(Strip(input)), Base58) else bn == -1
  {
    bn := 0;
    var i := 0;
    while i < |input|
      invariant 0 <= i <= |input|
      invariant AllDigits(Strip(input[..i])) && bn == Value(DigitsOf(Strip(input[..i])), Base58)
    {
      if !SkipChar(input[i]) {
        var c := ReverseMap(input[i]);
        if c < 0 {
          BadCharacter(input, i);
          return -1;
        }
        bn := bn * 58 + c;
      }
      ReadNext(input, i);
      i := i + 1;
    }
    assert input[..i] == input;
  }

  lemma LeadingZerosAre(s: seq<nat>, z: nat)
    requires z <= |s| && (forall i :: 0 <= i < z ==> s[i] == 0) && (z < |s| ==> s[z] != 0)
    ensures LeadingZeros(s) == z
  {
    assert s == Zeros(z) + s[z..];
    LeadingZerosOf(z, s[z..]);
  }

  method CountOnes(input: string) returns (zpfx: nat)
    requires AllDigits(Strip(input))
    ensures zpfx == LeadingZeros(DigitsOf(Strip(input)))
  {
    hide Strip, LeadingZeros;
    StripNothing(input[..0]);
    zpfx := 0;
    var i := 0;
    while i < |input|
      invariant 0 <= i <= |input|
      invariant |Strip(input[..i])| == zpfx && forall j :: 0 <= j < zpfx ==> Strip(input[..i])[j] == Letter(0)
    {
      StripNext(input, i);
      if !SkipChar(input[i]) {
        StripPrefix(input, i + 1);
        if input[i] != Letter(0) {
          ghost var ds := DigitsOf(Strip(input));
          assert Strip(input)[zpfx] == input[i];
          MapLetter(input[i]);
          assert forall j :: 0 <= j < zpfx ==> ds[j] == 0;
          LeadingZerosAre(ds, zpfx);
          return;
        }
        zpfx := zpfx + 1;
      }
      i := i + 1;
    }
    assert input[..i] == input;
    LeadingZerosAre(DigitsOf(Strip(input)), zpfx);
  }

  lemma SplitEnd(x: seq<nat>, p: seq<nat>, c: seq<nat>)
    requires x == p + c
    ensures |p| == |x| - |c| && x[..|p|] == p && x[|p|..] == c
  {
  }

  /** vg_b58_decode_check: the length of the payload, or 0, and the part of the payload that is copied out. */
  method DecodeCheck(input: string, len: nat, sum: seq<nat> -> seq<nat>)
      returns (res: nat, buf: seq<nat>, ghost payload: seq<nat>)
    requires IsChecksum(sum)
    ensures res > 0 ==> Accepts(input, sum, payload) && res == |payload| && buf == payload[..if len < res then len else res]
    ensures res == 0 ==> buf == [] && forall p :: !Accepts(input, sum, p)
  {
    res, buf, payload := 0, [], [];
    var bn := ReadNumber(input);
    if bn < 0 {
      return;
    }
    var zpfx := CountOnes(input);
    var xbuf := Zeros(zpfx) + Digits(bn, Bytes);
    var l := |xbuf|;
    if l < 5 {
      return;
    }
    l := l - 4;
    if sum(xbuf[..l]) != xbuf[l..] {
      forall p | Accepts(input, sum, p) ensures false {
        SplitEnd(xbuf, p, sum(p));
      }
      return;
    }
    payload := xbuf[..l];
    assert xbuf == payload + sum(payload);
    buf := xbuf[..if len < l then len else l];
    res := l;
  }

  // ---- One character more

  lemma {:induction false} StripConcat(a: string, b: string)
    ensures Strip(a + b) == Strip(a) + Strip(b)
  {
    if b == [] {
      assert a + b == a;
    } else {
      assert (a + b)[..|a + b| - 1] == a + b[..|b| - 1];
      StripConcat(a, b[..|b| - 1]);
    }
  }

  lemma InAlphabet(c: char)
    ensures c in ALPHABET <==> ReverseMap(c) >= 0
  {
    hide ReverseMap, Letter, ALPHABET;
    AlphabetLetters();
    if c in ALPHABET {
      var d :| 0 <= d < |ALPHABET| && ALPHABET[d] == c;
      LetterMap(d);
    }
    if ReverseMap(c) >= 0 {
      MapLetter(c);
    }
  }

  /**
   * A character put in anywhere: a blank, a tab or the end of a line makes no difference, a character of the alphabet
   * counts, and for any other the text is refused.
   */
  lemma OneCharacterMore(a: string, c: char, b: string, sum: seq<nat> -> seq<nat>)
    ensures c in {' ', '\t', '\r', '\n'} ==> forall p :: Accepts(a + [c] + b, sum, p) <==> Accepts(a + b, sum, p)
    ensures c in ALPHABET ==> Strip(a + [c] + b) == Strip(a) + [c] + Strip(b)
    ensures c !in ALPHABET && c !in {' ', '\t', '\r', '\n'} ==> forall p :: !Accepts(a + [c] + b, sum, p)
  {
    hide ReverseMap, BytesOf, ALPHABET, Strip;
    StripConcat(a + [c], b);
    StripConcat(a, [c]);
    StripConcat(a, b);
    StripOne(c);
    InAlphabet(c);
    if c !in ALPHABET && !SkipChar(c) {
      assert (a + [c] + b)[|a|] == c;
      BadCharacter(a + [c] + b, |a|);
    }
    assert Strip(a) + [] + Strip(b) == Strip(a) + Strip(b);
    if c in ALPHABET {
      NotSkipped(c);
    }
  }

  lemma NotSkipped(c: char)
    requires ReverseMap(c) >= 0
    ensures !SkipChar(c)
  {
  }

  lemma StripOne(c: char)
    ensures Strip([c]) == if SkipChar(c) then [] else [c]
  {
    assert [c][..0] == [];
  }

  // ---- The two undo each other

  lemma {:induction false} StripNothing(t: string)
    requires forall i :: 0 <= i < |t| ==> !SkipChar(t[i])
    ensures Strip(t) == t
  {
    if t != [] {
      StripNothing(t[..|t| - 1]);
      assert t == t[..|t| - 1] + [t[|t| - 1]];
    }
  }

  lemma LettersAndBack(ds: seq<nat>)
    requires Proper(ds, Base58)
    ensures Strip(Letters(ds)) == Letters(ds) && AllDigits(Letters(ds)) && DigitsOf(Letters(ds)) == ds
  {
    var t := Letters(ds);
    forall i | 0 <= i < |t| ensures ReverseMap(t[i]) == ds[i] && !SkipChar(t[i]) {
      LetterMap(ds[i]);
    }
    StripNothing(t);
    assert DigitsOf(t) == ds;
  }

  /** Changing the base of the digits after the leading zeros, twice, changes nothing. */
  lemma BytesOfNumerals(bytes: seq<nat>)
    requires Proper(bytes, Bytes)
    ensures BytesOf(Text(bytes)) == bytes
  {
    var n := Value(bytes, Bytes);
    LettersAndBack(Numerals(bytes));
    ValueOfDigits(n, Base58);
    LeadingZerosOf(LeadingZeros(bytes), Digits(n, Base58));
    ValueOfZeros(LeadingZeros(bytes), Digits(n, Base58), Base58);
    ZerosThenDigits(bytes, Bytes);
  }

  lemma NumeralsOfBytes(t: string)
    requires AllDigits(t)
    ensures Numerals(BytesOf(t)) == DigitsOf(t)
  {
    var ds := DigitsOf(t);
    var n := Value(ds, Base58);
    ValueOfDigits(n, Bytes);
    LeadingZerosOf(LeadingZeros(ds), Digits(n, Bytes));
    ValueOfZeros(LeadingZeros(ds), Digits(n, Bytes), Bytes);
    ZerosThenDigits(ds, Base58);
  }

  /** Decoding undoes encoding. */
  lemma DecodeEncode(payload: seq<nat>, sum: seq<nat> -> seq<nat>)
    requires Proper(payload, Bytes) && payload != [] && IsChecksum(sum)
    ensures Accepts(Text(payload + sum(payload)), sum, payload)
    ensures forall p :: Accepts(Text(payload + sum(payload)), sum, p) ==> p == payload
  {
    var bytes := payload + sum(payload);
    BytesOfNumerals(bytes);
    LettersAndBack(Numerals(bytes));
    forall p | Accepts(Text(bytes), sum, p) ensures p == payload {
      SplitEnd(bytes, p, sum(p));
      SplitEnd(bytes, payload, sum(payload));
    }
  }

  /** Encoding undoes decoding, except for the characters the decoder skips. */
  lemma EncodeDecode(input: string, sum: seq<nat> -> seq<nat>, payload: seq<nat>)
    requires Accepts(input, sum, payload)
    ensures Text(payload + sum(payload)) == Strip(input)
  {
    var t := Strip(input);
    NumeralsOfBytes(t);
    forall i | 0 <= i < |t| ensures Letter(DigitsOf(t)[i]) == t[i] {
      MapLetter(t[i]);
    }
  }
}
