/**
 * convert_bits of bech32.c: the same bits in groups of another size, through a 32-bit accumulator.
 *
 * Groups are natural numbers, most significant bit first, and `Flat` is the sequence of all their bits. Regrouping with
 * padding fills the last group up with zeros; without padding what is left over must be zeros and less than one group
 * of the input.
 */
module Regroup {
  import opened Arithmetic

  // ---- Machine words: v >> k, v << k and the lowest k bits of v

  function Shr(v: nat, k: nat): nat {
    if k == 0 then v else Shr(v / 2, k - 1)
  }

  function Shl(v: nat, k: nat): nat {
    if k == 0 then v else 2 * Shl(v, k - 1)
  }

  function Low(v: nat, k: nat): nat {
    if k == 0 then 0 else 2 * Low(v / 2, k - 1) + v % 2
  }

  predicate Fits(v: nat, k: nat) { Low(v, k) == v }

  predicate AllFit(s: seq<nat>, k: nat) {
    forall i :: 0 <= i < |s| ==> Fits(s[i], k)
  }

  // ---- Bits, the most significant first

  function Bits(v: nat, k: nat): (b: seq<bool>)
    ensures |b| == k
  {
    if k == 0 then [] else Bits(v / 2, k - 1) + [v % 2 == 1]
  }

  function Value(b: seq<bool>): nat {
    if b == [] then 0 else 2 * Value(b[..|b| - 1]) + if b[|b| - 1] then 1 else 0
  }

  function Flat(s: seq<nat>, k: nat): seq<bool> {
    if s == [] then [] else Flat(s[..|s| - 1], k) + Bits(s[|s| - 1], k)
  }

  function Zeros(n: nat): (b: seq<bool>)
    ensures |b| == n && forall i :: 0 <= i < n ==> !b[i]
  {
    seq(n, _ => false)
  }

  predicate AllZero(b: seq<bool>) { forall i :: 0 <= i < |b| ==> !b[i] }

  lemma {:induction false} ValueOfBits(v: nat, k: nat)
    ensures Value(Bits(v, k)) == Low(v, k)
  {
    if k > 0 {
      ValueOfBits(v / 2, k - 1);
      assert Bits(v, k)[..k - 1] == Bits(v / 2, k - 1);
    }
  }

  lemma {:induction false} BitsOfValue(b: seq<bool>)
    ensures Bits(Value(b), |b|) == b && Fits(Value(b), |b|)
  {
    if b != [] {
      BitsOfValue(b[..|b| - 1]);
      assert Value(b) / 2 == Value(b[..|b| - 1]);
    }
  }

  // ---- How the machine operations move bits

  lemma {:induction false} LowLow(v: nat, k: nat, m: nat)
    requires k <= m
    ensures Bits(Low(v, m), k) == Bits(v, k) && Low(Low(v, m), k) == Low(v, k)
  {
    if k > 0 {
      assert Low(v, m) / 2 == Low(v / 2, m - 1);
      LowLow(v / 2, k - 1, m - 1);
    }
  }

  lemma {:induction false} ShlHalf(v: nat, w: nat, a: nat)
    requires a > 0
    ensures (Shl(v, a) + w) / 2 == Shl(v, a - 1) + w / 2 && (Shl(v, a) + w) % 2 == w % 2
  {
  }

  /** Moving up by a and putting a bits behind. */
  lemma {:induction false} BitsOfShl(v: nat, w: nat, a: nat, b: nat)
    requires Fits(w, a)
    ensures Bits(Shl(v, a) + w, b + a) == Bits(v, b) + Bits(w, a)
  {
    if a > 0 {
      ShlHalf(v, w, a);
      assert Fits(w / 2, a - 1);
      BitsOfShl(v, w / 2, a - 1, b);
    } else {
      assert w == 0;
    }
  }

  /** What is lost above bit m was not needed: only b + a bits are looked at. */
  lemma {:induction false} LowOfShl(v: nat, a: nat, m: nat)
    requires a <= m
    ensures Low(Shl(v, a), m) == Shl(Low(v, m - a), a)
  {
    if a > 0 {
      ShlHalf(v, 0, a);
      LowOfShl(v, a - 1, m - 1);
    }
  }

  lemma Accumulate(val: nat, w: nat, a: nat, b: nat)
    requires Fits(w, a) && a + b <= 32
    ensures Bits(Low(Shl(val, a), 32) + w, b + a) == Bits(val, b) + Bits(w, a)
  {
    LowOfShl(val, a, 32);
    BitsOfShl(Low(val, 32 - a), w, a, b);
    LowLow(val, b, 32 - a);
  }

  lemma {:induction false} BitsOfShr(v: nat, a: nat, k: nat)
    ensures Bits(v, k + a) == Bits(Shr(v, a), k) + Bits(v, a)
  {
    if a > 0 {
      BitsOfShr(v / 2, a - 1, k);
    }
  }

  // ---- Groups

  /** The full groups of k bits, and what is left over. */
  function Chunks(b: seq<bool>, k: nat): (s: seq<nat>)
    requires k > 0
  {
    if |b| < k then [] else [Value(b[..k])] + Chunks(b[k..], k)
  }

  function Rest(b: seq<bool>, k: nat): (r: seq<bool>)
    requires k > 0
    ensures |r| < k
  {
    if |b| < k then b else Rest(b[k..], k)
  }

  /** The groups, the last one filled up with zeros. */
  function Padded(b: seq<bool>, k: nat): seq<nat>
    requires k > 0
  {
    var r := Rest(b, k);
    if r == [] then Chunks(b, k) else Chunks(b, k) + [Value(r + Zeros(k - |r|))]
  }

  lemma {:induction false} FlatConcat(s: seq<nat>, t: seq<nat>, k: nat)
    ensures Flat(s + t, k) == Flat(s, k) + Flat(t, k)
  {
    hide Bits;
    if t == [] {
      assert s + t == s;
    } else {
      var n := |t| - 1;
      assert (s + t)[..|s| + n] == s + t[..n];
      FlatConcat(s, t[..n], k);
    }
  }

  lemma FlatOne(v: nat, k: nat)
    ensures Flat([v], k) == Bits(v, k)
  {
    assert [v][..0] == [];
  }

  lemma FlatNone(k: nat)
    ensures Flat([], k) == []
  {
  }

  lemma SplitConcat(x: seq<bool>, y: seq<bool>, z: seq<bool>)
    ensures (x + y) + z == x + (y + z)
    ensures (x + (y + z))[..|x|] == x && (x + (y + z))[|x|..] == y + z
  {
  }

  /** Cutting up a string of bits and joining the groups again. */
  lemma {:induction false} FlatOfChunks(b: seq<bool>, k: nat)
    requires k > 0
    ensures Flat(Chunks(b, k), k) + Rest(b, k) == b && AllFit(Chunks(b, k), k)
  {
    hide Bits, Value, Low, Flat;
    FlatNone(k);
    if |b| >= k {
      FlatOfChunks(b[k..], k);
      BitsOfValue(b[..k]);
      FlatConcat([Value(b[..k])], Chunks(b[k..], k), k);
      FlatOne(Value(b[..k]), k);
      SplitConcat(b[..k], Flat(Chunks(b[k..], k), k), Rest(b[k..], k));
      assert b == b[..k] + b[k..];
    }
  }

  lemma FirstGroup(s: seq<nat>, r: seq<bool>, k: nat)
    requires s != []
    ensures var b := Flat(s, k) + r; |b| >= k && b[..k] == Bits(s[0], k) && b[k..] == Flat(s[1..], k) + r
  {
    hide Bits, Flat;
    assert s == [s[0]] + s[1..];
    FlatConcat([s[0]], s[1..], k);
    FlatOne(s[0], k);
    SplitConcat(Bits(s[0], k), Flat(s[1..], k), r);
  }

  /** Joining groups and cutting them up again. */
  lemma {:induction false} ChunksOfFlat(s: seq<nat>, r: seq<bool>, k: nat)
    requires k > 0 && AllFit(s, k) && |r| < k
    ensures Chunks(Flat(s, k) + r, k) == s && Rest(Flat(s, k) + r, k) == r
  {
    hide Bits, Value, Low;
    if s == [] {
      assert Flat(s, k) + r == r;
    } else {
      FirstGroup(s, r, k);
      ValueOfBits(s[0], k);
      hide Flat;
      ChunksOfFlat(s[1..], r, k);
      assert s == [s[0]] + s[1..];
    }
  }

  lemma FlatOfPadded(b: seq<bool>, k: nat)
    requires k > 0
    ensures var r := Rest(b, k); Flat(Padded(b, k), k) == b + Zeros(if r == [] then 0 else k - |r|)
    ensures AllFit(Padded(b, k), k)
  {
    hide Bits, Value, Flat, Low, Chunks, Rest;
    var r := Rest(b, k);
    FlatOfChunks(b, k);
    if r != [] {
      var last := r + Zeros(k - |r|);
      BitsOfValue(last);
      FlatConcat(Chunks(b, k), [Value(last)], k);
      FlatOne(Value(last), k);
      assert Flat(Padded(b, k), k) == b + Zeros(k - |r|);
    } else {
      assert b + Zeros(0) == b;
    }
  }

  /** Filling up is only needed once: bits that come from groups of k, less some zeros, give those groups again. */
  lemma PaddedUnique(b: seq<bool>, z: nat, d: seq<nat>, k: nat)
    requires k > 0 && z < k && AllFit(d, k) && b + Zeros(z) == Flat(d, k)
    ensures Padded(b, k) == d
  {
    hide Bits, Value, Low, Flat, Chunks, Rest, Padded;
    FlatOfPadded(b, k);
    var r := Rest(b, k);
    var p := if r == [] then 0 else k - |r|;
    FlatLength(Padded(b, k), k);
    FlatLength(d, k);
    SameMultiple(|Padded(b, k)|, |d|, |b|, p, z, k);
    ChunksOfFlat(d, [], k);
    ChunksOfFlat(Padded(b, k), [], k);
    assert Flat(d, k) + [] == Flat(Padded(b, k), k) + [];
  }

  lemma {:induction false} FlatLength(s: seq<nat>, k: nat)
    ensures |Flat(s, k)| == |s| * k
  {
    if s != [] {
      FlatLength(s[..|s| - 1], k);
      assert |s| * k == (|s| - 1) * k + k;
    }
  }

  lemma SameMultiple(m: nat, n: nat, len: nat, p: nat, z: nat, k: nat)
    requires m * k == len + p && n * k == len + z && p < k && z < k
    ensures p == z
  {
    assert (m - n) * k == m * k - n * k;
    MultipleIsLarge(m - n, k);
  }

  /** Regrouping and regrouping back, when what is filled up is less than one of the smaller groups. */
  lemma ThereAndBack(s: seq<nat>, a: nat, b: nat)
    requires 0 < b <= a && AllFit(s, a)
    ensures var t := Flat(Padded(Flat(s, a), b), b);
      Chunks(t, a) == s && AllZero(Rest(t, a)) && |Rest(t, a)| < b
  {
    var r := Rest(Flat(s, a), b);
    var z := Zeros(if r == [] then 0 else b - |r|);
    FlatOfPadded(Flat(s, a), b);
    ChunksOfFlat(s, z, a);
  }

  /** And the other way round. */
  lemma BackAndThere(d: seq<nat>, a: nat, b: nat)
    requires 0 < b && 0 < a && AllFit(d, b) && AllZero(Rest(Flat(d, b), a)) && |Rest(Flat(d, b), a)| < b
    ensures Padded(Flat(Chunks(Flat(d, b), a), a), b) == d
  {
    var r := Rest(Flat(d, b), a);
    FlatOfChunks(Flat(d, b), a);
    assert r == Zeros(|r|);
    PaddedUnique(Flat(Chunks(Flat(d, b), a), a), |r|, d, b);
  }

  // ---- convert_bits

  lemma {:induction false} ValueZero(b: seq<bool>)
    ensures Value(b) == 0 <==> AllZero(b)
  {
    if b != [] {
      ValueZero(b[..|b| - 1]);
      assert forall i :: 0 <= i < |b| - 1 ==> b[..|b| - 1][i] == b[i];
    }
  }

  lemma Cancel(x: int, y: int, k: nat)
    requires k > 0
    ensures x * k < y * k ==> x < y
    ensures x <= y ==> x * k <= y * k
  {
    MulMonotone(x, y, k);
    MulMonotone(y, x, k);
  }

  lemma MulMonotone(x: int, y: int, k: nat)
    ensures x <= y ==> x * k <= y * k
  {
    if x <= y {
      assert y * k == x * k + (y - x) * k;
    }
  }

  /** What the accumulator holds: outs has been written, the lowest bits of val are still to be. */
  ghost predicate Holding(input: seq<nat>, inbits: nat, outs: seq<nat>, outbits: nat, val: nat, bits: nat) {
    Flat(input, inbits) == Flat(outs, outbits) + Bits(val, bits) && AllFit(outs, outbits)
  }

  lemma TakeIn(input: seq<nat>, w: nat, inbits: nat, outs: seq<nat>, outbits: nat, val: nat, bits: nat)
    requires Holding(input, inbits, outs, outbits, val, bits) && Fits(w, inbits) && inbits + bits <= 32
    ensures Holding(input + [w], inbits, outs, outbits, Low(Shl(val, inbits), 32) + w, bits + inbits)
  {
    hide Bits, Flat, Low, Shl, Fits;
    Accumulate(val, w, inbits, bits);
    FlatConcat(input, [w], inbits);
    FlatOne(w, inbits);
  }

  lemma GiveOut(input: seq<nat>, inbits: nat, outs: seq<nat>, outbits: nat, val: nat, bits: nat)
    requires Holding(input, inbits, outs, outbits, val, bits + outbits)
    ensures Holding(input, inbits, outs + [Low(Shr(val, bits), outbits)], outbits, val, bits)
  {
    hide Bits, Flat, Low, Shr;
    var v := Low(Shr(val, bits), outbits);
    BitsOfShr(val, bits, outbits);
    LowLow(Shr(val, bits), outbits, outbits);
    FlatConcat(outs, [v], outbits);
    FlatOne(v, outbits);
  }

  /** There is room for one more group. */
  lemma RoomFor(input: seq<nat>, n: nat, inbits: nat, outs: seq<nat>, outbits: nat, val: nat, bits: nat, room: nat)
    requires Holding(input, inbits, outs, outbits, val, bits) && |input| <= n && outbits > 0 && bits > 0
    requires n * inbits <= room * outbits
    ensures |outs| < room
  {
    hide Bits, Flat;
    FlatLength(input, inbits);
    FlatLength(outs, outbits);
    MulMonotone(|input|, n, inbits);
    Cancel(|outs|, room, outbits);
  }

  /** The same for a full group, when there is only room for those. */
  lemma RoomForFull(input: seq<nat>, n: nat, inbits: nat, outs: seq<nat>, outbits: nat, val: nat, bits: nat, room: nat)
    requires Holding(input, inbits, outs, outbits, val, bits) && |input| <= n && 0 < outbits <= bits
    requires n * inbits < room * outbits + outbits
    ensures |outs| < room
  {
    hide Bits, Flat;
    FlatLength(input, inbits);
    FlatLength(outs, outbits);
    MulMonotone(|input|, n, inbits);
    Cancel(|outs|, room, outbits);
  }

  lemma Leftover(input: seq<nat>, inbits: nat, outs: seq<nat>, outbits: nat, val: nat, bits: nat)
    requires Holding(input, inbits, outs, outbits, val, bits) && bits < outbits <= 32
    ensures Chunks(Flat(input, inbits), outbits) == outs && |Rest(Flat(input, inbits), outbits)| == bits
    ensures var r := Rest(Flat(input, inbits), outbits); var v := Low(Low(Shl(val, outbits - bits), 32), outbits);
      v == Value(r + Zeros(outbits - bits)) && (v == 0 <==> AllZero(r))
  {
    hide Bits, Flat, Low, Shl, Value, Chunks, Rest;
    ChunksOfFlat(outs, Bits(val, bits), outbits);
    var z := outbits - bits;
    ZeroFits(z);
    Accumulate(val, 0, z, bits);
    ValueOfBits(Low(Shl(val, z), 32), outbits);
    var r := Bits(val, bits);
    ValueZero(r + Zeros(z));
    assert AllZero(r + Zeros(z)) <==> AllZero(r) by {
      assert forall i :: 0 <= i < |r| ==> (r + Zeros(z))[i] == r[i];
    }
  }

  lemma {:induction false} ZeroFits(k: nat)
    ensures Fits(0, k) && Bits(0, k) == Zeros(k)
  {
    if k > 0 {
      ZeroFits(k - 1);
    }
  }

  /** The inner loop: full groups are written out. */
  method WriteGroups(out: array<nat>, outlen0: nat, outlen1: nat, outbits: nat, inbits: nat, val: nat, bits0: nat,
      ghost input: seq<nat>, ghost n: nat)
    returns (outlen: nat, bits: nat)
    requires outlen0 <= outlen1 <= out.Length && outbits > 0 && |input| <= n
    requires Holding(input, inbits, out[outlen0..outlen1], outbits, val, bits0)
    requires n * inbits < (out.Length - outlen0) * outbits + outbits
    modifies out
    ensures out[..outlen0] == old(out[..outlen0])
    ensures outlen0 <= outlen <= out.Length && bits < outbits
    ensures Holding(input, inbits, out[outlen0..outlen], outbits, val, bits)
  {
    hide Holding, Shr, Low;
    outlen, bits := outlen1, bits0;
    while bits >= outbits
      invariant outlen0 <= outlen <= out.Length && out[..outlen0] == old(out[..outlen0])
      invariant Holding(input, inbits, out[outlen0..outlen], outbits, val, bits)
    {
      ghost var outs := out[outlen0..outlen];
      RoomForFull(input, n, inbits, outs, outbits, val, bits, out.Length - outlen0);
      bits := bits - outbits;
      GiveOut(input, inbits, outs, outbits, val, bits);
      out[outlen] := Low(Shr(val, bits), outbits);
      outlen := outlen + 1;
      assert out[outlen0..outlen] == outs + [Low(Shr(val, bits), outbits)];
    }
  }

  /** convert_bits: maxv masks the lowest outbits bits, and the accumulator keeps 32. */
  method ConvertBits(out: array<nat>, outlen0: nat, outbits: nat, input: seq<nat>, inbits: nat, pad: bool)
      returns (ok: bool, outlen: nat)
    requires 0 < outbits && 0 < inbits && outbits + inbits <= 32 && AllFit(input, inbits)
    requires outlen0 <= out.Length && |input| * inbits < (out.Length - outlen0) * outbits + if pad then 1 else outbits
    modifies out
    ensures outlen0 <= outlen <= out.Length && out[..outlen0] == old(out[..outlen0])
    ensures pad ==> ok && out[outlen0..outlen] == Padded(Flat(input, inbits), outbits)
    ensures !pad ==> out[outlen0..outlen] == Chunks(Flat(input, inbits), outbits)
    ensures !pad ==> (ok <==> AllZero(Rest(Flat(input, inbits), outbits)) && |Rest(Flat(input, inbits), outbits)| < inbits)
  {
    hide Holding, Shl, Low, Fits, Flat, Value, Chunks, Rest;
    var val: nat, bits: nat := 0, 0;
    outlen := outlen0;
    StartHolding(input[..0], inbits, out[outlen0..outlen], outbits);
    for i := 0 to |input|
      invariant outlen0 <= outlen <= out.Length && out[..outlen0] == old(out[..outlen0]) && bits < outbits
      invariant Holding(input[..i], inbits, out[outlen0..outlen], outbits, val, bits)
    {
      TakeIn(input[..i], input[i], inbits, out[outlen0..outlen], outbits, val, bits);
      assert input[..i + 1] == input[..i] + [input[i]];
      val := Low(Shl(val, inbits), 32) + input[i];
      bits := bits + inbits;
      outlen, bits := WriteGroups(out, outlen0, outlen, outbits, inbits, val, bits, input[..i + 1], |input|);
    }
    assert input[..|input|] == input;
    ghost var outs := out[outlen0..outlen];
    Leftover(input, inbits, outs, outbits, val, bits);
    ok := true;
    if pad {
      if bits != 0 {
        RoomFor(input, |input|, inbits, outs, outbits, val, bits, out.Length - outlen0);
        out[outlen] := Low(Low(Shl(val, outbits - bits), 32), outbits);
        outlen := outlen + 1;
        assert out[outlen0..outlen] == outs + [out[outlen - 1]];
      }
    } else if Low(Low(Shl(val, outbits - bits), 32), outbits) != 0 || bits >= inbits {
      ok := false;
    }
  }

  lemma StartHolding(input: seq<nat>, inbits: nat, outs: seq<nat>, outbits: nat)
    requires input == [] && outs == []
    ensures Holding(input, inbits, outs, outbits, 0, 0)
  {
  }
}
