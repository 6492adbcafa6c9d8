/**
 * The streaming part of groestl.c for Groestl-384 and Groestl-512: buffering, block count and padding. Compression, the
 * output transformation and the initial value are any functions.
 */
module GroestlContext {

  type Byte = nat

  // ---- Blocks of 128 bytes

  /** The chaining state after the full blocks of m. */
  function Absorb<S>(f: (S, seq<Byte>) -> S, s: S, m: seq<Byte>): S
    decreases |m|
  {
    if |m| < 128 then s else Absorb(f, f(s, m[..128]), m[128..])
  }

  /** What is left behind the full blocks. */
  function Tail(m: seq<Byte>): (t: seq<Byte>)
    ensures |t| < 128 && |t| <= |m| && t == m[|m| - |t|..]
    decreases |m|
  {
    if |m| < 128 then m else
    var t := Tail(m[128..]);
    assert m[|m| - |t|..] == m[128..][|m| - 128 - |t|..];
    t
  }

  function Blocks(m: seq<Byte>): (n: nat)
    ensures n * 128 + |Tail(m)| == |m|
    decreases |m|
  {
    if |m| < 128 then 0 else 1 + Blocks(m[128..])
  }

  lemma {:induction false} AbsorbConcat<S>(f: (S, seq<Byte>) -> S, s: S, m: seq<Byte>, d: seq<Byte>)
    ensures Absorb(f, s, m + d) == Absorb(f, Absorb(f, s, m), Tail(m) + d)
    ensures Tail(m + d) == Tail(Tail(m) + d) && Blocks(m + d) == Blocks(m) + Blocks(Tail(m) + d)
    decreases |m|
  {
    if |m| >= 128 {
      assert (m + d)[..128] == m[..128] && (m + d)[128..] == m[128..] + d;
      AbsorbConcat(f, f(s, m[..128]), m[128..], d);
    }
  }

  // ---- What a context stands for

  /** Chaining state, block counter and live part of the buffer. */
  datatype Value<S> = Value(state: S, count: nat, live: seq<Byte>)

  const WORD: nat := 0x1_0000_0000_0000_0000

  function Feed<S>(f: (S, seq<Byte>) -> S, v: Value<S>, d: seq<Byte>): Value<S> {
    Value(Absorb(f, v.state, v.live + d), (v.count + Blocks(v.live + d)) % WORD, Tail(v.live + d))
  }

  lemma AddMod(a: nat, b: nat, c: nat)
    ensures ((a + b) % WORD + c) % WORD == (a + (b + c)) % WORD
  {
  }

  /** Two calls do what one call with both parts does. */
  lemma FeedConcat<S>(f: (S, seq<Byte>) -> S, v: Value<S>, a: seq<Byte>, b: seq<Byte>)
    ensures Feed(f, Feed(f, v, a), b) == Feed(f, v, a + b)
  {
    hide Absorb, Tail, Blocks;
    AbsorbConcat(f, v.state, v.live + a, b);
    assert v.live + (a + b) == (v.live + a) + b;
    AddMod(v.count, Blocks(v.live + a), Blocks(Tail(v.live + a) + b));
  }

  function Join(chunks: seq<seq<Byte>>): seq<Byte> {
    if chunks == [] then [] else Join(chunks[..|chunks| - 1]) + chunks[|chunks| - 1]
  }

  function FeedAll<S>(f: (S, seq<Byte>) -> S, v: Value<S>, chunks: seq<seq<Byte>>): Value<S> {
    if chunks == [] then v else Feed(f, FeedAll(f, v, chunks[..|chunks| - 1]), chunks[|chunks| - 1])
  }

  /** A message may be fed in any pieces. */
  lemma {:induction false} AnySplit<S>(f: (S, seq<Byte>) -> S, v: Value<S>, chunks: seq<seq<Byte>>)
    requires |v.live| < 128 && v.count < WORD
    ensures FeedAll(f, v, chunks) == Feed(f, v, Join(chunks))
  {
    if chunks == [] {
      assert v.live + [] == v.live;
    } else {
      AnySplit(f, v, chunks[..|chunks| - 1]);
      FeedConcat(f, v, Join(chunks[..|chunks| - 1]), chunks[|chunks| - 1]);
    }
  }

  // ---- Padding

  /** sph_enc64be */
  function Encode(c: nat, k: nat): (e: seq<Byte>)
    ensures |e| == k
  {
    if k == 0 then [] else Encode(c / 256, k - 1) + [c % 256]
  }

  function Decode(e: seq<Byte>): nat {
    if e == [] then 0 else Decode(e[..|e| - 1]) * 256 + e[|e| - 1]
  }

  function Pow256(k: nat): nat {
    if k == 0 then 1 else 256 * Pow256(k - 1)
  }

  lemma {:induction false} DecodeEncode(c: nat, k: nat)
    requires c < Pow256(k)
    ensures Decode(Encode(c, k)) == c
  {
    if k > 0 {
      DecodeEncode(c / 256, k - 1);
      assert Encode(c, k)[..k - 1] == Encode(c / 256, k - 1);
    }
  }

  function Zeros(n: nat): (z: seq<Byte>)
    ensures |z| == n && forall i :: 0 <= i < n ==> z[i] == 0
  {
    seq(n, _ => 0)
  }

  /** 0x80 >> n */
  function Mark(n: nat): (z: nat)
    requires n < 8
    ensures z in {128, 64, 32, 16, 8, 4, 2, 1}
  {
    if n == 0 then 128 else if n == 1 then 64 else if n == 2 then 32 else if n == 3 then 16
    else if n == 4 then 8 else if n == 5 then 4 else if n == 6 then 2 else 1
  }

  /** ((ub & -z) | z) & 0xFF: the first n bits of ub, a one, and zeros. */
  function FirstPad(ub: nat, n: nat): (b: Byte)
    requires n < 8
    ensures 0 < b < 256
  {
    var z := Mark(n);
    ub % 256 - ub % 256 % (2 * z) + z
  }

  /** 2^k */
  function Power(k: nat): (p: nat)
    ensures p > 0
  {
    if k == 0 then 1 else 2 * Power(k - 1)
  }

  lemma MarkIs(n: nat)
    requires n < 8
    ensures Mark(n) == Power(7 - n) && 2 * Mark(n) == Power(8 - n)
  {
    assert Power(0) == 1 && Power(2) == 4 && Power(4) == 16 && Power(6) == 64 && Power(8) == 256;
  }

  /** The number that the first n bits of a byte spell. */
  function FirstBits(b: nat, n: nat): int
    requires n < 8
  {
    b % 256 / Power(8 - n)
  }

  lemma MarkedByte(b: nat, z: nat)
    requires z in {128, 64, 32, 16, 8, 4, 2, 1}
    ensures (b - b % (2 * z) + z) / (2 * z) == b / (2 * z) && (b - b % (2 * z) + z) % (2 * z) == z
  {
  }

  /** The first n bits are those of ub, and behind them are a one and then only zeros. */
  lemma FirstPadBits(ub: nat, n: nat)
    requires n < 8
    ensures FirstBits(FirstPad(ub, n), n) == FirstBits(ub, n)
    ensures FirstPad(ub, n) % Power(8 - n) == Power(7 - n)
  {
    hide Power;
    MarkIs(n);
    MarkedByte(ub % 256, Mark(n));
  }

  /** The last one in a byte marks how many bits are before it. */
  lemma LastOne(b: nat, n: nat, n': nat)
    requires n <= n' < 8 && b % Power(8 - n) == Power(7 - n) && b % Power(8 - n') == Power(7 - n')
    ensures n == n'
  {
    hide Power;
    MarkIs(n);
    MarkIs(n');
  }

  /** How many blocks the padding completes: the count of them must still fit behind the mark. */
  function Extra(ptr: nat): nat { if ptr < 120 then 1 else 2 }

  function Padding(ptr: nat, count: nat, ub: nat, n: nat): (p: seq<Byte>)
    requires ptr < 128 && n < 8
    ensures |p| == 128 * Extra(ptr) - ptr && 9 <= |p| <= 136
  {
    [FirstPad(ub, n)] + Zeros(128 * Extra(ptr) - ptr - 9) + Encode((count + Extra(ptr)) % WORD, 8)
  }

  /** A message with its padding. */
  function Padded(m: seq<Byte>, ub: nat, n: nat): seq<Byte>
    requires n < 8
  {
    m + Padding(|Tail(m)|, Blocks(m) % WORD, ub, n)
  }

  lemma WholeBlocks(m: seq<Byte>, n: nat)
    requires |m| == 128 * n
    ensures Tail(m) == [] && Blocks(m) == n
  {
    hide Tail, Blocks;
    assert Blocks(m) * 128 + |Tail(m)| == |m|;
    assert |Tail(m)| == 0;
  }

  lemma WordIs()
    ensures Pow256(8) == WORD
  {
    assert Pow256(4) == 0x1_0000_0000;
    assert Pow256(6) == 0x1_0000_0000_0000;
  }

  lemma AddOneMod(a: nat, b: nat)
    ensures (a % WORD + b) % WORD == (a + b) % WORD
  {
  }

  /** The padding ends on a block boundary, and its last eight bytes are the number of blocks. */
  lemma PaddingEnds(m: seq<Byte>, ub: nat, n: nat)
    requires n < 8
    ensures var p := Padded(m, ub, n); var len := |p| - |m|;
      9 <= len <= 136 && Tail(p) == [] && Blocks(p) == Blocks(m) + Extra(|Tail(m)|) && Decode(p[|p| - 8..]) == Blocks(p) % WORD
  {
    hide Tail, Blocks, Encode, Decode, FirstPad, Pow256;
    var ptr, e := |Tail(m)|, Extra(|Tail(m)|);
    var p := Padded(m, ub, n);
    WholeBlocks(p, Blocks(m) + e);
    var c := (Blocks(m) % WORD + e) % WORD;
    AddOneMod(Blocks(m), e);
    WordIs();
    DecodeEncode(c, 8);
    assert p[|p| - 8..] == Encode(c, 8);
  }

  /** The last byte before the count that is not zero is the first of the padding. */
  lemma MarkFound(m: seq<Byte>, ub: nat, n: nat)
    requires n < 8
    ensures var p := Padded(m, ub, n);
      |m| + 8 < |p| && p[..|m|] == m && p[|m|] == FirstPad(ub, n) > 0 && forall i :: |m| < i < |p| - 8 ==> p[i] == 0
  {
    var p, pad := Padded(m, ub, n), Padding(|Tail(m)|, Blocks(m) % WORD, ub, n);
    assert forall i :: 0 <= i < |pad| ==> p[|m| + i] == pad[i];
    forall i | |m| < i < |p| - 8 ensures p[i] == 0 {
      assert p[i] == pad[i - |m|];
    }
    assert p[|m|] == pad[0];
  }

  /** Different messages stay different when padded, to the last bit. */
  lemma PaddingInjective(m: seq<Byte>, ub: nat, n: nat, m': seq<Byte>, ub': nat, n': nat)
    requires n < 8 && n' < 8 && Padded(m, ub, n) == Padded(m', ub', n')
    ensures m == m' && n == n' && FirstBits(ub, n) == FirstBits(ub', n)
  {
    hide Padded, FirstPad, FirstBits, Power;
    MarkFound(m, ub, n);
    MarkFound(m', ub', n');
    assert |m| == |m'|;
    FirstPadBits(ub, n);
    FirstPadBits(ub', n');
    if n <= n' {
      LastOne(FirstPad(ub, n), n, n');
    } else {
      LastOne(FirstPad(ub, n), n', n);
    }
  }

  // ---- sph_groestl_big_context

  lemma FeedSome<S>(f: (S, seq<Byte>) -> S, v: Value<S>, d: seq<Byte>)
    requires |v.live| + |d| <= 128 && v.count < WORD
    ensures Feed(f, v, d) == if |v.live| + |d| < 128 then Value(v.state, v.count, v.live + d)
                             else Value(f(v.state, v.live + d), (v.count + 1) % WORD, [])
  {
    var b := v.live + d;
    if |b| == 128 {
      assert b[..128] == b && b[128..] == [];
      assert Tail(b) == Tail([]) == [] && Blocks(b) == 1 + Blocks([]) == 1;
      assert Absorb(f, v.state, b) == Absorb(f, f(v.state, b), []) == f(v.state, b);
    }
  }

  class Context<S(0)> {
    const compress: (S, seq<Byte>) -> S
    const output: S -> seq<Byte>
    const initial: nat -> S
    const buf: array<Byte>
    var ptr: nat
    var state: S
    var count: nat

    ghost predicate Valid()
      reads this
    {
      buf.Length == 128 && ptr < 128 && count < WORD
    }

    ghost function Current(): Value<S>
      requires Valid()
      reads this, buf
    {
      Value(state, count, buf[..ptr])
    }

    /** groestl_big_init, on a new context. */
    constructor (compress: (S, seq<Byte>) -> S, output: S -> seq<Byte>, initial: nat -> S, outSize: nat)
      ensures Valid() && fresh(buf) && Current() == Value(initial(outSize), 0, [])
      ensures this.compress == compress && this.output == output && this.initial == initial
    {
      this.compress, this.output, this.initial := compress, output, initial;
      buf := new Byte[128];
      ptr, count, state := 0, 0, initial(outSize);
    }

    /** groestl_big_init */
    method Init(outSize: nat)
      requires buf.Length == 128
      modifies this
      ensures Valid() && Current() == Value(initial(outSize), 0, [])
    {
      ptr := 0;
      state := initial(outSize);
      count := 0;
    }

    /** memcpy to the live part of the buffer. */
    method Copy(data: seq<Byte>)
      requires Valid() && ptr + |data| <= 128
      modifies buf
      ensures buf[..ptr + |data|] == old(buf[..ptr]) + data
    {
      for i := 0 to |data|
        invariant buf[..ptr] == old(buf[..ptr]) && forall j :: 0 <= j < i ==> buf[ptr + j] == data[j]
      {
        buf[ptr + i] := data[i];
      }
    }

    /** groestl_big_core */
    method Core(data: seq<Byte>)
      requires Valid()
      modifies this, buf
      ensures Valid() && Current() == Feed(compress, old(Current()), data)
    {
      hide Feed;
      ghost var v := Current();
      if |data| < 128 - ptr {
        FeedSome(compress, v, data);
        Copy(data);
        ptr := ptr + |data|;
        return;
      }
      var i := 0;
      FeedSome(compress, v, data[..0]);
      assert v.live + data[..0] == v.live;
      while i < |data|
        invariant 0 <= i <= |data| && Valid() && Current() == Feed(compress, v, data[..i])
      {
        var clen := if 128 - ptr > |data| - i then |data| - i else 128 - ptr;
        ghost var w := Current();
        FeedConcat(compress, v, data[..i], data[i..i + clen]);
        assert data[..i] + data[i..i + clen] == data[..i + clen];
        FeedSome(compress, w, data[i..i + clen]);
        Copy(data[i..i + clen]);
        ptr := ptr + clen;
        i := i + clen;
        if ptr == 128 {
          assert buf[..] == w.live + data[i - clen..i];
          state := compress(state, buf[..]);
          count := (count + 1) % WORD;
          ptr := 0;
        }
      }
      assert data[..i] == data;
    }

    /** groestl_big_close: pads, takes the last bytes of the output, and starts over. */
    method Close(ub: nat, n: nat, outLen: nat) returns (dst: seq<Byte>)
      requires Valid() && n < 8 && outLen <= 64 && forall s :: |output(s)| == 64
      modifies this, buf
      ensures var v := old(Current()); var w := Feed(compress, v, Padding(|v.live|, v.count, ub, n));
        w.live == [] && dst == output(w.state)[64 - outLen..]
      ensures Valid() && Current() == Value(initial(outLen * 8), 0, [])
    {
      hide Feed;
      ghost var v := Current();
      var pad: seq<Byte> := [FirstPad(ub, n)];
      var pad_len, total := 0, 0;
      if ptr < 120 {
        pad_len := 128 - ptr;
        total := (count + 1) % WORD;
      } else {
        pad_len := 256 - ptr;
        total := (count + 2) % WORD;
      }
      pad := pad + Zeros(pad_len - 9) + Encode(total, 8);
      PaddingCloses(compress, v, ub, n);
      Core(pad);
      var h := output(state);
      dst := h[64 - outLen..];
      Init(outLen * 8);
    }
  }

  lemma PaddingCloses<S>(f: (S, seq<Byte>) -> S, v: Value<S>, ub: nat, n: nat)
    requires |v.live| < 128 && n < 8
    ensures Feed(f, v, Padding(|v.live|, v.count, ub, n)).live == []
  {
    var b := v.live + Padding(|v.live|, v.count, ub, n);
    WholeBlocks(b, Extra(|v.live|));
  }

  /** Whatever the pieces: the chaining state at the end is that of the padded message from the initial value. */
  lemma DigestOfMessage<S>(f: (S, seq<Byte>) -> S, iv: S, chunks: seq<seq<Byte>>, ub: nat, n: nat)
    requires n < 8
    ensures var m := Join(chunks); var v := FeedAll(f, Value(iv, 0, []), chunks);
      && |v.live| == |Tail(m)| && v.count == Blocks(m) % WORD
      && Feed(f, v, Padding(|v.live|, v.count, ub, n)).state == Absorb(f, iv, Padded(m, ub, n))
  {
    hide Absorb, Tail, Blocks, FeedAll, Join, Padding;
    var m := Join(chunks);
    var v0: Value<S> := Value(iv, 0, []);
    AnySplit(f, v0, chunks);
    assert v0.live + m == m;
    var v := Feed(f, v0, m);
    assert 0 + Blocks(m) == Blocks(m);
    FeedConcat(f, v0, m, Padding(|v.live|, v.count, ub, n));
    assert v0.live + Padded(m, ub, n) == Padded(m, ub, n);
  }
}
