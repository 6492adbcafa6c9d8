/**
 * segwit_addr_encode and segwit_addr_decode of segwit_addr.c: witness programs as Bech32 and Bech32m texts.
 */
module SegwitAddr {
  import opened Bech32
  import G = Regroup

  /** The versions and program lengths the code lets through. */
  predicate Legal(witver: int, prog: seq<nat>) {
    witver <= 16 && 2 <= |prog| <= 40 && (witver == 0 ==> |prog| in {20, 32})
  }

  predicate IsBytes(prog: seq<nat>) { G.AllFit(prog, 8) }

  function EncodingOf(witver: int): Encoding {
    if witver > 0 then Modified else Plain
  }

  /** The version and the program in groups of five bits. */
  function Program(witver: nat, prog: seq<nat>): seq<nat> {
    [witver] + G.Padded(G.Flat(prog, 8), 5)
  }

  /** The address is that of the program. */
  predicate StandsFor(addr: string, hrp: string, witver: nat, prog: seq<nat>) {
    Legal(witver, prog) && IsBytes(prog) && Decodes(addr, EncodingOf(witver), hrp, Program(witver, prog))
  }

  lemma FiveBits(s: seq<nat>)
    ensures G.AllFit(s, 5) <==> Small(s)
  {
    hide G.Low;
    forall i | 0 <= i < |s| ensures G.Fits(s[i], 5) <==> s[i] < 32 {
      LowFive(s[i]);
    }
  }

  lemma LowTwo(v: nat)
    ensures G.Low(v, 2) == v % 4
  {
    assert G.Low(v / 2, 1) == v / 2 % 2;
  }

  lemma LowFour(v: nat)
    ensures G.Low(v, 4) == v % 16
  {
    LowTwo(v / 2 / 2);
    assert G.Low(v, 4) == 2 * (2 * G.Low(v / 2 / 2, 2) + v / 2 % 2) + v % 2;
  }

  lemma LowFive(v: nat)
    ensures G.Low(v, 5) == v % 32
  {
    LowFour(v / 2);
    assert G.Low(v, 5) == 2 * G.Low(v / 2, 4) + v % 2;
  }

  /** segwit_addr_encode; the version is stored in a byte. */
  method Encode(output: array<char>, hrp: string, witver: int, witprog: seq<nat>) returns (ok: bool)
    requires output.Length >= 73 + |hrp| && IsBytes(witprog)
    modifies output
    ensures ok <==> Legal(witver, witprog) && Encodable(hrp, Program(witver % 256, witprog))
    ensures ok ==> Legal(witver, witprog) && Encodable(hrp, Program(witver % 256, witprog))
    ensures ok ==> |hrp| + |Program(witver % 256, witprog)| + 7 < output.Length
    ensures ok ==> var n := |hrp| + |Program(witver % 256, witprog)| + 7;
      output[..n] == Text(hrp, Program(witver % 256, witprog), EncodingOf(witver)) && output[n] == '\0'
  {
    hide G.Padded, G.Flat, Text, Encodable;
    var data := new nat[65];
    var enc := Plain;
    if witver > 16 {
      return false;
    }
    if witver == 0 && |witprog| != 20 && |witprog| != 32 {
      return false;
    }
    if |witprog| < 2 || |witprog| > 40 {
      return false;
    }
    if witver > 0 {
      enc := Modified;
    }
    data[0] := witver % 256;
    var converted, datalen := G.ConvertBits(data, 1, 5, witprog, 8, true);
    assert data[..1] == [witver % 256];
    assert data[..datalen] == data[..1] + data[1..datalen];
    ok := Bech32.Encode(output, hrp, data[..datalen], enc);
  }

  /** strncmp of a C string and a buffer, as equality of the strings. */
  method SameString(s: string, buf: array<char>, ghost t: string) returns (same: bool)
    requires |t| < buf.Length && buf[..|t|] == t && buf[|t|] == '\0' && '\0' !in s && '\0' !in t
    ensures same <==> s == t
  {
    var i := 0;
    while true
      invariant 0 <= i <= |s| && i <= |t| && s[..i] == t[..i]
      decreases |s| - i
    {
      var c := if i < |s| then s[i] else '\0';
      assert i < |t| ==> buf[i] == t[i];
      if c != buf[i] {
        return false;
      }
      if c == '\0' {
        return true;
      }
      i := i + 1;
    }
  }

  lemma ReadableHasNoEnd(h: string)
    requires ValidHrp(h)
    ensures '\0' !in h
  {
  }

  /** A program from its groups of five bits. */
  lemma ProgramOfGroups(witver: nat, d: seq<nat>)
    requires d != [] && d[0] == witver && Small(d)
    requires var b := G.Flat(d[1..], 5); G.AllZero(G.Rest(b, 8)) && |G.Rest(b, 8)| < 5
    ensures var prog := G.Chunks(G.Flat(d[1..], 5), 8); Program(witver, prog) == d && IsBytes(prog)
  {
    hide G.Padded, G.Flat, G.Chunks, G.Rest;
    FiveBits(d[1..]);
    G.BackAndThere(d[1..], 8, 5);
    G.FlatOfChunks(G.Flat(d[1..], 5), 8);
    assert d == [witver] + d[1..];
  }

  lemma GroupsOfProgram(witver: nat, prog: seq<nat>)
    requires IsBytes(prog)
    ensures var d := Program(witver, prog); var b := G.Flat(d[1..], 5);
      d[0] == witver && G.Chunks(b, 8) == prog && G.AllZero(G.Rest(b, 8)) && |G.Rest(b, 8)| < 5
  {
    hide G.Padded, G.Flat, G.Chunks, G.Rest;
    G.ThereAndBack(prog, 8, 5);
    assert Program(witver, prog)[1..] == G.Padded(G.Flat(prog, 8), 5);
  }

  /** One text, one meaning. */
  lemma DecodesOnce(addr: string, enc: Encoding, h: string, d: seq<nat>, hrp: string, witver: nat, prog: seq<nat>)
    requires Decodes(addr, enc, h, d) && StandsFor(addr, hrp, witver, prog)
    ensures enc == EncodingOf(witver) && h == hrp && d == Program(witver, prog)
  {
    hide Text, Program;
    TextsDiffer(h, d, enc, hrp, Program(witver, prog), EncodingOf(witver));
  }

  /** No program has this address with this human-readable part. */
  ghost predicate StandsForNothing(addr: string, hrp: string) {
    forall witver, prog :: !StandsFor(addr, hrp, witver, prog)
  }

  /** The checks behind the Bech32 decoder, on the groups of five bits that it found. */
  predicate Passes(enc: Encoding, d: seq<nat>) {
    && 0 < |d| <= 65 && enc == EncodingOf(d[0])
    && G.AllZero(G.Rest(G.Flat(d[1..], 5), 8)) && |G.Rest(G.Flat(d[1..], 5), 8)| < 5
    && Legal(d[0], G.Chunks(G.Flat(d[1..], 5), 8))
  }

  /** What fails one of them is the address of no program. */
  lemma Refused(addr: string, enc: Encoding, h: string, d: seq<nat>, hrp: string)
    requires Decodes(addr, enc, h, d)
    requires h != hrp || !Passes(enc, d)
    ensures StandsForNothing(addr, hrp)
  {
    hide Decodes, G.Padded, G.Flat, G.Chunks, G.Rest;
    forall witver, prog ensures !StandsFor(addr, hrp, witver, prog) {
      if StandsFor(addr, hrp, witver, prog) {
        DecodesOnce(addr, enc, h, d, hrp, witver, prog);
        GroupsOfProgram(witver, prog);
        ProgramLength(witver, prog);
      }
    }
  }

  /** One symbol for the version, and as many as the bits of the program need. */
  lemma ProgramLength(witver: nat, prog: seq<nat>)
    requires IsBytes(prog)
    ensures 8 * |prog| <= 5 * (|Program(witver, prog)| - 1) < 8 * |prog| + 5
    ensures witver < 32 ==> Small(Program(witver, prog))
  {
    hide G.Flat, G.Padded, G.Rest, G.Chunks;
    G.FlatOfPadded(G.Flat(prog, 8), 5);
    G.FlatLength(prog, 8);
    G.FlatLength(G.Padded(G.Flat(prog, 8), 5), 5);
    FiveBits(G.Padded(G.Flat(prog, 8), 5));
  }

  /** segwit_addr_decode; the buffer for the program has 40 bytes. */
  method Decode(witdata: array<nat>, hrp: string, addr: string) returns (ok: bool, witver: nat, witdata_len: nat)
    requires witdata.Length >= 40 && '\0' !in hrp
    modifies witdata
    ensures ok ==> witdata_len <= witdata.Length && StandsFor(addr, hrp, witver, witdata[..witdata_len])
    ensures !ok ==> StandsForNothing(addr, hrp)
  {
    hide Decodes, G.Flat, G.Chunks, G.Rest, G.Padded, Small, ValidHrp;
    var data, hrp_actual := new nat[84], new char[84];
    var enc, data_len;
    ghost var h;
    ok, witver, witdata_len := false, 0, 0;
    enc, data_len, h := Bech32.Decode(hrp_actual, data, addr);
    if enc == NoEncoding {
      NothingDecoded(addr, hrp);
      return;
    }
    ghost var d := data[..data_len];
    DecodedParts(addr, enc, h, d);
    if data_len == 0 || data_len > 65 {
      Refused(addr, enc, h, d, hrp);
      return;
    }
    ReadableHasNoEnd(h);
    var same := SameString(hrp, hrp_actual, h);
    if !same || data[0] > 16 || (data[0] == 0 && enc != Plain) || (data[0] > 0 && enc != Modified) {
      Refused(addr, enc, h, d, hrp);
      return;
    }
    FiveBits(d[1..]);
    assert data[1..data_len] == d[1..];
    var converted;
    converted, witdata_len := G.ConvertBits(witdata, 0, 8, data[1..data_len], 5, false);
    assert witdata[..witdata_len] == witdata[0..witdata_len];
    if !converted || witdata_len < 2 || witdata_len > 40 || (data[0] == 0 && witdata_len != 20 && witdata_len != 32) {
      Refused(addr, enc, h, d, hrp);
      return;
    }
    witver := data[0];
    ProgramOfGroups(witver, d);
    ok := true;
  }

  lemma NothingDecoded(addr: string, hrp: string)
    requires Meaningless(addr)
    ensures StandsForNothing(addr, hrp)
  {
    hide Decodes, Program;
  }

  lemma DecodedParts(addr: string, enc: Encoding, h: string, d: seq<nat>)
    requires Decodes(addr, enc, h, d)
    ensures ValidHrp(h) && Small(d) && (d != [] ==> Small(d[1..])) && enc in {Plain, Modified}
  {
  }

  /** Encoded programs decode to themselves and to nothing else. */
  lemma DecodeEncode(hrp: string, witver: nat, prog: seq<nat>)
    requires Legal(witver, prog) && IsBytes(prog) && Encodable(hrp, Program(witver, prog)) && hrp != ""
    ensures var addr := Text(hrp, Program(witver, prog), EncodingOf(witver));
      && StandsFor(addr, hrp, witver, prog)
      && forall h, v, p :: StandsFor(addr, h, v, p) ==> h == hrp && v == witver && p == prog
  {
    hide Decodes, Text;
    var d := Program(witver, prog);
    var addr := Text(hrp, d, EncodingOf(witver));
    Bech32.DecodeEncode(hrp, d, EncodingOf(witver));
    GroupsOfProgram(witver, prog);
    forall h, v, p | StandsFor(addr, h, v, p) ensures h == hrp && v == witver && p == prog {
      DecodesOnce(addr, EncodingOf(witver), hrp, d, h, v, p);
      GroupsOfProgram(v, p);
    }
  }

  /** Version 0 goes with the first encoding, every other version with the second, and never the other way round. */
  lemma EncodingOfVersion(addr: string, hrp: string, witver: nat, prog: seq<nat>)
    requires StandsFor(addr, hrp, witver, prog)
    ensures witver == 0 <==> exists d :: Decodes(addr, Plain, hrp, d)
    ensures witver != 0 <==> exists d :: Decodes(addr, Modified, hrp, d)
  {
    hide Decodes, Program;
    forall e, d | Decodes(addr, e, hrp, d) ensures e == EncodingOf(witver) {
      DecodesOnce(addr, e, hrp, d, hrp, witver, prog);
    }
  }

  /** A negative version slips through, but the text is an address only if its last byte is zero and the length fits. */
  lemma NegativeVersions(hrp: string, witver: int, prog: seq<nat>)
    requires witver < 0 && Legal(witver, prog) && IsBytes(prog) && hrp != ""
    requires Encodable(hrp, Program(witver % 256, prog))
    ensures var addr := Text(hrp, Program(witver % 256, prog), EncodingOf(witver));
      (exists h, v, p :: StandsFor(addr, h, v, p)) <==> witver % 256 == 0 && |prog| in {20, 32}
  {
    hide Decodes, Text, Program, ValidHrp, Small;
    var d := Program(witver % 256, prog);
    var addr := Text(hrp, d, Plain);
    Bech32.DecodeEncode(hrp, d, Plain);
    GroupsOfProgram(witver % 256, prog);
    forall h, v, p | StandsFor(addr, h, v, p) ensures v == witver % 256 == 0 && p == prog {
      DecodesOnce(addr, Plain, hrp, d, h, v, p);
      GroupsOfProgram(v, p);
    }
    if witver % 256 == 0 && |prog| in {20, 32} {
      assert StandsFor(addr, hrp, 0, prog);
    }
  }

  /** What verifies and passes the checks is encoded again from its version and bytes, and comes out in lower case. */
  lemma EncodeDecode(addr: string, enc: Encoding, hrp: string, d: seq<nat>)
    requires Verifies(addr, enc, hrp, d) && Passes(enc, d)
    ensures var prog := G.Chunks(G.Flat(d[1..], 5), 8);
      && Legal(d[0], prog) && IsBytes(prog) && Encodable(hrp, Program(d[0], prog))
      && Text(hrp, Program(d[0], prog), EncodingOf(d[0])) == LowerText(addr)
  {
    hide Verifies, Text, G.Flat, G.Chunks, G.Rest, G.Padded;
    Bech32.EncodeDecode(addr, enc, hrp, d);
    ProgramOfGroups(d[0], d);
  }
}
