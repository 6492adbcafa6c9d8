/**
 * Base58 text: the alphabet of util.c and the text of a byte string, which has one '1' per leading zero byte and then
 * the base 58 digits of the number the bytes spell.
 */
module Base58 {
  import opened Radix

  const ALPHABET := "123456789" + "ABCDEFGH" + "JKLMN" + "PQRSTUVWXYZ" + "abcdefghijk" + "mnopqrstuvwxyz"

  /** vg_b58_reverse_map: the digit a character stands for, or -1. */
  function ReverseMap(c: char): int {
    if '1' <= c <= '9' then c as int - '1' as int
    else if 'A' <= c <= 'H' then 9 + (c as int - 'A' as int)
    else if 'J' <= c <= 'N' then 17 + (c as int - 'J' as int)
    else if 'P' <= c <= 'Z' then 22 + (c as int - 'P' as int)
    else if 'a' <= c <= 'k' then 33 + (c as int - 'a' as int)
    else if 'm' <= c <= 'z' then 44 + (c as int - 'm' as int)
    else -1
  }

  /** The character of a digit, vg_b58_alphabet[d]. */
  function Letter(d: nat): char
    requires d < 58
  {
    if d < 9 then ('1' as int + d) as char
    else if d < 17 then ('A' as int + d - 9) as char
    else if d < 22 then ('J' as int + d - 17) as char
    else if d < 33 then ('P' as int + d - 22) as char
    else if d < 44 then ('a' as int + d - 33) as char
    else ('m' as int + d - 44) as char
  }

  lemma AlphabetLetters()
    ensures |ALPHABET| == 58 && forall d :: 0 <= d < 58 ==> ALPHABET[d] == Letter(d)
  {
    assert forall d :: 0 <= d < 9 ==> "123456789"[d] == Letter(d);
    assert forall d :: 0 <= d < 8 ==> "ABCDEFGH"[d] == Letter(9 + d);
    assert forall d :: 0 <= d < 5 ==> "JKLMN"[d] == Letter(17 + d);
    assert forall d :: 0 <= d < 11 ==> "PQRSTUVWXYZ"[d] == Letter(22 + d);
    assert forall d :: 0 <= d < 11 ==> "abcdefghijk"[d] == Letter(33 + d);
    assert forall d :: 0 <= d < 14 ==> "mnopqrstuvwxyz"[d] == Letter(44 + d);
  }

  /** The map and the alphabet undo each other. */
  lemma LetterMap(d: nat)
    requires d < 58
    ensures ReverseMap(Letter(d)) == d
  {
  }

  lemma MapLetter(c: char)
    requires ReverseMap(c) != -1
    ensures 0 <= ReverseMap(c) < 58 && Letter(ReverseMap(c)) == c
  {
  }

  function Zeros(k: nat): (s: seq<nat>)
    ensures |s| == k && forall i :: 0 <= i < k ==> s[i] == 0
  {
    seq(k, _ => 0)
  }
}
