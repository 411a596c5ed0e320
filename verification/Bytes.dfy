/** Bytes and byte strings, for the codecs that compute with byte values. */
module Bytes {
  type Byte = x: int | 0 <= x < 256

  type ByteString = seq<Byte>

  // ---- ASCII text ----

  /** The bytes of ASCII text. */
  function Ascii(s: string): ByteString { seq(|s|, i requires 0 <= i < |s| => s[i] as int % 256) }

  const UPPER := "ABCDEFGHIJKLMNOPQRSTUVWXYZ"
  const LOWER := "abcdefghijklmnopqrstuvwxyz"
  const DIGITS := "0123456789"

  lemma {:induction false} UpperIs(k: nat)
    requires k < 26
    ensures |UPPER| == 26 && UPPER[k] as int == 65 + k
  {
  }

  lemma {:induction false} LowerIs(k: nat)
    requires k < 26
    ensures |LOWER| == 26 && LOWER[k] as int == 97 + k
  {
  }

  lemma {:induction false} DigitIs(k: nat)
    requires k < 10
    ensures |DIGITS| == 10 && DIGITS[k] as int == 48 + k
  {
  }

  /** The bytes of a text of consecutive characters. */
  lemma {:induction false} Consecutive(text: string, first: nat, c: Byte)
    requires first + |text| <= 256 && forall k :: 0 <= k < |text| ==> text[k] as int == first + k
    ensures c in Ascii(text) <==> first <= c < first + |text|
  {
    if first <= c < first + |text| { assert Ascii(text)[c - first] == c; }
  }
}
