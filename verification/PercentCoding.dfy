/** Percent-encoding, and the two decoders of the repository. */
module PercentCoding {
  import opened Bytes
  import opened Search

  const PERCENT: Byte := 37
  const PLUS: Byte := 43
  const SPACE: Byte := 32

  predicate IsDigit(c: Byte) { 48 <= c <= 57 }
  predicate IsUpper(c: Byte) { 65 <= c <= 90 }
  predicate IsLower(c: Byte) { 97 <= c <= 122 }

  /** Letters, digits, `-`, `_`, `.` and `~`: the unreserved characters of section 2.3 of RFC 3986. */
  predicate IsUnreserved(c: Byte) {
    IsDigit(c) || IsUpper(c) || IsLower(c) || c == 45 || c == 95 || c == 46 || c == 126
  }

  function HexDigit(n: nat): Byte
    requires n < 16
  {
    if n < 10 then 48 + n else 55 + n
  }

  function HexValue(c: Byte): (r: Option<nat>)
    ensures r.Some? ==> r.value < 16
  {
    if IsDigit(c) then Some(c - 48)
    else if 65 <= c <= 70 then Some(c - 55)
    else if 97 <= c <= 102 then Some(c - 87)
    else None
  }

  predicate IsHexPair(a: Byte, b: Byte) { HexValue(a).Some? && HexValue(b).Some? }

  // ---- Encoding ----

  function EncodeByte(c: Byte): ByteString {
    if IsUnreserved(c) then [c] else [PERCENT, HexDigit(c / 16), HexDigit(c % 16)]
  }

  function Encode(s: ByteString): ByteString { ConcatMap(EncodeByte, s) }

  // ---- Decoding ----

  /**
   What a library conversion makes of two bytes that are not both hexadecimal digits: a byte, or
   nothing when it fails. The two decoders use different conversions here.
   */
  type Conversion = (Byte, Byte) -> Option<Byte>

  function PairValue(a: Byte, b: Byte, conv: Conversion): Option<Byte> {
    if IsHexPair(a, b) then Some(16 * HexValue(a).value + HexValue(b).value) else conv(a, b)
  }

  function Decode(s: ByteString, conv: Conversion): ByteString
    decreases |s|
  {
    if s == [] then []
    else if s[0] == PERCENT && |s| > 2 then
      match PairValue(s[1], s[2], conv)
      case Some(v) => [v] + Decode(s[3..], conv)
      case None => [PERCENT] + Decode(s[1..], conv)
    else if s[0] == PLUS then [SPACE] + Decode(s[1..], conv)
    else [s[0]] + Decode(s[1..], conv)
  }

  lemma {:induction false} HexRoundTrip(n: nat)
    requires n < 16
    ensures HexValue(HexDigit(n)) == Some(n)
  {
  }

  lemma {:induction false} DecodeOneByte(c: Byte, tail: ByteString, conv: Conversion)
    ensures Decode(EncodeByte(c) + tail, conv) == [c] + Decode(tail, conv)
  {
    var s := EncodeByte(c) + tail;
    if IsUnreserved(c) {
      assert s[1..] == tail;
    } else {
      HexRoundTrip(c / 16);
      HexRoundTrip(c % 16);
      assert s[3..] == tail;
    }
  }

  /** Decoding inverts encoding, for every byte string and whatever the library conversion. */
  lemma {:induction false} DecodeInvertsEncode(s: ByteString, conv: Conversion)
    ensures Decode(Encode(s), conv) == s
    decreases |s|
  {
    if s != [] {
      DecodeOneByte(s[0], Encode(s[1..]), conv);
      DecodeInvertsEncode(s[1..], conv);
    }
  }

  // ---- The text forms ----

  /** Exactly the unreserved characters of section 2.3 of RFC 3986 stand for themselves; every other byte is an escape. */
  lemma {:induction false} EncodedByteExactly(c: Byte)
    ensures EncodeByte(c) ==
            if c in Ascii(UPPER) || c in Ascii(LOWER) || c in Ascii(DIGITS) || c in Ascii("-._~") then [c]
            else Ascii("%") + [Ascii("0123456789ABCDEF")[c / 16], Ascii("0123456789ABCDEF")[c % 16]]
  {
    UnreservedExactly(c);
    HexDigitIs(c / 16);
    HexDigitIs(c % 16);
  }

  lemma {:induction false} UnreservedExactly(c: Byte)
    ensures IsUnreserved(c) <==> c in Ascii(UPPER) || c in Ascii(LOWER) || c in Ascii(DIGITS) || c in Ascii("-._~")
  {
    UpperExactly(c);
    LowerExactly(c);
    DigitsExactly(c);
    assert c in Ascii("-._~") <==> c == 45 || c == 46 || c == 95 || c == 126 by {
      assert Ascii("-._~") == [45, 46, 95, 126];
    }
  }

  lemma {:induction false} UpperExactly(c: Byte)
    ensures IsUpper(c) <==> c in Ascii(UPPER)
  {
    forall k: nat | k < 26 ensures |UPPER| == 26 && UPPER[k] as int == 65 + k { UpperIs(k); }
    UpperIs(0);
    Consecutive(UPPER, 65, c);
  }

  lemma {:induction false} LowerExactly(c: Byte)
    ensures IsLower(c) <==> c in Ascii(LOWER)
  {
    forall k: nat | k < 26 ensures |LOWER| == 26 && LOWER[k] as int == 97 + k { LowerIs(k); }
    LowerIs(0);
    Consecutive(LOWER, 97, c);
  }

  lemma {:induction false} DigitsExactly(c: Byte)
    ensures IsDigit(c) <==> c in Ascii(DIGITS)
  {
    forall k: nat | k < 10 ensures |DIGITS| == 10 && DIGITS[k] as int == 48 + k { DigitIs(k); }
    DigitIs(0);
    Consecutive(DIGITS, 48, c);
  }

  lemma {:induction false} HexDigitIs(n: nat)
    requires n < 16
    ensures HexDigit(n) == Ascii("0123456789ABCDEF")[n]
  {
  }

  /** `a` is the digit of value `n`, in either case. */
  predicate IsHexDigitOf(a: Byte, n: nat)
    requires n < 16
  {
    a == Ascii("0123456789ABCDEF")[n] || a == Ascii("0123456789abcdef")[n]
  }

  /** An escape is read with digits of either case. */
  lemma {:induction false} EscapeIsRead(a: Byte, b: Byte, i: nat, j: nat, tail: ByteString, conv: Conversion)
    requires i < 16 && j < 16 && IsHexDigitOf(a, i) && IsHexDigitOf(b, j)
    ensures Decode(Ascii("%") + [a, b] + tail, conv) == [16 * i + j] + Decode(tail, conv)
  {
    HexDigitValue(i);
    HexDigitValue(j);
    PairIsRead(a, b, tail, conv);
  }

  lemma {:induction false} HexDigitValue(n: nat)
    requires n < 16
    ensures HexValue(Ascii("0123456789ABCDEF")[n]) == Some(n) == HexValue(Ascii("0123456789abcdef")[n])
  {
  }

  lemma {:induction false} PairIsRead(a: Byte, b: Byte, tail: ByteString, conv: Conversion)
    requires HexValue(a).Some? && HexValue(b).Some?
    ensures Decode(Ascii("%") + [a, b] + tail, conv) == [16 * HexValue(a).value + HexValue(b).value] + Decode(tail, conv)
  {
    var s := Ascii("%") + [a, b] + tail;
    assert s[0] == 37 && s[1] == a && s[2] == b && s[3..] == tail;
  }

  /** A plus is a space, and a percent sign with fewer than two bytes after it is kept. */
  lemma {:induction false} PlusAndShortEscape(tail: ByteString, conv: Conversion)
    ensures Decode(Ascii("+") + tail, conv) == Ascii(" ") + Decode(tail, conv)
    ensures |tail| < 2 ==> Decode(Ascii("%") + tail, conv) == Ascii("%") + Decode(tail, conv)
  {
    var s, t := Ascii("+") + tail, Ascii("%") + tail;
    assert s[0] == 43 && s[1..] == tail && t[0] == 37 && t[1..] == tail;
  }

  /** Two bytes that are not both hexadecimal digits: what the library makes of them, or else the percent sign is kept. */
  lemma {:induction false} MalformedEscape(a: Byte, b: Byte, tail: ByteString, conv: Conversion)
    requires HexValue(a).None? || HexValue(b).None?
    ensures Decode([37, a, b] + tail, conv) ==
            if conv(a, b).Some? then [conv(a, b).value] + Decode(tail, conv) else [37] + Decode([a, b] + tail, conv)
  {
    var s := [37, a, b] + tail;
    assert s[3..] == tail && s[1..] == [a, b] + tail;
  }

  /** Every `%` that two bytes follow is followed by two hexadecimal digits. */
  ghost predicate WellEscaped(s: ByteString) {
    forall i :: 0 <= i < |s| - 2 && s[i] == PERCENT ==> IsHexPair(s[i + 1], s[i + 2])
  }

  /** The decoders agree on every string whose escapes are well formed. */
  lemma {:induction false} DecodersAgree(s: ByteString, f: Conversion, g: Conversion)
    requires WellEscaped(s)
    ensures Decode(s, f) == Decode(s, g)
    decreases |s|
  {
    if s != [] {
      if s[0] == PERCENT && |s| > 2 {
        assert IsHexPair(s[1], s[2]);
        SuffixWellEscaped(s, 3);
        DecodersAgree(s[3..], f, g);
      } else {
        SuffixWellEscaped(s, 1);
        DecodersAgree(s[1..], f, g);
      }
    }
  }

  lemma {:induction false} SuffixWellEscaped(s: ByteString, n: nat)
    requires WellEscaped(s) && n <= |s|
    ensures WellEscaped(s[n..])
  {
    var t := s[n..];
    forall i | 0 <= i < |t| - 2 && t[i] == PERCENT ensures IsHexPair(t[i + 1], t[i + 2]) {
      assert s[n + i] == PERCENT;
    }
  }

  /** Encoded text is unreserved characters and percent signs, so no separator occurs in it. */
  lemma {:induction false} EncodedAlphabet(s: ByteString)
    ensures forall i :: 0 <= i < |Encode(s)| ==> IsUnreserved(Encode(s)[i]) || Encode(s)[i] == PERCENT
    decreases |s|
  {
    if s != [] {
      EncodedAlphabet(s[1..]);
      assert Encode(s) == EncodeByte(s[0]) + Encode(s[1..]);
    }
  }

  // ---- The loops ----

  method UrlEncode(s: ByteString) returns (out: ByteString)
    ensures out == Encode(s)
  {
    out := [];
    for i := 0 to |s|
      invariant out + Encode(s[i..]) == Encode(s)
    {
      ghost var before := out;
      if IsUnreserved(s[i]) {
        out := out + [s[i]];
      } else {
        out := out + [PERCENT] + [HexDigit(s[i] / 16)] + [HexDigit(s[i] % 16)];
      }
      assert out == before + EncodeByte(s[i]);
      assert Encode(s[i..]) == EncodeByte(s[i]) + Encode(s[i + 1..]) by { assert s[i..][1..] == s[i + 1..]; }
      Regroup(before, EncodeByte(s[i]), Encode(s[i + 1..]));
    }
  }

  /** The byte decoded at the front of `s`, and how many input bytes it took. */
  function DecodeFront(s: ByteString, conv: Conversion): (r: (Byte, nat))
    requires s != []
    ensures 1 <= r.1 <= |s|
  {
    if s[0] == PERCENT && |s| > 2 && PairValue(s[1], s[2], conv).Some?
    then (PairValue(s[1], s[2], conv).value, 3)
    else (if s[0] == PLUS then SPACE else s[0], 1)
  }

  lemma {:induction false} DecodeStep(s: ByteString, conv: Conversion)
    requires s != []
    ensures var (v, n) := DecodeFront(s, conv); Decode(s, conv) == [v] + Decode(s[n..], conv)
  {
  }

  method UrlDecode(s: ByteString, conv: Conversion) returns (out: ByteString)
    ensures out == Decode(s, conv)
  {
    out := [];
    var i := 0;
    while i < |s|
      invariant i <= |s| && out + Decode(s[i..], conv) == Decode(s, conv)
    {
      ghost var before, start, front := out, i, DecodeFront(s[i..], conv);
      ghost var v, n := front.0, front.1;
      if s[i] == PERCENT && i + 2 < |s| {
        var pair := PairValue(s[i + 1], s[i + 2], conv);
        if pair.Some? {
          out := out + [pair.value];
          i := i + 2;
        } else {
          out := out + [PERCENT];
        }
      } else if s[i] == PLUS {
        out := out + [SPACE];
      } else {
        out := out + [s[i]];
      }
      i := i + 1;
      assert out == before + [v] && i == start + n;
      DecodeStep(s[start..], conv);
      assert s[start..][n..] == s[i..];
      Regroup(before, [v], Decode(s[i..], conv));
    }
  }
}
