/** The repository's two base64 decoders, with their 32-bit accumulator, against RFC 4648. */
module Base64 {
  import opened Bytes
  import opened Search

  const PAD: Byte := 61
  const WORD := 0x1_0000_0000

  /** The value of a character of the base64 alphabet (section 4 of RFC 4648). */
  function Value(c: Byte): (r: Option<nat>)
    ensures r.Some? ==> r.value < 64
  {
    if 65 <= c <= 90 then Some(c - 65)
    else if 97 <= c <= 122 then Some(c - 71)
    else if 48 <= c <= 57 then Some(c + 4)
    else if c == 43 then Some(62)
    else if c == 47 then Some(63)
    else None
  }

  function Char(v: nat): Byte
    requires v < 64
  {
    if v < 26 then v + 65 else if v < 52 then v + 71 else if v < 62 then v - 4 else if v == 62 then 43 else 47
  }

  lemma {:induction false} ValueInvertsChar(v: nat)
    requires v < 64
    ensures Value(Char(v)) == Some(v) && Char(v) != PAD
  {
  }

  /** The alphabet of section 4 of RFC 4648. */
  const ALPHABET := UPPER + LOWER + DIGITS + "+/"

  lemma {:induction false} CharIs(v: nat)
    requires v < 64
    ensures |ALPHABET| == 64 && Char(v) == ALPHABET[v] as int
  {
    UpperIs(0);
    LowerIs(0);
    DigitIs(0);
    if v < 26 { UpperIs(v); } else if v < 52 { LowerIs(v - 26); } else if v < 62 { DigitIs(v - 52); }
  }

  /** The characters are those of the alphabet, in its order, and no other byte has a value. */
  lemma {:induction false} AlphabetExactly(c: Byte)
    ensures |ALPHABET| == 64 && forall v: nat :: v < 64 ==> Char(v) == ALPHABET[v] as int
    ensures Value(c).Some? <==> exists v: nat :: v < 64 && ALPHABET[v] as int == c
  {
    forall v: nat | v < 64 ensures |ALPHABET| == 64 && Char(v) == ALPHABET[v] as int { CharIs(v); }
    assert |ALPHABET| == 64 by { CharIs(0); }
    if Value(c).Some? {
      var v := Value(c).value;
      assert Char(v) == c && ALPHABET[v] as int == c;
    }
    if v: nat :| v < 64 && ALPHABET[v] as int == c { ValueInvertsChar(v); }
  }

  // ---- The encoding ----

  /** The characters for the data bits; with padding, up to a multiple of four. */
  function EncodeBits(s: ByteString, padded: bool): ByteString
    decreases |s|
  {
    if s == [] then []
    else if |s| == 1 then
      [Char(s[0] / 4), Char(s[0] % 4 * 16)] + if padded then [PAD, PAD] else []
    else if |s| == 2 then
      [Char(s[0] / 4), Char(s[0] % 4 * 16 + s[1] / 16), Char(s[1] % 16 * 4)] + if padded then [PAD] else []
    else
      [Char(s[0] / 4), Char(s[0] % 4 * 16 + s[1] / 16), Char(s[1] % 16 * 4 + s[2] / 64), Char(s[2] % 64)]
      + EncodeBits(s[3..], padded)
  }

  /** Test vectors of section 10 of RFC 4648: "f", "fo" and "foobar". */
  lemma {:induction false} TestVectors()
    ensures EncodeBits([102], true) == [90, 103, 61, 61]
    ensures EncodeBits([102, 111], true) == [90, 109, 56, 61]
    ensures EncodeBits([102, 111, 111, 98, 97, 114], true) == [90, 109, 57, 118, 89, 109, 70, 121]
  {
    var s: ByteString := [102, 111, 111, 98, 97, 114];
    assert s[3..] == [98, 97, 114] && s[3..][3..] == [];
    assert EncodeBits(s[3..], true) == [89, 109, 70, 121] + EncodeBits([], true);
  }

  // ---- The decoders ----

  /** `val` modulo 2^32, and `valb`: how many bits wait in it, minus eight. */
  datatype Acc = Acc(val: nat, valb: int)

  ghost predicate AccOk(a: Acc) { a.val < WORD && -8 <= a.valb < 0 }

  function Pow2(n: nat): (p: nat)
    ensures p > 0
  {
    if n == 0 then 1 else 2 * Pow2(n - 1)
  }

  /** One alphabet character: six more bits, and a byte out as soon as eight are there. */
  function Push(a: Acc, v: nat): (r: (Acc, ByteString))
    requires AccOk(a) && v < 64
    ensures AccOk(r.0) && |r.1| <= 1
  {
    var val := (a.val * 64 + v) % WORD;
    var valb := a.valb + 6;
    if valb >= 0 then (Acc(val, valb - 8), [val / Pow2(valb) % 256]) else (Acc(val, valb), [])
  }

  /** The multipart decoder stops at the first character outside the alphabet. */
  function StrictFrom(s: ByteString, a: Acc): ByteString
    requires AccOk(a)
    decreases |s|
  {
    if s == [] || Value(s[0]) == None then []
    else
      var (a', out) := Push(a, Value(s[0]).value);
      out + StrictFrom(s[1..], a')
  }

  /** The auth decoder skips such characters and stops at the first `=`. */
  function LenientFrom(s: ByteString, a: Acc): ByteString
    requires AccOk(a)
    decreases |s|
  {
    if s == [] || s[0] == PAD then []
    else if Value(s[0]) == None then LenientFrom(s[1..], a)
    else
      var (a', out) := Push(a, Value(s[0]).value);
      out + LenientFrom(s[1..], a')
  }

  const EMPTY := Acc(0, -8)

  function DecodeStrict(s: ByteString): ByteString { StrictFrom(s, EMPTY) }

  function DecodeLenient(s: ByteString): ByteString { LenientFrom(s, EMPTY) }

  // ---- They invert the encoding ----

  lemma {:induction false} DropMultiple(k: nat, r: nat)
    ensures (4096 * k + r) % 4096 == r % 4096
  {
  }

  lemma {:induction false} LowBits(x: nat)
    ensures x % WORD % 4096 == x % 4096
  {
    var q := x / WORD;
    assert x == 4096 * (1048576 * q) + x % WORD;
    DropMultiple(1048576 * q, x % WORD);
  }

  /** A group of six bits shifted in below bits of which only the low six matter. */
  lemma {:induction false} ShiftIn(x: nat, t: nat)
    requires t < 64
    ensures (x * 64 + t) % WORD % 4096 == x % 64 * 64 + t
  {
    LowBits(x * 64 + t);
    assert x * 64 + t == 4096 * (x / 64) + (x % 64 * 64 + t);
  }

  lemma {:induction false} Low64(v: nat, h: nat, t: nat)
    requires v % 4096 == h * 64 + t && t < 64
    ensures v % 64 == t
  {
    assert v == 64 * (64 * (v / 4096) + h) + t;
  }

  lemma {:induction false} Low1024(v: nat)
    ensures v % 1024 == v % 4096 % 1024
  {
    var r := v % 4096;
    assert v == 1024 * (4 * (v / 4096) + r / 1024) + r % 1024;
  }

  lemma {:induction false} Low256(v: nat)
    ensures v % 256 == v % 4096 % 256
  {
    var r := v % 4096;
    assert v == 256 * (16 * (v / 4096) + r / 256) + r % 256;
  }

  lemma {:induction false} ByteAbove4(v: nat, x: Byte, low: nat)
    requires v % 4096 == x * 16 + low && low < 16
    ensures v / 16 % 256 == x && v % 16 == low
  {
    assert v == 16 * (256 * (v / 4096) + x) + low;
    assert v / 16 == 256 * (v / 4096) + x;
  }

  lemma {:induction false} ByteAbove2(v: nat, x: Byte, low: nat)
    requires v % 1024 == x * 4 + low && low < 4
    ensures v / 4 % 256 == x && v % 4 == low
  {
    assert v == 4 * (256 * (v / 1024) + x) + low;
    assert v / 4 == 256 * (v / 1024) + x;
  }

  lemma {:induction false} Powers()
    ensures Pow2(0) == 1 && Pow2(2) == 4 && Pow2(4) == 16
  {
    assert Pow2(1) == 2 && Pow2(3) == 8;
  }

  lemma {:induction false} PushVal(a: Acc, t: nat)
    requires AccOk(a) && t < 64
    ensures Push(a, t).0.val % 4096 == a.val % 64 * 64 + t
  {
    ShiftIn(a.val, t);
  }

  /** The first character of a group gives nothing yet. */
  lemma {:induction false} FirstChar(a: Acc, t: nat) returns (b: Acc)
    requires AccOk(a) && a.valb == -8 && t < 64
    ensures Push(a, t) == (b, []) && AccOk(b) && b.valb == -2 && b.val % 64 == t
  {
    b := Push(a, t).0;
    PushVal(a, t);
    Low64(b.val, a.val % 64, t);
  }

  /** The second character of a group gives its first byte, whatever older bits there are. */
  lemma {:induction false} FirstByte(a: Acc, x: Byte, high: nat) returns (b: Acc)
    requires AccOk(a) && a.valb == -2 && a.val % 64 == x / 4 && high < 16
    ensures Push(a, x % 4 * 16 + high) == (b, [x])
    ensures AccOk(b) && b.valb == -4 && b.val % 16 == high
  {
    b := Push(a, x % 4 * 16 + high).0;
    PushVal(a, x % 4 * 16 + high);
    Powers();
    ByteAbove4(b.val, x, high);
  }

  /** The third character gives the second byte. */
  lemma {:induction false} SecondByte(a: Acc, x: Byte, high: nat) returns (b: Acc)
    requires AccOk(a) && a.valb == -4 && a.val % 16 == x / 16 && high < 4
    ensures Push(a, x % 16 * 4 + high) == (b, [x])
    ensures AccOk(b) && b.valb == -6 && b.val % 4 == high
  {
    b := Push(a, x % 16 * 4 + high).0;
    PushVal(a, x % 16 * 4 + high);
    MiddleBits(a.val, x, high);
    Low1024(b.val);
    Powers();
    ByteAbove2(b.val, x, high);
  }

  lemma {:induction false} MiddleBits(v: nat, x: Byte, high: nat)
    requires v % 16 == x / 16 && high < 4
    ensures (v % 64 * 64 + (x % 16 * 4 + high)) % 1024 == x * 4 + high
  {
    var q := v % 64 / 16;
    assert v % 64 == 16 * q + x / 16;
  }

  /** The fourth character gives the third byte. */
  lemma {:induction false} ThirdByte(a: Acc, x: Byte) returns (b: Acc)
    requires AccOk(a) && a.valb == -6 && a.val % 4 == x / 64
    ensures Push(a, x % 64) == (b, [x]) && AccOk(b) && b.valb == -8
  {
    b := Push(a, x % 64).0;
    PushVal(a, x % 64);
    LastBits(a.val, x);
    Low256(b.val);
    Powers();
  }

  lemma {:induction false} LastBits(v: nat, x: Byte)
    requires v % 4 == x / 64
    ensures (v % 64 * 64 + x % 64) % 256 == x
  {
    var q := v % 64 / 4;
    assert v % 64 == 4 * q + x / 64;
  }

  /** Input that neither decoder reads past: its end, or padding. */
  ghost predicate Stops(tail: ByteString) { tail == [] || tail[0] == PAD }

  /** Both decoders read an alphabet character alike. */
  lemma {:induction false} ReadChar(v: nat, tail: ByteString, a: Acc)
    requires AccOk(a) && v < 64
    ensures var s, r := [Char(v)] + tail, Push(a, v);
            StrictFrom(s, a) == r.1 + StrictFrom(tail, r.0) && LenientFrom(s, a) == r.1 + LenientFrom(tail, r.0)
  {
    ValueInvertsChar(v);
    assert ([Char(v)] + tail)[1..] == tail;
  }

  /** Two characters and the byte they give. */
  lemma {:induction false} ReadPair(x: Byte, high: nat, tail: ByteString, a: Acc) returns (b: Acc)
    requires AccOk(a) && a.valb == -8 && high < 16
    ensures AccOk(b) && b.valb == -4 && b.val % 16 == high
    ensures var s := [Char(x / 4), Char(x % 4 * 16 + high)] + tail;
            StrictFrom(s, a) == [x] + StrictFrom(tail, b) && LenientFrom(s, a) == [x] + LenientFrom(tail, b)
  {
    var mid := FirstChar(a, x / 4);
    b := FirstByte(mid, x, high);
    var rest := [Char(x % 4 * 16 + high)] + tail;
    ReadChar(x % 4 * 16 + high, tail, mid);
    ReadChar(x / 4, rest, a);
    assert [Char(x / 4), Char(x % 4 * 16 + high)] + tail == [Char(x / 4)] + rest;
  }

  /** The last two characters of a group. */
  lemma {:induction false} ReadRest(y: Byte, z: Byte, tail: ByteString, a: Acc) returns (b: Acc)
    requires AccOk(a) && a.valb == -4 && a.val % 16 == y / 16
    ensures AccOk(b) && b.valb == -8
    ensures var s := [Char(y % 16 * 4 + z / 64), Char(z % 64)] + tail;
            StrictFrom(s, a) == [y, z] + StrictFrom(tail, b) && LenientFrom(s, a) == [y, z] + LenientFrom(tail, b)
  {
    var mid := SecondByte(a, y, z / 64);
    b := ThirdByte(mid, z);
    var rest := [Char(z % 64)] + tail;
    ReadChar(z % 64, tail, mid);
    ReadChar(y % 16 * 4 + z / 64, rest, a);
    assert [Char(y % 16 * 4 + z / 64), Char(z % 64)] + tail == [Char(y % 16 * 4 + z / 64)] + rest;
  }

  lemma {:induction false} AtStop(tail: ByteString, a: Acc)
    requires AccOk(a) && Stops(tail)
    ensures StrictFrom(tail, a) == [] && LenientFrom(tail, a) == []
  {
  }

  lemma {:induction false} OneByteLeft(x: Byte, tail: ByteString, a: Acc)
    requires AccOk(a) && a.valb == -8 && Stops(tail)
    ensures var s := [Char(x / 4), Char(x % 4 * 16)] + tail; StrictFrom(s, a) == [x] && LenientFrom(s, a) == [x]
  {
    var b := ReadPair(x, 0, tail, a);
    AtStop(tail, b);
  }

  lemma {:induction false} TwoBytesLeft(x: Byte, y: Byte, tail: ByteString, a: Acc)
    requires AccOk(a) && a.valb == -8 && Stops(tail)
    ensures var s := [Char(x / 4), Char(x % 4 * 16 + y / 16), Char(y % 16 * 4)] + tail;
            StrictFrom(s, a) == [x, y] && LenientFrom(s, a) == [x, y]
  {
    var rest := [Char(y % 16 * 4)] + tail;
    var b := ReadPair(x, y / 16, rest, a);
    var c := SecondByte(b, y, 0);
    ReadChar(y % 16 * 4, tail, b);
    AtStop(tail, c);
    assert [Char(x / 4), Char(x % 4 * 16 + y / 16), Char(y % 16 * 4)] + tail
        == [Char(x / 4), Char(x % 4 * 16 + y / 16)] + rest;
  }

  /** A full group: three bytes from four characters, and the same again for the rest. */
  lemma {:induction false} ReadGroup(x: Byte, y: Byte, z: Byte, tail: ByteString, a: Acc) returns (b: Acc)
    requires AccOk(a) && a.valb == -8
    ensures AccOk(b) && b.valb == -8
    ensures var s := [Char(x / 4), Char(x % 4 * 16 + y / 16), Char(y % 16 * 4 + z / 64), Char(z % 64)] + tail;
            StrictFrom(s, a) == [x, y, z] + StrictFrom(tail, b) && LenientFrom(s, a) == [x, y, z] + LenientFrom(tail, b)
  {
    var rest := [Char(y % 16 * 4 + z / 64), Char(z % 64)] + tail;
    var mid := ReadPair(x, y / 16, rest, a);
    b := ReadRest(y, z, tail, mid);
    FourIsTwoAndTwo(Char(x / 4), Char(x % 4 * 16 + y / 16), Char(y % 16 * 4 + z / 64), Char(z % 64), tail);
  }

  lemma {:induction false} FourIsTwoAndTwo(a: Byte, b: Byte, c: Byte, d: Byte, tail: ByteString)
    ensures [a, b, c, d] + tail == [a, b] + ([c, d] + tail)
  {
  }

  lemma {:induction false} DecodeFromBoundary(s: ByteString, padded: bool, a: Acc)
    requires AccOk(a) && a.valb == -8
    ensures StrictFrom(EncodeBits(s, padded), a) == s && LenientFrom(EncodeBits(s, padded), a) == s
    decreases |s|
  {
    if |s| == 1 {
      OneByteLeft(s[0], if padded then [PAD, PAD] else [], a);
    } else if |s| == 2 {
      TwoBytesLeft(s[0], s[1], if padded then [PAD] else [], a);
    } else if |s| >= 3 {
      var tail := EncodeBits(s[3..], padded);
      var b := ReadGroup(s[0], s[1], s[2], tail, a);
      DecodeFromBoundary(s[3..], padded, b);
      EncodeUnfold(s, padded);
      assert s == [s[0], s[1], s[2]] + s[3..];
    }
  }

  lemma {:induction false} EncodeUnfold(s: ByteString, padded: bool)
    requires |s| >= 3
    ensures EncodeBits(s, padded) ==
            [Char(s[0] / 4), Char(s[0] % 4 * 16 + s[1] / 16), Char(s[1] % 16 * 4 + s[2] / 64), Char(s[2] % 64)]
            + EncodeBits(s[3..], padded)
  {
  }

  /** Both decoders invert the encoding of byte strings of every length, padded or not. */
  lemma {:induction false} DecodersInvertEncode(s: ByteString, padded: bool)
    ensures DecodeStrict(EncodeBits(s, padded)) == s
    ensures DecodeLenient(EncodeBits(s, padded)) == s
  {
    DecodeFromBoundary(s, padded, EMPTY);
  }

  // ---- How the decoders differ ----

  /** The part before the first `=`, without characters outside the alphabet. */
  function Cleaned(s: ByteString): ByteString {
    if s == [] || s[0] == PAD then []
    else (if Value(s[0]) == None then [] else [s[0]]) + Cleaned(s[1..])
  }

  lemma {:induction false} LenientIsStrictOnCleaned(s: ByteString, a: Acc)
    requires AccOk(a)
    ensures LenientFrom(s, a) == StrictFrom(Cleaned(s), a)
    decreases |s|
  {
    if s != [] && s[0] != PAD {
      if Value(s[0]) == None {
        LenientIsStrictOnCleaned(s[1..], a);
        assert [] + Cleaned(s[1..]) == Cleaned(s[1..]);
      } else {
        LenientIsStrictOnCleaned(s[1..], Push(a, Value(s[0]).value).0);
        assert Cleaned(s)[0] == s[0] && Cleaned(s)[1..] == Cleaned(s[1..]);
      }
    }
  }

  /** On every string the auth decoder is the multipart decoder applied to the cleaned prefix. */
  lemma {:induction false} DecodersRelated(s: ByteString)
    ensures DecodeLenient(s) == DecodeStrict(Cleaned(s))
  {
    LenientIsStrictOnCleaned(s, EMPTY);
  }

  /** The multipart decoder stops at the first byte outside the alphabet, whatever follows. */
  lemma {:induction false} StrictStops(s: ByteString, c: Byte, tail: ByteString, a: Acc)
    requires AccOk(a) && Value(c) == None
    ensures StrictFrom(s + [c] + tail, a) == StrictFrom(s, a)
    decreases |s|
  {
    var all := s + [c] + tail;
    if s != [] && Value(s[0]) != None {
      assert all[0] == s[0] && all[1..] == s[1..] + [c] + tail;
      StrictStops(s[1..], c, tail, Push(a, Value(s[0]).value).0);
    } else if s != [] {
      assert all[0] == s[0];
    }
  }

  /** The auth decoder skips such a byte, unless it is `=`, at which it stops. */
  lemma {:induction false} LenientSkipsOrStops(s: ByteString, c: Byte, tail: ByteString, a: Acc)
    requires AccOk(a) && Value(c) == None
    ensures LenientFrom(s + [c] + tail, a) == if c == 61 then LenientFrom(s, a) else LenientFrom(s + tail, a)
    decreases |s|
  {
    var all := s + [c] + tail;
    if s == [] {
      assert all[1..] == tail && [] + tail == tail;
    } else {
      assert all[0] == s[0] && all[1..] == s[1..] + [c] + tail && (s + tail)[1..] == s[1..] + tail;
      LenientSkipsOrStops(s[1..], c, tail, if Value(s[0]) == None then a else Push(a, Value(s[0]).value).0);
    }
  }

  // ---- The loops ----

  method MultipartBase64Decode(encoded: ByteString) returns (result: ByteString)
    ensures result == DecodeStrict(encoded)
  {
    result := [];
    var val: nat, valb := 0, -8;
    var i := 0;
    while i < |encoded| && Value(encoded[i]).Some?
      invariant i <= |encoded| && AccOk(Acc(val, valb))
      invariant result + StrictFrom(encoded[i..], Acc(val, valb)) == DecodeStrict(encoded)
    {
      ghost var before, r := result, Push(Acc(val, valb), Value(encoded[i]).value);
      assert encoded[i..][1..] == encoded[i + 1..];
      val := (val * 64 + Value(encoded[i]).value) % WORD;
      valb := valb + 6;
      if valb >= 0 {
        result := result + [val / Pow2(valb) % 256];
        valb := valb - 8;
      }
      assert Acc(val, valb) == r.0 && result == before + r.1;
      assert before + (r.1 + StrictFrom(encoded[i + 1..], r.0)) == result + StrictFrom(encoded[i + 1..], r.0);
      i := i + 1;
    }
  }

  method AuthBase64Decode(s: ByteString) returns (out: ByteString)
    ensures out == DecodeLenient(s)
  {
    out := [];
    var val: nat, valb := 0, -8;
    var i := 0;
    while i < |s| && s[i] != PAD
      invariant i <= |s| && AccOk(Acc(val, valb))
      invariant out + LenientFrom(s[i..], Acc(val, valb)) == DecodeLenient(s)
    {
      assert s[i..][1..] == s[i + 1..];
      var t := Value(s[i]);
      if t.Some? {
        ghost var before, r := out, Push(Acc(val, valb), t.value);
        val := (val * 64 + t.value) % WORD;
        valb := valb + 6;
        if valb >= 0 {
          out := out + [val / Pow2(valb) % 256];
          valb := valb - 8;
        }
        assert Acc(val, valb) == r.0 && out == before + r.1;
        assert before + (r.1 + LenientFrom(s[i + 1..], r.0)) == out + LenientFrom(s[i + 1..], r.0);
      }
      i := i + 1;
    }
  }
}
