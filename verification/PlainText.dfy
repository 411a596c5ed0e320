/** Plain-text bodies: line endings, trimming, and the parser's notion of valid UTF-8. */
module PlainText {
  import opened Bytes
  import opened Search

  const CR: Byte := 13
  const LF: Byte := 10

  // ---- Line endings ----

  /** One reading from the left: CRLF, CR and LF all become LF. */
  function Normalize(s: ByteString): ByteString {
    if s == [] then []
    else if s[0] == CR && |s| > 1 && s[1] == LF then [LF] + Normalize(s[2..])
    else if s[0] == CR then [LF] + Normalize(s[1..])
    else [s[0]] + Normalize(s[1..])
  }

  /** Byte by byte: a CRLF, and any other CR, is one LF; other bytes stay. */
  lemma {:induction false} NormalizedExactly(c: Byte, t: ByteString)
    ensures Normalize([13, 10] + t) == [10] + Normalize(t)
    ensures (t == [] || t[0] != 10) ==> Normalize([13] + t) == [10] + Normalize(t)
    ensures c != 13 ==> Normalize([c] + t) == [c] + Normalize(t)
  {
    assert ([13, 10] + t)[2..] == t && ([13] + t)[1..] == t && ([c] + t)[1..] == t;
  }

  /** The first pass: CRLF becomes LF. */
  function DropCrBeforeLf(s: ByteString): ByteString {
    if s == [] then []
    else if s[0] == CR && |s| > 1 && s[1] == LF then [LF] + DropCrBeforeLf(s[2..])
    else [s[0]] + DropCrBeforeLf(s[1..])
  }

  /** The second pass: the remaining CR become LF. */
  function CrToLf(s: ByteString): ByteString {
    seq(|s|, i requires 0 <= i < |s| => if s[i] == CR then LF else s[i])
  }

  lemma {:induction false} CrToLfCons(c: Byte, s: ByteString)
    ensures CrToLf([c] + s) == [if c == CR then LF else c] + CrToLf(s)
  {
  }

  lemma {:induction false} TwoPassesAreOne(s: ByteString)
    ensures CrToLf(DropCrBeforeLf(s)) == Normalize(s)
    decreases |s|
  {
    if s != [] {
      if s[0] == CR && |s| > 1 && s[1] == LF {
        TwoPassesAreOne(s[2..]);
        CrToLfCons(LF, DropCrBeforeLf(s[2..]));
      } else {
        TwoPassesAreOne(s[1..]);
        CrToLfCons(s[0], DropCrBeforeLf(s[1..]));
      }
    }
  }

  lemma {:induction false} NormalizedHasNoCr(s: ByteString)
    ensures CR !in Normalize(s)
    decreases |s|
  {
    if s != [] {
      NormalizedHasNoCr(s[1..]);
      if |s| > 1 { NormalizedHasNoCr(s[2..]); }
    }
  }

  lemma {:induction false} NoCrIsFixed(s: ByteString)
    requires CR !in s
    ensures Normalize(s) == s
    decreases |s|
  {
    if s != [] {
      NoCrIsFixed(s[1..]);
      assert s == [s[0]] + s[1..];
    }
  }

  /** Normalising twice is normalising once. */
  lemma {:induction false} NormalizeIdempotent(s: ByteString)
    ensures Normalize(Normalize(s)) == Normalize(s)
  {
    NormalizedHasNoCr(s);
    NoCrIsFixed(Normalize(s));
  }

  method NormalizeLineEndings(text: ByteString) returns (result: ByteString)
    ensures result == Normalize(text) && CR !in result
  {
    result := ReplaceCrLf(text);
    result := ReplaceCr(result);
    TwoPassesAreOne(text);
    NormalizedHasNoCr(text);
  }

  /** Finds CRLF from `pos`, replaces it in place, and goes on after it. */
  method ReplaceCrLf(text: ByteString) returns (result: ByteString)
    ensures result == DropCrBeforeLf(text)
  {
    result := text;
    var pos := 0;
    while true
      invariant pos <= |result|
      invariant result[..pos] + DropCrBeforeLf(result[pos..]) == DropCrBeforeLf(text)
      decreases |result| - pos
    {
      var found := FindFrom(result, [CR, LF], pos);
      if found.None? {
        NoPairNoChange(result, pos);
        break;
      }
      var at := found.value;
      ReplaceOne(result, pos, at);
      result := result[..at] + [LF] + result[at + 2..];
      pos := at + 1;
    }
  }

  lemma {:induction false} ReplaceOne(s: ByteString, pos: nat, at: nat)
    requires pos <= at && OccursAt(s, [CR, LF], at) && forall j :: pos <= j < at ==> !OccursAt(s, [CR, LF], j)
    ensures var next := s[..at] + [LF] + s[at + 2..];
            next[..at + 1] + DropCrBeforeLf(next[at + 1..]) == s[..pos] + DropCrBeforeLf(s[pos..])
  {
    PairFound(s, pos, at);
    var next, tail := s[..at] + [LF] + s[at + 2..], DropCrBeforeLf(s[at + 2..]);
    assert next[..at + 1] == s[..at] + [LF] && next[at + 1..] == s[at + 2..];
    assert s[..at] == s[..pos] + s[pos..at];
    assert s[..pos] + (s[pos..at] + [LF] + tail) == s[..pos] + s[pos..at] + [LF] + tail;
  }

  lemma {:induction false} NoPairNoChange(s: ByteString, pos: nat)
    requires pos <= |s| && forall j :: pos <= j ==> !OccursAt(s, [CR, LF], j)
    ensures s[..pos] + DropCrBeforeLf(s[pos..]) == s
    decreases |s| - pos
  {
    if pos < |s| {
      NoPairNoChange(s, pos + 1);
      NotAPair(s, pos);
      var t := s[pos..];
      assert t[0] == s[pos] && t[1..] == s[pos + 1..];
      assert s[..pos + 1] == s[..pos] + [s[pos]];
      Regroup(s[..pos], [s[pos]], DropCrBeforeLf(s[pos + 1..]));
    } else {
      assert s[pos..] == [] && s[..pos] == s;
    }
  }

  lemma {:induction false} NotAPair(s: ByteString, j: nat)
    requires !OccursAt(s, [CR, LF], j)
    ensures !(j + 1 < |s| && s[j] == CR && s[j + 1] == LF)
  {
    if j + 1 < |s| { assert s[j..j + 2] == [s[j], s[j + 1]]; }
  }

  lemma {:induction false} PairFound(s: ByteString, pos: nat, at: nat)
    requires pos <= at && OccursAt(s, [CR, LF], at) && forall j :: pos <= j < at ==> !OccursAt(s, [CR, LF], j)
    ensures DropCrBeforeLf(s[pos..]) == s[pos..at] + [LF] + DropCrBeforeLf(s[at + 2..])
    decreases at - pos
  {
    var t := s[pos..];
    if pos == at {
      assert s[at..at + 2] == [CR, LF];
      assert t[0] == s[at..at + 2][0] && t[1] == s[at..at + 2][1];
      assert t[2..] == s[at + 2..] && s[pos..at] == [];
    } else {
      PairFound(s, pos + 1, at);
      NotAPair(s, pos);
      assert t[0] == s[pos] && t[1..] == s[pos + 1..] && s[pos..at] == [s[pos]] + s[pos + 1..at];
    }
  }

  method ReplaceCr(text: ByteString) returns (result: ByteString)
    ensures result == CrToLf(text)
  {
    result := text;
    var pos := 0;
    while true
      invariant pos <= |result| == |text|
      invariant forall j :: 0 <= j < pos ==> result[j] == CrToLf(text)[j]
      invariant forall j :: pos <= j < |text| ==> result[j] == text[j]
      decreases |text| - pos
    {
      var found := IndexOf(result, CR, pos);
      if found.None? { break; }
      result := result[..found.value] + [LF] + result[found.value + 1..];
      pos := found.value + 1;
    }
  }

  // ---- Trimming ----

  predicate IsSpace(c: Byte) { c == 32 || 9 <= c <= 13 }

  /** `t` is `s` without the whitespace at its two ends. */
  ghost predicate IsTrimmed(s: ByteString, t: ByteString) {
    exists i, j :: 0 <= i <= j <= |s| && t == s[i..j]
      && (forall k :: 0 <= k < i ==> IsSpace(s[k])) && (forall k :: j <= k < |s| ==> IsSpace(s[k]))
      && (t != [] ==> !IsSpace(t[0]) && !IsSpace(t[|t| - 1]))
  }

  /** The white space of the C locale: tab, line feed, vertical tab, form feed, carriage return and space. */
  lemma {:induction false} SpacesExactly(c: Byte)
    ensures IsSpace(c) <==> c in [9, 10, 11, 12, 13, 32]
  {
  }

  /** `end` never goes below `start`, so the unsigned index does not wrap. */
  method TrimWhitespace(text: ByteString) returns (r: ByteString)
    ensures IsTrimmed(text, r)
  {
    if text == [] {
      assert text == text[0..0];
      return text;
    }
    var start, end := 0, |text| - 1;
    while start <= end && IsSpace(text[start])
      invariant start <= |text| && end == |text| - 1
      invariant forall k :: 0 <= k < start ==> IsSpace(text[k])
    {
      start := start + 1;
    }
    while end >= start && IsSpace(text[end])
      invariant 0 <= end && start <= end + 1 <= |text|
      invariant start <= end ==> !IsSpace(text[start])
      invariant forall k :: end < k < |text| ==> IsSpace(text[k])
    {
      end := end - 1;
    }
    if start > end {
      assert [] == text[start..start];
      return [];
    }
    r := text[start..end + 1];
  }

  // ---- UTF-8 ----

  predicate IsContinuation(c: Byte) { 0x80 <= c < 0xC0 }

  /** How many continuation bytes a first byte calls for. */
  function Needs(c: Byte): Option<nat> {
    if c < 0x80 then Some(0)
    else if 0xC0 <= c < 0xE0 then Some(1)
    else if 0xE0 <= c < 0xF0 then Some(2)
    else if 0xF0 <= c < 0xF8 then Some(3)
    else None
  }

  /** First and continuation bytes by the masks that the code tests. */
  lemma {:induction false} MasksExactly(c: Byte)
    ensures var b := c as bv8;
            && (Needs(c) == Some(0) <==> b & 0x80 == 0)
            && (Needs(c) == Some(1) <==> b & 0xE0 == 0xC0)
            && (Needs(c) == Some(2) <==> b & 0xF0 == 0xE0)
            && (Needs(c) == Some(3) <==> b & 0xF8 == 0xF0)
            && (IsContinuation(c) <==> b & 0xC0 == 0x80)
  {
  }

  /** `n` continuation bytes come first. */
  predicate Continues(s: ByteString, n: nat)
    ensures Continues(s, n) ==> n <= |s|
    decreases n
  {
    n == 0 || (s != [] && IsContinuation(s[0]) && Continues(s[1..], n - 1))
  }

  /** What the parser accepts: first bytes, each followed by the continuation bytes it calls for. */
  predicate Valid(s: ByteString)
    decreases |s|
  {
    s == [] || (Needs(s[0]).Some? && Continues(s[1..], Needs(s[0]).value) && Valid(s[1 + Needs(s[0]).value..]))
  }

  /** A text is valid if its first byte has its continuation and the rest is valid. */
  lemma {:induction false} ValidCons(c: Byte, t: ByteString)
    ensures Valid([c] + t) <==> Needs(c).Some? && Continues(t, Needs(c).value) && Valid(t[Needs(c).value..])
  {
    var s := [c] + t;
    assert s[1..] == t;
    if Needs(c).Some? && Continues(t, Needs(c).value) {
      assert s[1 + Needs(c).value..] == t[Needs(c).value..];
    }
  }

  method IsValidUtf8(text: ByteString) returns (r: bool)
    ensures r <==> Valid(text)
  {
    var i := 0;
    assert text[0..] == text;
    while i < |text|
      invariant i <= |text| && (Valid(text[i..]) <==> Valid(text))
    {
      var n := Needs(text[i]);
      assert text[i..] == [text[i]] + text[i + 1..];
      ValidCons(text[i], text[i + 1..]);
      if n.None? { return false; }
      var ok := CheckContinuation(text, i, n.value);
      if !ok { return false; }
      assert text[i + 1..][n.value..] == text[i + 1 + n.value..];
      i := i + 1 + n.value;
    }
    r := true;
  }

  /** The checks of the bytes after a first byte, for up to three of them. */
  method CheckContinuation(text: ByteString, i: nat, n: nat) returns (ok: bool)
    requires i < |text| && n <= 3
    ensures ok <==> Continues(text[i + 1..], n)
  {
    ContinuesAt(text, i + 1, n);
    if n >= 1 {
      if i + 1 >= |text| || !IsContinuation(text[i + 1]) { return false; }
      ContinuesAt(text, i + 2, n - 1);
    }
    if n >= 2 {
      if i + 2 >= |text| || !IsContinuation(text[i + 2]) { return false; }
      ContinuesAt(text, i + 3, n - 2);
    }
    if n >= 3 {
      if i + 3 >= |text| || !IsContinuation(text[i + 3]) { return false; }
    }
    return true;
  }

  lemma {:induction false} ContinuesAt(s: ByteString, k: nat, n: nat)
    requires k <= |s|
    ensures Continues(s[k..], n) <==> n == 0 || (k < |s| && IsContinuation(s[k]) && Continues(s[k + 1..], n - 1))
  {
    if k < |s| { assert s[k..][0] == s[k] && s[k..][1..] == s[k + 1..]; }
  }

  // ---- Processing does not change the verdict ----

  lemma {:induction false} NormalizeKeepsContinuation(t: ByteString, n: nat)
    ensures Continues(Normalize(t), n) <==> Continues(t, n)
    ensures Continues(t, n) ==> Normalize(t)[n..] == Normalize(t[n..])
    decreases n
  {
    if n == 0 {
      assert Normalize(t)[0..] == Normalize(t) && t[0..] == t;
    } else if t != [] && IsContinuation(t[0]) {
      NormalizeKeepsContinuation(t[1..], n - 1);
      assert Normalize(t)[0] == t[0] && Normalize(t)[1..] == Normalize(t[1..]);
      if Continues(t, n) {
        assert Normalize(t)[n..] == Normalize(t)[1..][n - 1..];
        assert t[n..] == t[1..][n - 1..];
      }
    } else if t != [] {
      assert Normalize(t)[0] == t[0] || Normalize(t)[0] == LF;
    }
  }

  lemma {:induction false} NormalizeKeepsVerdict(s: ByteString)
    ensures Valid(Normalize(s)) <==> Valid(s)
    decreases |s|
  {
    if s != [] {
      var c, t := s[0], s[1..];
      assert s == [c] + t;
      ValidCons(c, t);
      if c == CR {
        var u := if t != [] && t[0] == LF then t[1..] else t;
        assert u == t || t == [LF] + u;
        ValidCons(LF, u);
        assert u[0..] == u && t[0..] == t;
        ValidCons(LF, Normalize(u));
        assert Normalize(u)[0..] == Normalize(u);
        NormalizeKeepsVerdict(u);
      } else {
        ValidCons(c, Normalize(t));
        if Needs(c).Some? {
          var n := Needs(c).value;
          NormalizeKeepsContinuation(t, n);
          if Continues(t, n) { NormalizeKeepsVerdict(t[n..]); }
        }
      }
    }
  }

  lemma {:induction false} LeadingSpaceKeepsVerdict(c: Byte, t: ByteString)
    requires IsSpace(c)
    ensures Valid([c] + t) <==> Valid(t)
  {
    ValidCons(c, t);
    assert t[0..] == t;
  }

  lemma {:induction false} ContinuesBeforeSpace(t: ByteString, c: Byte, n: nat)
    requires IsSpace(c)
    ensures Continues(t + [c], n) <==> Continues(t, n)
    decreases n
  {
    if n > 0 {
      if t == [] {
        assert (t + [c])[0] == c;
      } else {
        assert (t + [c])[0] == t[0] && (t + [c])[1..] == t[1..] + [c];
        ContinuesBeforeSpace(t[1..], c, n - 1);
      }
    }
  }

  lemma {:induction false} TrailingSpaceKeepsVerdict(s: ByteString, c: Byte)
    requires IsSpace(c)
    ensures Valid(s + [c]) <==> Valid(s)
    decreases |s|
  {
    if s == [] {
      assert [] + [c] == [c] + [];
      LeadingSpaceKeepsVerdict(c, []);
    } else {
      var t := s[1..];
      assert s == [s[0]] + t && s + [c] == [s[0]] + (t + [c]);
      ValidCons(s[0], t);
      ValidCons(s[0], t + [c]);
      if Needs(s[0]).Some? {
        var n := Needs(s[0]).value;
        ContinuesBeforeSpace(t, c, n);
        if Continues(t, n) {
          assert (t + [c])[n..] == t[n..] + [c];
          TrailingSpaceKeepsVerdict(t[n..], c);
        }
      }
    }
  }

  lemma {:induction false} TrimFrontKeepsVerdict(s: ByteString, i: nat)
    requires i <= |s| && forall k :: 0 <= k < i ==> IsSpace(s[k])
    ensures Valid(s[i..]) <==> Valid(s)
    decreases i
  {
    if i == 0 {
      assert s[0..] == s;
    } else {
      TrimFrontKeepsVerdict(s, i - 1);
      assert s[i - 1..] == [s[i - 1]] + s[i..];
      LeadingSpaceKeepsVerdict(s[i - 1], s[i..]);
    }
  }

  lemma {:induction false} TrimBackKeepsVerdict(s: ByteString, j: nat)
    requires j <= |s| && forall k :: j <= k < |s| ==> IsSpace(s[k])
    ensures Valid(s[..j]) <==> Valid(s)
    decreases |s| - j
  {
    if j == |s| {
      assert s[..j] == s;
    } else {
      TrimBackKeepsVerdict(s, j + 1);
      assert s[..j + 1] == s[..j] + [s[j]];
      TrailingSpaceKeepsVerdict(s[..j], s[j]);
    }
  }

  lemma {:induction false} TrimKeepsVerdict(s: ByteString, t: ByteString)
    requires IsTrimmed(s, t)
    ensures Valid(t) <==> Valid(s)
  {
    var i, j :| 0 <= i <= j <= |s| && t == s[i..j]
      && (forall k :: 0 <= k < i ==> IsSpace(s[k])) && (forall k :: j <= k < |s| ==> IsSpace(s[k]))
      && (t != [] ==> !IsSpace(t[0]) && !IsSpace(t[|t| - 1]));
    TrimBothKeepsVerdict(s, i, j);
  }

  lemma {:induction false} TrimBothKeepsVerdict(s: ByteString, i: nat, j: nat)
    requires i <= j <= |s|
    requires (forall k :: 0 <= k < i ==> IsSpace(s[k])) && (forall k :: j <= k < |s| ==> IsSpace(s[k]))
    ensures Valid(s[i..j]) <==> Valid(s)
  {
    TrimBackKeepsVerdict(s, j);
    TrimFrontKeepsVerdict(s[..j], i);
    assert s[..j][i..] == s[i..j];
  }

  datatype Config = Config(normalize: bool, trim: bool, validate: bool)

  /**
   The whole of text processing: it fails exactly when validation is on and the text as received
   is not valid; otherwise the result is the text, normalised and trimmed as configured.
   */
  method ProcessText(c: Config, text: ByteString) returns (r: Option<ByteString>)
    ensures r.None? <==> c.validate && !Valid(text)
    ensures r.Some? ==>
              var base := if c.normalize then Normalize(text) else text;
              if c.trim then IsTrimmed(base, r.value) else r.value == base
    ensures r.Some? ==> (Valid(r.value) <==> Valid(text))
  {
    var result := text;
    if c.normalize {
      result := NormalizeLineEndings(result);
      NormalizeKeepsVerdict(text);
    }
    if c.trim {
      ghost var base := result;
      result := TrimWhitespace(result);
      TrimKeepsVerdict(base, result);
    }
    if c.validate {
      var ok := IsValidUtf8(result);
      if !ok { return None; }
    }
    r := Some(result);
  }

  // ---- Encodings of Unicode ----

  predicate IsScalar(v: nat) { v < 0xD800 || 0xE000 <= v < 0x110000 }

  /** The encoding of one scalar value (section 3 of RFC 3629). */
  function EncodeScalar(v: nat): ByteString
    requires IsScalar(v)
  {
    if v < 0x80 then [v]
    else if v < 0x800 then [0xC0 + v / 64, 0x80 + v % 64]
    else if v < 0x10000 then [0xE0 + v / 4096, 0x80 + v / 64 % 64, 0x80 + v % 64]
    else [0xF0 + v / 262144, 0x80 + v / 4096 % 64, 0x80 + v / 64 % 64, 0x80 + v % 64]
  }

  /** Four characters of the examples in section 7 of RFC 3629, one of each length. */
  lemma {:induction false} ScalarExamples()
    ensures EncodeScalar(0x41) == [0x41] && EncodeScalar(0x2262) == [0xE2, 0x89, 0xA2]
    ensures EncodeScalar(0x391) == [0xCE, 0x91] && EncodeScalar(0x233B4) == [0xF0, 0xA3, 0x8E, 0xB4]
  {
  }

  predicate Scalars(vs: seq<nat>) { forall i :: 0 <= i < |vs| ==> IsScalar(vs[i]) }

  function EncodeAll(vs: seq<nat>): ByteString
    requires Scalars(vs)
  {
    if vs == [] then [] else EncodeScalar(vs[0]) + EncodeAll(vs[1..])
  }

  lemma {:induction false} ScalarAccepted(v: nat, tail: ByteString)
    requires IsScalar(v)
    ensures Valid(EncodeScalar(v) + tail) <==> Valid(tail)
  {
    var e := EncodeScalar(v);
    var n := |e| - 1;
    assert Needs(e[0]) == Some(n);
    ScalarContinues(v, tail);
    assert e + tail == [e[0]] + (e[1..] + tail);
    ValidCons(e[0], e[1..] + tail);
    assert (e[1..] + tail)[n..] == tail;
  }

  lemma {:induction false} ScalarContinues(v: nat, tail: ByteString)
    requires IsScalar(v)
    ensures var e := EncodeScalar(v); Continues(e[1..] + tail, |e| - 1)
  {
    var e := EncodeScalar(v);
    var t := e[1..] + tail;
    assert t[0..] == t;
    ContinuesAt(t, 0, |e| - 1);
    if |e| >= 2 { ContinuesAt(t, 1, |e| - 2); }
    if |e| >= 3 { ContinuesAt(t, 2, |e| - 3); }
  }

  /** Every encoding of a sequence of Unicode scalar values is accepted. */
  lemma {:induction false} EncodingsAccepted(vs: seq<nat>)
    requires Scalars(vs)
    ensures Valid(EncodeAll(vs))
    decreases |vs|
  {
    if vs != [] {
      EncodingsAccepted(vs[1..]);
      ScalarAccepted(vs[0], EncodeAll(vs[1..]));
    }
  }

  // ---- Which accepted texts are encodings ----

  /** The first byte and the range of the second one (section 4 of RFC 3629), where the continuation bytes are there. */
  predicate LeadOk(s: ByteString)
    requires s != []
  {
    var c, d := s[0], if |s| > 1 then s[1] else 0;
    || c < 0x80
    || 0xC2 <= c < 0xE0
    || (c == 0xE0 && d >= 0xA0)
    || (0xE1 <= c < 0xF0 && (c == 0xED ==> d < 0xA0))
    || (c == 0xF0 && d >= 0x90)
    || 0xF1 <= c < 0xF4
    || (c == 0xF4 && d < 0x90)
  }

  /** Every first byte of a valid text is in range. */
  predicate LeadsOk(s: ByteString)
    requires Valid(s)
    decreases |s|
  {
    s == [] || (LeadOk(s) && LeadsOk(s[1 + Needs(s[0]).value..]))
  }

  /** The scalar value that the text starts with. */
  function Decode(s: ByteString): nat
    requires s != [] && Needs(s[0]).Some? && Continues(s[1..], Needs(s[0]).value)
  {
    match Needs(s[0]).value
    case 0 => s[0]
    case 1 => (s[0] - 0xC0) * 64 + Low(s, 1)
    case 2 => (s[0] - 0xE0) * 4096 + Low(s, 1) * 64 + Low(s, 2)
    case _ => (s[0] - 0xF0) * 262144 + Low(s, 1) * 4096 + Low(s, 2) * 64 + Low(s, 3)
  }

  /** The six low bits of a continuation byte. */
  function Low(s: ByteString, i: nat): nat { if i < |s| && s[i] >= 0x80 then s[i] - 0x80 else 0 }

  lemma {:induction false} ContinuationBytes(s: ByteString, n: nat)
    requires s != [] && Continues(s[1..], n)
    ensures forall i :: 1 <= i <= n ==> i < |s| && IsContinuation(s[i]) && Low(s, i) < 64 && s[i] == 0x80 + Low(s, i)
    decreases n
  {
    if n > 0 {
      assert s[1..][1..] == s[2..] && s[1..][0] == s[1];
      ContinuationBytes(s[1..], n - 1);
      forall i | 1 <= i <= n ensures i < |s| && IsContinuation(s[i]) {
        if i > 1 { assert s[i] == s[1..][i - 1]; }
      }
    }
  }

  /** Digits of base 64 are read off by division. */
  lemma {:induction false} TwoDigits(a: nat, b: nat)
    requires b < 64
    ensures (a * 64 + b) / 64 == a && (a * 64 + b) % 64 == b
  {
  }

  lemma {:induction false} ThreeDigits(a: nat, b: nat, c: nat)
    requires b < 64 && c < 64
    ensures var v := a * 4096 + b * 64 + c; v / 4096 == a && v / 64 % 64 == b && v % 64 == c
  {
    TwoDigits(a * 64 + b, c);
    TwoDigits(a, b);
  }

  lemma {:induction false} FourDigits(a: nat, b: nat, c: nat, d: nat)
    requires b < 64 && c < 64 && d < 64
    ensures var v := a * 262144 + b * 4096 + c * 64 + d;
            v / 262144 == a && v / 4096 % 64 == b && v / 64 % 64 == c && v % 64 == d
  {
    ThreeDigits(a * 64 + b, c, d);
    TwoDigits(a, b);
  }

  /** A text whose first byte is in range starts with the encoding of a scalar value. */
  lemma {:induction false} LeadIsEncoding(s: ByteString)
    requires s != [] && Needs(s[0]).Some? && Continues(s[1..], Needs(s[0]).value) && LeadOk(s)
    ensures IsScalar(Decode(s)) && EncodeScalar(Decode(s)) == s[..1 + Needs(s[0]).value]
  {
    ContinuationBytes(s, Needs(s[0]).value);
    match Needs(s[0]).value {
      case 0 =>
      case 1 => TwoDigits(s[0] - 0xC0, Low(s, 1));
      case 2 => ThreeByteLead(s);
      case _ => FourByteLead(s);
    }
  }

  lemma {:induction false} ThreeByteLead(s: ByteString)
    requires s != [] && Needs(s[0]) == Some(2) && Continues(s[1..], 2) && LeadOk(s)
    ensures IsScalar(Decode(s)) && EncodeScalar(Decode(s)) == s[..3]
  {
    ContinuationBytes(s, 2);
    ThreeDigits(s[0] - 0xE0, Low(s, 1), Low(s, 2));
  }

  lemma {:induction false} FourByteLead(s: ByteString)
    requires s != [] && Needs(s[0]) == Some(3) && Continues(s[1..], 3) && LeadOk(s)
    ensures IsScalar(Decode(s)) && EncodeScalar(Decode(s)) == s[..4]
  {
    ContinuationBytes(s, 3);
    FourDigits(s[0] - 0xF0, Low(s, 1), Low(s, 2), Low(s, 3));
  }

  /** The encoding of a scalar value has its first byte in range. */
  lemma {:induction false} EncodingLeads(v: nat, tail: ByteString)
    requires IsScalar(v)
    ensures LeadOk(EncodeScalar(v) + tail) && Needs(EncodeScalar(v)[0]) == Some(|EncodeScalar(v)| - 1)
  {
    var e := EncodeScalar(v);
    assert (e + tail)[0] == e[0] && (|e| > 1 ==> (e + tail)[1] == e[1]);
  }

  lemma {:induction false} EncodingsInRange(vs: seq<nat>)
    requires Scalars(vs)
    ensures Valid(EncodeAll(vs)) && LeadsOk(EncodeAll(vs))
    decreases |vs|
  {
    EncodingsAccepted(vs);
    if vs != [] {
      var e, tail := EncodeScalar(vs[0]), EncodeAll(vs[1..]);
      EncodingsInRange(vs[1..]);
      EncodingLeads(vs[0], tail);
      assert (e + tail)[|e|..] == tail && (e + tail)[0] == e[0];
    }
  }

  /** The scalar values that a text in range encodes. */
  lemma {:induction false} InRangeIsEncoding(s: ByteString) returns (vs: seq<nat>)
    requires Valid(s) && LeadsOk(s)
    ensures Scalars(vs) && EncodeAll(vs) == s
    decreases |s|
  {
    vs := [];
    if s != [] {
      var n := 1 + Needs(s[0]).value;
      LeadIsEncoding(s);
      var rest := InRangeIsEncoding(s[n..]);
      vs := [Decode(s)] + rest;
      assert vs[1..] == rest && s == s[..n] + s[n..];
    }
  }

  ghost predicate IsEncoding(s: ByteString) { exists vs :: Scalars(vs) && EncodeAll(vs) == s }

  /** Exactly which texts encode Unicode: those accepted whose first bytes are all in range. */
  lemma {:induction false} EncodedExactly(s: ByteString)
    ensures IsEncoding(s) <==> Valid(s) && LeadsOk(s)
  {
    if IsEncoding(s) {
      var vs :| Scalars(vs) && EncodeAll(vs) == s;
      EncodingsInRange(vs);
    }
    if Valid(s) && LeadsOk(s) {
      var vs := InRangeIsEncoding(s);
    }
  }

  /** More is accepted: two bytes for NUL, which no sequence of scalar values is encoded as. */
  lemma {:induction false} OverlongAccepted()
    ensures Valid([0xC0, 0x80]) && !IsEncoding([0xC0, 0x80])
  {
    assert [0x80][1..] == [] && Continues([], 0);
    assert [0xC0, 0x80][1..] == [0x80] && [0xC0, 0x80][2..] == [];
    EncodedExactly([0xC0, 0x80]);
  }
}
