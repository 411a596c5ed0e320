/**
 Bodies with content of any length. Long content is counted and dropped from the buffer while it
 arrives, so only a cut inside the delimiter after it does harm.
 */
module MultipartLong {
  import opened Search
  import opened MultipartMachine
  import opened MultipartChunking

  /** The size limit for a field. */
  function LimitFor(c: Settings, f: Field): nat { if f.filename != "" then c.maxFileSize else c.maxFieldSize }

  /** Content, with its line end, that the parser may drop in pieces. */
  predicate IsLong(n: nat) { n > SLACK + 1 }

  /** A part of any length within the size limit, without the delimiter in its content. */
  ghost predicate PartFits(c: Settings, part: Part) {
    var lead, d := part.content + CRLF, c.Delimiter();
    && HeadersOk(part.headers) && FirstAt(lead + d, d, |lead|)
    && (IsLong(|lead|) ==> |lead| <= LimitFor(c, FieldOf(part.headers)))
  }

  ghost predicate PartsFit(c: Settings, parts: seq<Part>) {
    forall i :: 0 <= i < |parts| ==> PartFits(c, parts[i])
  }

  ghost predicate BodyFits(c: Settings, b: Body) {
    LeadsTo(b.preamble, c.Delimiter()) && PartsFit(c, b.parts)
  }

  // ---- Cuts ----

  /** With `n` bytes to come, the cut is not strictly inside the delimiter that ends a long lead of `size` bytes. */
  predicate OutsideDelimiter(d: string, size: nat, parts: seq<Part>, n: nat, close: string) {
    var after := |AfterDelimiter(d, parts, close)|;
    IsLong(size) ==> n <= after || n >= after + |d|
  }

  predicate OutsideDelimiters(d: string, parts: seq<Part>, n: nat, close: string)
    decreases |parts|
  {
    parts == [] || (OutsideDelimiter(d, |parts[0].content| + 2, parts[1..], n, close)
                    && OutsideDelimiters(d, parts[1..], n, close))
  }

  /** No cut is before or between the closing dashes, or inside a delimiter after long content. */
  ghost predicate CutsSafe(d: string, b: Body, chunks: seq<string>) {
    && CutsOk(chunks, CloseMark(b))
    && forall k :: 0 < k < |chunks| ==> OutsideDelimiters(d, b.parts, |Concat(chunks[k..])|, CloseMark(b))
  }

  // ---- Where the parser stands ----

  /** A place in a body; inside content, `lead` is what is left of it and `parts` are the parts after it. */
  datatype Place =
    | BeforeDelimiter(lead: string, parts: seq<Part>)
    | BeforeHeaders(skip: string, parts: seq<Part>)
    | InContent(lead: string, parts: seq<Part>)
    | Finished

  ghost predicate PlaceOk(c: Settings, a: Place) {
    match a
    case BeforeDelimiter(lead, parts) => LeadsTo(lead, c.Delimiter()) && PartsFit(c, parts)
    case BeforeHeaders(skip, parts) => parts != [] && PartsFit(c, parts) && (skip == "" || skip == CRLF)
    case InContent(lead, parts) => FirstAt(lead + c.Delimiter(), c.Delimiter(), |lead|) && PartsFit(c, parts)
    case Finished => true
  }

  ghost function RestAt(d: string, a: Place, close: string): string
    requires a.BeforeHeaders? ==> a.parts != []
  {
    match a
    case BeforeDelimiter(lead, parts) => lead + d + AfterDelimiter(d, parts, close)
    case BeforeHeaders(skip, parts) => skip + FromHeaders(d, parts, close)
    case InContent(lead, parts) => lead + d + AfterDelimiter(d, parts, close)
    case Finished => close
  }

  /** The phase and the field under construction that belong to a place. */
  ghost predicate StateOk(c: Settings, p: Parser, a: Place) {
    match a
    case BeforeDelimiter(_, _) => p.phase == Boundary && p.current == None
    case BeforeHeaders(_, _) => p.phase == Headers && p.current == None
    case InContent(lead, _) =>
      && p.phase == Content && p.current.Some?
      && (IsLong(|lead|) ==> p.fieldSize + |lead| <= LimitFor(c, p.current.value))
    case Finished => p.phase == Complete && p.current == None
  }

  /** The parser stands at `a` and the bytes `z` are still to come. */
  ghost predicate Stands(c: Settings, p: Parser, a: Place, z: string, close: string) {
    && PlaceOk(c, a) && StateOk(c, p, a) && StartsWith(close, "--")
    && p.buffer + z == RestAt(c.Delimiter(), a, close)
  }

  predicate Safe(d: string, a: Place, n: nat, close: string) {
    match a
    case InContent(lead, parts) => OutsideDelimiter(d, |lead|, parts, n, close) && OutsideDelimiters(d, parts, n, close)
    case Finished => true
    case _ => OutsideDelimiters(d, a.parts, n, close)
  }

  // ---- What the parse comes to ----

  /** The name last seen once the header blocks of `parts` have been read. */
  function NameAfter(name: string, parts: seq<Part>): string
    decreases |parts|
  {
    if parts == [] then name
    else NameAfter(ParseBlock(parts[0].headers, HeaderState(NO_FIELD, name)).fieldName, parts[1..])
  }

  ghost function EndResult(p: Parser, a: Place): seq<Field>
    requires a.InContent? ==> p.current.Some?
  {
    match a
    case InContent(_, parts) => p.result + [p.current.value] + FieldsOf(parts)
    case Finished => p.result
    case _ => p.result + FieldsOf(a.parts)
  }

  ghost function EndName(p: Parser, a: Place): string {
    if a.Finished? then p.fieldName else NameAfter(p.fieldName, a.parts)
  }

  /** From `p` at `a` to `q` at `b` nothing of what the parse comes to is lost, and no safe cut becomes unsafe. */
  ghost predicate Moves(c: Settings, p: Parser, a: Place, q: Parser, b: Place, z: string, close: string)
    requires Stands(c, p, a, z, close)
  {
    && Stands(c, q, b, z, close)
    && EndResult(q, b) == EndResult(p, a) && EndName(q, b) == EndName(p, a) && q.bytes == p.bytes
    && forall n: nat :: Safe(c.Delimiter(), a, n, close) ==> Safe(c.Delimiter(), b, n, close)
  }

  // ---- The stages ----

  lemma {:induction false} AtBoundary(c: Settings, p: Parser, a: Place, z: string, close: string) returns (b: Place)
    requires a.BeforeDelimiter? && Stands(c, p, a, z, close) && Running(p) && CutOk(z, close)
    ensures Moves(c, p, a, Step(c, p).parser, b, z, close) && (z == "" ==> Step(c, p).processed)
  {
    var d := c.Delimiter();
    var after := AfterDelimiter(d, a.parts, close);
    var rest := BoundaryEffect(c, p, a.lead, after, z);
    b := a;
    if |a.lead| + |d| <= |p.buffer| {
      if a.parts == [] {
        PastCloseDelimiter(p, rest, z, close);
        b := Finished;
        assert p.result + FieldsOf([]) == p.result;
        assert rest[..2] == (rest + z)[..2] == "--";
      } else {
        var text := FromHeaders(d, a.parts, close);
        PastPartDelimiter(p, rest, z, text);
        b := BeforeHeaders(if |rest| >= 2 then "" else CRLF, a.parts);
        assert "" + text == text;
      }
    } else {
      assert z == "" ==> p.buffer == p.buffer + z;
    }
  }

  lemma {:induction false} AtHeaderBlock(c: Settings, p: Parser, a: Place, z: string, close: string) returns (b: Place)
    requires a.BeforeHeaders? && Stands(c, p, a, z, close) && Running(p)
    ensures Moves(c, p, a, Step(c, p).parser, b, z, close) && (z == "" ==> Step(c, p).processed)
  {
    var d := c.Delimiter();
    var part, rests := a.parts[0], a.parts[1..];
    var h, tail := part.headers, FromContent(d, a.parts, close);
    assert PartFits(c, part);
    assert p.buffer + z == a.skip + h + BLANK_LINE + tail by {
      assert a.skip + (h + BLANK_LINE + tail) == a.skip + h + BLANK_LINE + tail;
    }
    var rest := HeadersEffect(c, p, h, a.skip, tail, z);
    b := a;
    if |a.skip| + |h| + 4 <= |p.buffer| {
      b := InContent(part.content + CRLF, rests);
      FieldIsRead(p, a.skip, h);
      FieldsOfCons(p.result, a.parts);
    } else {
      assert z == "" ==> p.buffer == p.buffer + z;
    }
  }

  /** What a header block leaves in the parser, with or without a line end in front of it. */
  lemma {:induction false} FieldIsRead(p: Parser, skip: string, h: string)
    requires skip == "" || skip == CRLF
    ensures var read := ParseBlock(skip + h, HeaderState(NO_FIELD, p.fieldName));
            read.field == FieldOf(h) && read.fieldName == ParseBlock(h, HeaderState(NO_FIELD, p.fieldName)).fieldName
  {
    var s := HeaderState(NO_FIELD, p.fieldName);
    if skip == CRLF { LeadingLineEndIgnored(h, s); } else { assert skip + h == h; }
    FieldIgnoresLastName(h, NO_FIELD, p.fieldName, "");
  }

  lemma {:induction false} AtContentBytes(c: Settings, p: Parser, a: Place, z: string, close: string) returns (b: Place)
    requires a.InContent? && Stands(c, p, a, z, close) && Running(p) && Safe(c.Delimiter(), a, |z|, close)
    ensures Moves(c, p, a, Step(c, p).parser, b, z, close) && (z == "" ==> Step(c, p).processed)
  {
    var d := c.Delimiter();
    LeadFound(a.lead, d, AfterDelimiter(d, a.parts, close), p.buffer, z);
    if |a.lead| + |d| <= |p.buffer| {
      b := BeforeDelimiter("", a.parts);
      ContentEnds(c, p, a, z, close);
    } else {
      assert z == "" ==> p.buffer == p.buffer + z;
      if |p.buffer| > |d| + SLACK {
        b := InContent(a.lead[|p.buffer|..], a.parts);
        ContentDropped(c, p, a, z, close);
      } else {
        b := a;
      }
    }
  }

  lemma {:induction false} ContentEnds(c: Settings, p: Parser, a: Place, z: string, close: string)
    requires a.InContent? && Stands(c, p, a, z, close) && Running(p)
    requires |a.lead| + |c.Delimiter()| <= |p.buffer| && Find(p.buffer, c.Delimiter()) == Some(|a.lead|)
    ensures Step(c, p).processed && Moves(c, p, a, Step(c, p).parser, BeforeDelimiter("", a.parts), z, close)
  {
    var d, after := c.Delimiter(), AfterDelimiter(c.Delimiter(), a.parts, close);
    assert a.lead + d + after == a.lead + (d + after);
    AfterFront(p.buffer, z, a.lead, d + after);
    var q := Step(c, p).parser;
    assert q.phase == Boundary && q.current == None && q.result == p.result + [p.current.value];
    assert q.buffer == p.buffer[|a.lead|..] && q.fieldName == p.fieldName && q.bytes == p.bytes;
    EmptyLead(d, after);
  }

  /** Long content without its delimiter is dropped; no part of the delimiter goes with it. */
  lemma {:induction false} ContentDropped(c: Settings, p: Parser, a: Place, z: string, close: string)
    requires a.InContent? && Stands(c, p, a, z, close) && Running(p) && Safe(c.Delimiter(), a, |z|, close)
    requires Find(p.buffer, c.Delimiter()) == None
    requires |c.Delimiter()| + SLACK < |p.buffer| < |a.lead| + |c.Delimiter()|
    ensures |p.buffer| <= |a.lead| && z != ""
    ensures Moves(c, p, a, Step(c, p).parser, InContent(a.lead[|p.buffer|..], a.parts), z, close)
  {
    var d, n, after := c.Delimiter(), |p.buffer|, AfterDelimiter(c.Delimiter(), a.parts, close);
    assert |p.buffer + z| == |a.lead| + |d| + |after|;
    assert IsLong(|a.lead|);
    var b := InContent(a.lead[n..], a.parts);
    var q := Step(c, p).parser;
    assert q == p.(buffer := "", fieldSize := p.fieldSize + (n - |d| - 10));
    RestAfter(p.buffer, z, a.lead, d + after);
    assert a.lead + d + after == a.lead + (d + after) && b.lead + d + after == b.lead + (d + after);
    assert q.buffer + z == z;
    SuffixFirst(a.lead, d, n);
  }

  lemma {:induction false} RestAfter(b: string, z: string, lead: string, tail: string)
    requires b + z == lead + tail && |b| <= |lead|
    ensures z == lead[|b|..] + tail
  {
    assert z == (b + z)[|b|..];
  }

  /** The first delimiter after a lead is the first after any suffix of it. */
  lemma {:induction false} SuffixFirst(lead: string, d: string, n: nat)
    requires FirstAt(lead + d, d, |lead|) && n <= |lead|
    ensures FirstAt(lead[n..] + d, d, |lead| - n)
  {
    var u := lead[n..] + d;
    assert lead[..n] + u == lead + d;
    forall j | 0 <= j < |lead| - n ensures !OccursAt(u, d, j) {
      PastFront(lead[..n], u, d, n + j);
    }
    PastFront(lead[..n], u, d, |lead|);
  }

  lemma {:induction false} Stage(c: Settings, p: Parser, a: Place, z: string, close: string) returns (b: Place)
    requires Stands(c, p, a, z, close) && Running(p) && CutOk(z, close) && Safe(c.Delimiter(), a, |z|, close)
    ensures Moves(c, p, a, Step(c, p).parser, b, z, close) && (z == "" ==> Step(c, p).processed)
  {
    match a
    case BeforeDelimiter(_, _) => b := AtBoundary(c, p, a, z, close);
    case BeforeHeaders(_, _) => b := AtHeaderBlock(c, p, a, z, close);
    case InContent(_, _) => b := AtContentBytes(c, p, a, z, close);
  }

  // ---- The loop and the chunks ----

  lemma {:induction false} MovesThen(c: Settings, p: Parser, a: Place, q: Parser, b: Place, r: Parser, e: Place, z: string, close: string)
    requires Stands(c, p, a, z, close) && Moves(c, p, a, q, b, z, close) && Moves(c, q, b, r, e, z, close)
    ensures Moves(c, p, a, r, e, z, close)
  {
  }

  /** With nothing to come, a parser that has not finished has something to do. */
  lemma {:induction false} NotIdle(c: Settings, p: Parser, a: Place, close: string)
    requires Stands(c, p, a, "", close) && !a.Finished?
    ensures Running(p)
  {
    assert p.buffer + "" == p.buffer;
    assert |RestAt(c.Delimiter(), a, close)| > 0;
  }

  lemma {:induction false} DriveMoves(c: Settings, p: Parser, a: Place, z: string, close: string) returns (b: Place)
    requires Stands(c, p, a, z, close) && CutOk(z, close) && Safe(c.Delimiter(), a, |z|, close)
    ensures Moves(c, p, a, Drive(c, p), b, z, close) && (z == "" ==> b.Finished?)
    decreases |p.buffer|, ContentRank(p)
  {
    b := a;
    if Running(p) {
      var mid := Stage(c, p, a, z, close);
      var q := Step(c, p).parser;
      if Step(c, p).processed {
        StepDecreases(c, p);
        b := DriveMoves(c, q, mid, z, close);
        MovesThen(c, p, a, q, mid, Drive(c, q), b, z, close);
      } else {
        b := mid;
      }
    } else if z == "" && !a.Finished? {
      NotIdle(c, p, a, close);
    }
  }

  /** The parser with a chunk appended stands where it stood, with that much less to come. */
  lemma {:induction false} ChunkArrives(c: Settings, p: Parser, a: Place, x: string, z: string, close: string)
    requires Stands(c, p, a, x + z, close)
    ensures Stands(c, p.Extend(x), a, z, close)
    ensures EndResult(p.Extend(x), a) == EndResult(p, a) && EndName(p.Extend(x), a) == EndName(p, a)
  {
    assert p.buffer + (x + z) == p.buffer + x + z;
  }

  lemma {:induction false} ChunksMove(c: Settings, p: Parser, a: Place, chunks: seq<string>, close: string)
    requires chunks != [] && Stands(c, p, a, Concat(chunks), close) && CutsOk(chunks, close)
    requires forall k :: 0 < k < |chunks| ==> Safe(c.Delimiter(), a, |Concat(chunks[k..])|, close)
    ensures var q := FeedAll(c, p, chunks);
            && Stands(c, q, Finished, "", close) && q.bytes == p.bytes + |Concat(chunks)|
            && q.result == EndResult(p, a) && q.fieldName == EndName(p, a)
    decreases |chunks|
  {
    var x, rest := chunks[0], chunks[1..];
    var z := Concat(rest);
    assert Concat(chunks) == x + z;
    ChunkArrives(c, p, a, x, z, close);
    if rest == [] {
      assert z == "" && StartsWith(close, "--");
      NothingToComeIsSafe(c.Delimiter(), a, close);
      var b := DriveMoves(c, p.Extend(x), a, z, close);
      assert FeedAll(c, Feed(c, p, x), rest) == Feed(c, p, x);
    } else {
      CutsOkTail(chunks, close);
      assert chunks[1..] == rest;
      var b := DriveMoves(c, p.Extend(x), a, z, close);
      forall k | 0 < k < |rest| ensures Safe(c.Delimiter(), b, |Concat(rest[k..])|, close) {
        assert rest[k..] == chunks[k + 1..];
      }
      ChunksMove(c, Feed(c, p, x), b, rest, close);
    }
  }

  lemma {:induction false} NothingToComeIsSafe(d: string, a: Place, close: string)
    ensures Safe(d, a, 0, close)
  {
    if !a.Finished? { NoneInside(d, a.parts, close); }
  }

  lemma {:induction false} NoneInside(d: string, parts: seq<Part>, close: string)
    ensures OutsideDelimiters(d, parts, 0, close)
    decreases |parts|
  {
    if parts != [] { NoneInside(d, parts[1..], close); }
  }

  /**
   A body with content of any length within the limits, in any chunks without a harmful cut, is
   parsed completely: one field per part, in order, and every byte counted.
   */
  lemma {:induction false} LongBodyIsParsed(c: Settings, b: Body, chunks: seq<string>)
    requires BodyFits(c, b) && Concat(chunks) == Render(c.Delimiter(), b) && CutsSafe(c.Delimiter(), b, chunks)
    ensures var p := FeedAll(c, Fresh(), chunks);
            && p.phase == Complete && p.current == None && p.buffer == CloseMark(b)
            && p.result == FieldsOf(b.parts) && p.fieldName == NameAfter("", b.parts)
            && p.bytes == |Render(c.Delimiter(), b)|
  {
    var d, close := c.Delimiter(), CloseMark(b);
    var a := BeforeDelimiter(b.preamble, b.parts);
    assert close[..2] == "--";
    assert Fresh().buffer + Render(d, b) == Render(d, b);
    ChunksMove(c, Fresh(), a, chunks, close);
    var p := FeedAll(c, Fresh(), chunks);
    assert p.buffer + "" == p.buffer;
    assert [] + FieldsOf(b.parts) == FieldsOf(b.parts);
  }

  /** Everything but the running size of the last field is as after one feed. */
  lemma {:induction false} LongChunkIndependence(c: Settings, b: Body, chunks: seq<string>)
    requires BodyFits(c, b) && Concat(chunks) == Render(c.Delimiter(), b) && CutsSafe(c.Delimiter(), b, chunks)
    ensures FeedAll(c, Fresh(), chunks).(fieldSize := 0) == Feed(c, Fresh(), Render(c.Delimiter(), b)).(fieldSize := 0)
  {
    var whole := [Render(c.Delimiter(), b)];
    assert whole[1..] == [] && Concat(whole) == whole[0] + "" == whole[0];
    LongBodyIsParsed(c, b, chunks);
    LongBodyIsParsed(c, b, whole);
    assert FeedAll(c, Fresh(), whole) == Feed(c, Fresh(), whole[0]);
  }

  /** Bodies with short content fit whatever the limits, and have no delimiter to cut. */
  lemma {:induction false} ShortBodiesFit(c: Settings, b: Body, n: nat)
    requires WellFormed(c.Delimiter(), b)
    ensures BodyFits(c, b) && OutsideDelimiters(c.Delimiter(), b.parts, n, CloseMark(b))
  {
    forall i | 0 <= i < |b.parts| ensures PartFits(c, b.parts[i]) { assert PartOk(c.Delimiter(), b.parts[i]); }
    ShortContentIsSafe(c.Delimiter(), b.parts, n, CloseMark(b));
  }

  lemma {:induction false} ShortContentIsSafe(d: string, parts: seq<Part>, n: nat, close: string)
    requires PartsOk(d, parts)
    ensures OutsideDelimiters(d, parts, n, close)
    decreases |parts|
  {
    if parts != [] {
      assert PartOk(d, parts[0]);
      ShortContentIsSafe(d, parts[1..], n, close);
    }
  }

  // ---- The size limits ----

  /** Chunks of content that do not end it: more than 100 bytes longer than the delimiter, which does not occur in them. */
  ghost predicate AllDropped(d: string, chunks: seq<string>) {
    forall i :: 0 <= i < |chunks| ==> |chunks[i]| > |d| + 100 && Absent(chunks[i], d)
  }

  /** What such chunks count towards the size: all but the length of the delimiter and ten bytes of each. */
  function CountedSize(d: string, chunks: seq<string>): int
    decreases |chunks|
  {
    if chunks == [] then 0 else |chunks[0]| - |d| - 10 + CountedSize(d, chunks[1..])
  }

  lemma {:induction false} CountedGrows(d: string, chunks: seq<string>)
    requires AllDropped(d, chunks)
    ensures CountedSize(d, chunks) >= 0
    decreases |chunks|
  {
    if chunks != [] {
      assert AllDropped(d, chunks[1..]) by {
        forall i | 0 <= i < |chunks| - 1 ensures |chunks[1..][i]| > |d| + 100 && Absent(chunks[1..][i], d) {
          assert chunks[1..][i] == chunks[i + 1];
        }
      }
      CountedGrows(d, chunks[1..]);
    }
  }

  /** One such chunk is counted and dropped, and over the limit it is an error. */
  lemma {:induction false} OneDropped(c: Settings, p: Parser, f: Field, chunk: string)
    requires p.phase == Content && p.buffer == "" && p.current == Some(f) && AllDropped(c.Delimiter(), [chunk])
    ensures var q, size := Feed(c, p, chunk), p.fieldSize + |chunk| - |c.Delimiter()| - 10;
            && q.current == Some(f) && q.buffer == "" && q.fieldSize == size && q.result == p.result
            && q.phase == if size > (if f.filename != "" then c.maxFileSize else c.maxFieldSize) then Error else Content
  {
    var d := c.Delimiter();
    assert [chunk][0] == chunk;
    assert p.Extend(chunk).buffer == chunk;
    assert Find(chunk, d) == None;
    assert !ProcessContent(c, p.Extend(chunk)).processed;
  }

  /** An error is final. */
  lemma {:induction false} ErrorIsFinal(c: Settings, p: Parser, chunks: seq<string>)
    requires p.phase == Error
    ensures FeedAll(c, p, chunks).phase == Error
    decreases |chunks|
  {
    if chunks != [] { ErrorIsFinal(c, Feed(c, p, chunks[0]), chunks[1..]); }
  }

  /**
   The size limit: content that arrives in such chunks is refused if and only if its counted size
   exceeds the limit for files, or for other fields.
   */
  lemma {:induction false} OverLimitExactly(c: Settings, p: Parser, f: Field, chunks: seq<string>)
    requires p.phase == Content && p.buffer == "" && p.current == Some(f) && AllDropped(c.Delimiter(), chunks)
    requires p.fieldSize <= if f.filename != "" then c.maxFileSize else c.maxFieldSize
    ensures FeedAll(c, p, chunks).phase == Error <==>
            p.fieldSize + CountedSize(c.Delimiter(), chunks) > if f.filename != "" then c.maxFileSize else c.maxFieldSize
    ensures FeedAll(c, p, chunks).phase == Error || FeedAll(c, p, chunks).phase == Content
    decreases |chunks|
  {
    if chunks != [] {
      var d, rest := c.Delimiter(), chunks[1..];
      var q := Feed(c, p, chunks[0]);
      assert AllDropped(d, [chunks[0]]);
      OneDropped(c, p, f, chunks[0]);
      assert AllDropped(d, rest) by {
        forall i | 0 <= i < |rest| ensures |rest[i]| > |d| + 100 && Absent(rest[i], d) { assert rest[i] == chunks[i + 1]; }
      }
      CountedGrows(d, rest);
      if q.phase == Error { ErrorIsFinal(c, q, rest); } else { OverLimitExactly(c, q, f, rest); }
    }
  }

  // ---- No delimiter ----

  /** Before a delimiter the parser waits, and it gives up if and only if more than 100 bytes beyond the length of one have come without it. */
  lemma {:induction false} NoDelimiterExactly(c: Settings, p: Parser, data: string)
    requires p.phase == Boundary && Absent(p.buffer + data, c.Delimiter()) && p.buffer + data != ""
    ensures Feed(c, p, data) == p.Extend(data).(phase := if |p.buffer + data| > |c.Delimiter()| + 100 then Error else Boundary)
  {
    assert Find(p.buffer + data, c.Delimiter()) == None;
  }
}
