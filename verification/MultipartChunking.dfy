/**
 What a well-formed body is parsed to, and which ways of cutting it into chunks
 leave the parse unchanged.
 */
module MultipartChunking {
  import opened Search
  import opened MultipartMachine

  // ---- Well-formed bodies ----

  /** A part: its header lines without the blank line that ends them, and its content. */
  datatype Part = Part(headers: string, content: string)

  datatype Body = Body(preamble: string, parts: seq<Part>, epilogue: string)

  /** What follows the last delimiter: two dashes and the epilogue. */
  function CloseMark(b: Body): string { "--" + b.epilogue }

  /** The text that follows a delimiter: the remaining parts, then `close` after the last delimiter. */
  function AfterDelimiter(d: string, parts: seq<Part>, close: string): string
    decreases |parts|, 0
  {
    if parts == [] then close
    else CRLF + FromHeaders(d, parts, close)
  }

  function FromHeaders(d: string, parts: seq<Part>, close: string): string
    requires parts != []
    decreases |parts| - 1, 2
  {
    parts[0].headers + BLANK_LINE + FromContent(d, parts, close)
  }

  function FromContent(d: string, parts: seq<Part>, close: string): string
    requires parts != []
    decreases |parts| - 1, 1
  {
    parts[0].content + CRLF + d + AfterDelimiter(d, parts[1..], close)
  }

  /** The body as it is sent. */
  function Render(d: string, b: Body): string {
    b.preamble + d + AfterDelimiter(d, b.parts, CloseMark(b))
  }

  /** `lead` is followed by the delimiter and does not hold it earlier; at most 101 bytes. */
  ghost predicate LeadsTo(lead: string, d: string) {
    |lead| <= SLACK + 1 && FirstAt(lead + d, d, |lead|)
  }

  ghost predicate HeadersOk(h: string) {
    && h != "" && h[0] != '\r' && h[0] != '\n'
    && FirstAt(h + BLANK_LINE, BLANK_LINE, |h|)
    && Absent(h + BLANK_LINE, BARE_BLANK_LINE)
  }

  ghost predicate PartOk(d: string, part: Part) {
    HeadersOk(part.headers) && LeadsTo(part.content + CRLF, d)
  }

  ghost predicate PartsOk(d: string, parts: seq<Part>) {
    forall i :: 0 <= i < |parts| ==> PartOk(d, parts[i])
  }

  ghost predicate WellFormed(d: string, b: Body) {
    LeadsTo(b.preamble, d) && PartsOk(d, b.parts)
  }

  // ---- What the parser expects next ----

  /** A position in a body, with the text that must still arrive counted from the buffer's start. */
  datatype Expect =
    | AtDelimiter(lead: string, parts: seq<Part>)
    | AtHeaders(skip: string, parts: seq<Part>)
    | AtContent(parts: seq<Part>)
    | Done

  ghost predicate ExpectOk(d: string, e: Expect) {
    match e
    case AtDelimiter(lead, parts) => LeadsTo(lead, d) && PartsOk(d, parts)
    case AtHeaders(skip, parts) => parts != [] && PartsOk(d, parts) && (skip == "" || skip == CRLF)
    case AtContent(parts) => parts != [] && PartsOk(d, parts)
    case Done => true
  }

  ghost function Remaining(d: string, e: Expect, close: string): string
    requires ExpectOk(d, e) && !e.Done?
  {
    match e
    case AtDelimiter(lead, parts) => lead + d + AfterDelimiter(d, parts, close)
    case AtHeaders(skip, parts) => skip + FromHeaders(d, parts, close)
    case AtContent(parts) => FromContent(d, parts, close)
  }

  /** The parser stands at `e` and the bytes `z` are still to come. */
  ghost predicate Good(d: string, p: Parser, e: Expect, z: string, close: string) {
    && ExpectOk(d, e)
    && StartsWith(close, "--")
    && p.phase == (match e
                   case AtDelimiter(_, _) => Boundary
                   case AtHeaders(_, _) => Headers
                   case AtContent(_) => Content
                   case Done => Complete)
    && (if e.Done? then |z| + 2 <= |close| else p.buffer + z == Remaining(d, e, close))
  }

  /** With `z` still to come, the cut is not before or between the two dashes that close the body. */
  ghost predicate CutOk(z: string, close: string) {
    |z| != |close| && |z| != |close| - 1
  }

  // ---- Each stage under later data ----

  /** A delimiter that first ends a lead is found exactly when it has arrived whole. */
  lemma {:induction false} LeadFound(lead: string, d: string, tail: string, b: string, z: string)
    requires FirstAt(lead + d, d, |lead|) && b + z == lead + d + tail
    ensures Find(b, d) == if |lead| + |d| <= |b| then Some(|lead|) else None
  {
    if |lead| + |d| <= |b| {
      var more := b[|lead| + |d|..];
      assert b == lead + d + more by {
        assert b[..|lead| + |d|] == (b + z)[..|lead| + |d|] == lead + d;
      }
      FirstStableUnderAppend(lead + d, more, d, |lead|);
      FindIsFirst(b, d, |lead|);
    } else {
      var missing := (lead + d)[|b|..];
      assert b + missing == lead + d by {
        assert b == (b + z)[..|b|] == (lead + d)[..|b|];
      }
      NoneBeforeFirst(b, missing, d, |lead|);
    }
  }

  lemma {:induction false} LeadSearch(lead: string, d: string, tail: string, b: string, z: string)
    requires LeadsTo(lead, d) && b + z == lead + d + tail
    ensures Find(b, d) == (if |lead| + |d| <= |b| then Some(|lead|) else None)
    ensures Find(b, d) == None ==> |b| <= |d| + SLACK
  {
    LeadFound(lead, d, tail, b, z);
  }

  /** An occurrence past a known front is an occurrence in the rest. */
  lemma {:induction false} PastFront(front: string, u: string, needle: string, j: nat)
    requires |front| <= j
    ensures OccursAt(front + u, needle, j) <==> OccursAt(u, needle, j - |front|)
  {
    if j + |needle| <= |front + u| {
      assert (front + u)[j..j + |needle|] == u[j - |front|..j - |front| + |needle|];
    }
  }

  /** A line end in front of a header block makes no blank line with it. */
  lemma {:induction false} NoBlankLineInLead(h: string)
    requires HeadersOk(h)
    ensures forall j :: 0 <= j < 2 ==> !OccursAt(CRLF + (h + BLANK_LINE), BLANK_LINE, j)
                                       && !OccursAt(CRLF + (h + BLANK_LINE), BARE_BLANK_LINE, j)
  {
    var t := CRLF + (h + BLANK_LINE);
    assert t[0] == '\r' && t[1] == '\n' && t[2] == h[0];
    Differs(t, BLANK_LINE, 0, 2);
    Differs(t, BLANK_LINE, 1, 0);
    Differs(t, BARE_BLANK_LINE, 0, 0);
    Differs(t, BARE_BLANK_LINE, 1, 1);
  }

  lemma {:induction false} HeaderTextFacts(h: string, skip: string)
    requires HeadersOk(h) && (skip == "" || skip == CRLF)
    ensures FirstAt(skip + h + BLANK_LINE, BLANK_LINE, |skip| + |h|)
    ensures Absent(skip + h + BLANK_LINE, BARE_BLANK_LINE)
  {
    var u := h + BLANK_LINE;
    Regroup(skip, h, BLANK_LINE);
    NoBlankLineInLead(h);
    PastFront(skip, u, BLANK_LINE, |skip| + |h|);
    forall j | 0 <= j < |skip| + |h| ensures !OccursAt(skip + u, BLANK_LINE, j) {
      if j >= |skip| { PastFront(skip, u, BLANK_LINE, j); }
    }
    forall j ensures !OccursAt(skip + u, BARE_BLANK_LINE, j) {
      if j >= |skip| { PastFront(skip, u, BARE_BLANK_LINE, j); }
    }
  }

  /** The header block is recognised exactly when its blank line has arrived. */
  lemma {:induction false} HeaderSearch(h: string, skip: string, tail: string, b: string, z: string)
    requires HeadersOk(h) && (skip == "" || skip == CRLF)
    requires b + z == skip + h + BLANK_LINE + tail
    ensures HeaderExtent(b) ==
            if |skip| + |h| + 4 <= |b| then Some((|skip| + |h|, |skip| + |h| + 4)) else None
  {
    var t := skip + h + BLANK_LINE;
    HeaderTextFacts(h, skip);
    FirstStableUnderAppend(t, tail, BLANK_LINE, |skip| + |h|);
    assert FirstAt(b + z, BLANK_LINE, |skip| + |h|);
    if |t| <= |b| {
      OccurrenceInPrefix(b, z, BLANK_LINE, |skip| + |h|);
      forall j | 0 <= j < |skip| + |h| ensures !OccursAt(b, BLANK_LINE, j) {
        OccurrenceInPrefix(b, z, BLANK_LINE, j);
      }
      FindIsFirst(b, BLANK_LINE, |skip| + |h|);
    } else {
      NoneBeforeFirst(b, z, BLANK_LINE, |skip| + |h|);
      forall j ensures !OccursAt(b, BARE_BLANK_LINE, j) {
        if OccursAt(b, BARE_BLANK_LINE, j) {
          assert t[j..j + 2] == (b + z)[j..j + 2] == b[j..j + 2];
          assert OccursAt(t, BARE_BLANK_LINE, j);
        }
      }
    }
  }

  /** A line end left over from the delimiter adds nothing to the parsed headers. */
  lemma {:induction false} LeadingLineEndIgnored(h: string, s: HeaderState)
    ensures ParseBlock(CRLF + h, s) == ParseBlock(h, s)
  {
    var t := CRLF + h;
    assert OccursAt(t, "\n", 1);
    Differs(t, "\n", 0, 0);
    FindIsFirst(t, "\n", 1);
    assert t[..1] == "\r" && t[2..] == h;
    assert Find("", ":") == None;
    assert ParseLine("\r", s) == s;
  }

  /**
   What one stage guarantees at a good position: either it waits and changes nothing, or it moves
   to another good position, and with the later bytes already there the loop ends in the same state.
   */
  ghost predicate StageOk(c: Settings, p: Parser, next: Expect, z: string, close: string)
    requires Running(p)
  {
    var o := Step(c, p);
    if o.processed then
      && Good(c.Delimiter(), o.parser, next, z, close)
      && Running(p.Extend(z))
      && Step(c, p.Extend(z)).processed
      && Drive(c, Step(c, p.Extend(z)).parser) == Drive(c, o.parser.Extend(z))
    else o.parser == p
  }

  lemma {:induction false} StageBy(c: Settings, p: Parser, q: Parser, next: Expect, z: string, close: string)
    requires Running(p) && Step(c, p) == Outcome(q, true)
    requires Running(p.Extend(z)) && Step(c, p.Extend(z)) == Outcome(q.Extend(z), true)
    requires Good(c.Delimiter(), q, next, z, close)
    ensures StageOk(c, p, next, z, close)
  {
  }

  /** A leftover line end before the header block makes no difference once the block is complete. */
  lemma {:induction false} SkipMakesNoDifference(c: Settings, p: Parser, q: Parser, parts: seq<Part>, close: string)
    requires parts != [] && PartsOk(c.Delimiter(), parts)
    requires p.phase == Headers && p.buffer == FromHeaders(c.Delimiter(), parts, close)
    requires q == p.(buffer := CRLF + p.buffer)
    ensures Drive(c, p) == Drive(c, q)
  {
    var h, t := parts[0].headers, FromContent(c.Delimiter(), parts, close);
    assert PartOk(c.Delimiter(), parts[0]);
    HeadersThenDrive(c, p, h, "", t);
    HeadersThenDrive(c, q, h, CRLF, t);
    LeadingLineEndIgnored(h, HeaderState(NO_FIELD, p.fieldName));
    assert "" + h == h;
  }

  lemma {:induction false} HeadersThenDrive(c: Settings, p: Parser, h: string, skip: string, tail: string)
    requires p.phase == Headers && HeadersOk(h) && (skip == "" || skip == CRLF)
    requires p.buffer == skip + (h + BLANK_LINE + tail)
    ensures Drive(c, p) == Drive(c, PastHeaders(p, skip + h, tail))
  {
    assert p.buffer + "" == skip + h + BLANK_LINE + tail;
    var rest := HeadersEffect(c, p, h, skip, tail, "");
    assert rest + "" == rest;
    DriveStep(c, p, PastHeaders(p, skip + h, tail));
  }

  /** The state after a delimiter has been removed and `rest` follows it. */
  function PastDelimiter(p: Parser, rest: string): Parser {
    if StartsWith(rest, "--") then p.(buffer := rest, phase := Complete)
    else if StartsWith(rest, CRLF) then p.(buffer := rest[2..], phase := Headers)
    else if StartsWith(rest, "\n") then p.(buffer := rest[1..], phase := Headers)
    else p.(buffer := rest, phase := Headers)
  }

  /** What is left of a buffer after a known front, when later bytes complete it. */
  lemma {:induction false} AfterFront(b: string, z: string, front: string, after: string)
    requires b + z == front + after && |front| <= |b|
    ensures b[..|front|] == front && b[|front|..] + z == after
  {
    assert b[..|front|] == (b + z)[..|front|] == front;
    assert b[|front|..] + z == (b + z)[|front|..] == after;
  }

  lemma {:induction false} BoundaryEffect(c: Settings, p: Parser, lead: string, after: string, z: string) returns (rest: string)
    requires p.phase == Boundary && LeadsTo(lead, c.Delimiter())
    requires p.buffer + z == lead + c.Delimiter() + after
    ensures if |lead| + |c.Delimiter()| <= |p.buffer|
            then rest + z == after && Running(p) && Step(c, p) == Outcome(PastDelimiter(p, rest), true)
            else Running(p) ==> Step(c, p) == Outcome(p, false)
  {
    var d := c.Delimiter();
    LeadSearch(lead, d, after, p.buffer, z);
    var k := |lead| + |d|;
    rest := if k <= |p.buffer| then p.buffer[k..] else "";
    if k <= |p.buffer| { AfterFront(p.buffer, z, lead + d, after); }
  }

  lemma {:induction false} PastCloseDelimiter(p: Parser, rest: string, z: string, close: string)
    requires rest + z == close && StartsWith(close, "--") && CutOk(z, close)
    ensures PastDelimiter(p, rest).phase == Complete
    ensures PastDelimiter(p.Extend(z), rest + z) == PastDelimiter(p, rest).Extend(z)
  {
    assert rest[..2] == (rest + z)[..2] == "--";
  }

  lemma {:induction false} PastPartDelimiter(p: Parser, rest: string, z: string, text: string)
    requires rest + z == CRLF + text
    ensures PastDelimiter(p.Extend(z), rest + z) == p.Extend(z).(buffer := text, phase := Headers)
    ensures |rest| >= 2 ==> PastDelimiter(p, rest) == p.(buffer := rest[2..], phase := Headers) && rest[2..] + z == text
    ensures |rest| < 2 ==> PastDelimiter(p, rest) == p.(buffer := rest, phase := Headers)
  {
    var all := rest + z;
    assert all[..2] == CRLF && all[2..] == text && all[0] == '\r';
    Differs(all, "--", 0, 0);
    if |rest| >= 2 {
      assert rest[..2] == CRLF;
      Differs(rest, "--", 0, 0);
      assert rest[2..] + z == all[2..];
    } else if |rest| == 1 {
      assert rest[0] == all[0];
      Differs(rest, "\n", 0, 0);
    }
  }

  lemma {:induction false} BoundaryStage(c: Settings, p: Parser, e: Expect, z: string, close: string) returns (next: Expect)
    requires e.AtDelimiter? && Good(c.Delimiter(), p, e, z, close) && Running(p)
    requires CutOk(z, close) || e.parts != []
    ensures StageOk(c, p, next, z, close)
  {
    var d := c.Delimiter();
    var after := AfterDelimiter(d, e.parts, close);
    var rest := BoundaryEffect(c, p, e.lead, after, z);
    next := if e.parts == [] then Done else AtHeaders(if |rest| >= 2 then "" else CRLF, e.parts);
    if |e.lead| + |d| <= |p.buffer| {
      assert p.Extend(z).buffer + "" == p.buffer + z;
      var restZ := BoundaryEffect(c, p.Extend(z), e.lead, after, "");
      assert restZ == restZ + "" == rest + z;
      if e.parts == [] {
        PastCloseDelimiter(p, rest, z, close);
      } else {
        var text := FromHeaders(d, e.parts, close);
        PastPartDelimiter(p, rest, z, text);
        var q := PastDelimiter(p.Extend(z), rest + z);
        var waiting := PastDelimiter(p, rest);
        if |rest| >= 2 {
          assert "" + text == text;
          assert q == waiting.Extend(z);
        } else {
          SkipMakesNoDifference(c, q, waiting.Extend(z), e.parts, close);
        }
      }
    }
  }

  /** The state after a header block `block` has been parsed and `rest` follows it. */
  function PastHeaders(p: Parser, block: string, rest: string): Parser {
    var h := ParseBlock(block, HeaderState(NO_FIELD, p.fieldName));
    p.(buffer := rest, current := Some(h.field), fieldName := h.fieldName, fieldSize := 0, phase := Content)
  }

  lemma {:induction false} HeadersEffect(c: Settings, p: Parser, h: string, skip: string, tail: string, z: string) returns (rest: string)
    requires p.phase == Headers && HeadersOk(h) && (skip == "" || skip == CRLF)
    requires p.buffer + z == skip + h + BLANK_LINE + tail
    ensures if |skip| + |h| + 4 <= |p.buffer|
            then rest + z == tail && Running(p) && Step(c, p) == Outcome(PastHeaders(p, skip + h, rest), true)
            else Running(p) ==> Step(c, p) == Outcome(p, false)
  {
    HeaderSearch(h, skip, tail, p.buffer, z);
    var n := |skip| + |h|;
    rest := if n + 4 <= |p.buffer| then p.buffer[n + 4..] else "";
    if n + 4 <= |p.buffer| {
      AfterFront(p.buffer, z, skip + h + BLANK_LINE, tail);
      assert p.buffer[..n] == p.buffer[..n + 4][..n] == skip + h;
    }
  }

  lemma {:induction false} HeadersStage(c: Settings, p: Parser, e: Expect, z: string, close: string) returns (next: Expect)
    requires e.AtHeaders? && Good(c.Delimiter(), p, e, z, close) && Running(p)
    ensures StageOk(c, p, next, z, close)
  {
    var d := c.Delimiter();
    var h, tail := e.parts[0].headers, FromContent(d, e.parts, close);
    assert PartOk(d, e.parts[0]);
    assert p.buffer + z == e.skip + h + BLANK_LINE + tail by {
      assert e.skip + (h + BLANK_LINE + tail) == e.skip + h + BLANK_LINE + tail;
    }
    var rest := HeadersEffect(c, p, h, e.skip, tail, z);
    next := AtContent(e.parts);
    if |e.skip| + |h| + 4 <= |p.buffer| {
      assert p.Extend(z).buffer + "" == p.buffer + z;
      var restZ := HeadersEffect(c, p.Extend(z), h, e.skip, tail, "");
      assert restZ == restZ + "" == rest + z;
      var q := PastHeaders(p, e.skip + h, rest);
      assert q.Extend(z) == PastHeaders(p.Extend(z), e.skip + h, restZ);
      StageBy(c, p, q, next, z, close);
    }
  }

  /** The state after content ending at a delimiter; `rest` starts with the delimiter. */
  function PastContent(c: Settings, p: Parser, lead: string, rest: string): Parser {
    var end := ContentEnd(lead);
    var written := if end > 0 then WriteContent(c, p, end) else p;
    Finalize(written.(buffer := rest)).(phase := Boundary)
  }

  lemma {:induction false} PastContentExtends(c: Settings, p: Parser, lead: string, rest: string, z: string)
    ensures PastContent(c, p.Extend(z), lead, rest + z) == PastContent(c, p, lead, rest).Extend(z)
    ensures PastContent(c, p, lead, rest).phase == Boundary
    ensures PastContent(c, p, lead, rest).buffer == rest
  {
  }

  lemma {:induction false} GoodAtDelimiter(d: string, q: Parser, parts: seq<Part>, z: string, close: string)
    requires PartsOk(d, parts) && q.phase == Boundary && StartsWith(close, "--")
    requires q.buffer + z == d + AfterDelimiter(d, parts, close)
    ensures Good(d, q, AtDelimiter("", parts), z, close)
  {
    assert ("" + d)[0..|d|] == d;
    assert "" + d + AfterDelimiter(d, parts, close) == d + AfterDelimiter(d, parts, close);
  }

  lemma {:induction false} ContentEffect(c: Settings, p: Parser, lead: string, after: string, z: string) returns (rest: string)
    requires p.phase == Content && LeadsTo(lead, c.Delimiter())
    requires p.buffer + z == lead + c.Delimiter() + after
    ensures if |lead| + |c.Delimiter()| <= |p.buffer|
            then rest + z == c.Delimiter() + after && Running(p) && Step(c, p) == Outcome(PastContent(c, p, lead, rest), true)
            else Running(p) ==> Step(c, p) == Outcome(p, false)
  {
    var d := c.Delimiter();
    LeadSearch(lead, d, after, p.buffer, z);
    rest := if |lead| + |d| <= |p.buffer| then p.buffer[|lead|..] else "";
    if |lead| + |d| <= |p.buffer| {
      assert lead + d + after == lead + (d + after);
      AfterFront(p.buffer, z, lead, d + after);
    }
  }

  lemma {:induction false} ContentStage(c: Settings, p: Parser, e: Expect, z: string, close: string) returns (next: Expect)
    requires e.AtContent? && Good(c.Delimiter(), p, e, z, close) && Running(p)
    ensures StageOk(c, p, next, z, close)
  {
    var d := c.Delimiter();
    var lead, after := e.parts[0].content + CRLF, AfterDelimiter(d, e.parts[1..], close);
    assert PartOk(d, e.parts[0]);
    assert p.buffer + z == lead + d + after;
    var rest := ContentEffect(c, p, lead, after, z);
    next := AtDelimiter("", e.parts[1..]);
    if |lead| + |d| <= |p.buffer| {
      assert p.Extend(z).buffer + "" == p.buffer + z;
      var restZ := ContentEffect(c, p.Extend(z), lead, after, "");
      assert restZ == restZ + "" == rest + z;
      var q := PastContent(c, p, lead, rest);
      PastContentExtends(c, p, lead, rest, z);
      GoodAtDelimiter(d, q, e.parts[1..], z, close);
      StageBy(c, p, q, next, z, close);
    }
  }

  lemma {:induction false} StageAtGoodPosition(c: Settings, p: Parser, e: Expect, z: string, close: string) returns (next: Expect)
    requires Good(c.Delimiter(), p, e, z, close) && Running(p) && CutOk(z, close)
    ensures StageOk(c, p, next, z, close)
  {
    match e
    case AtDelimiter(_, _) => next := BoundaryStage(c, p, e, z, close);
    case AtHeaders(_, _) => next := HeadersStage(c, p, e, z, close);
    case AtContent(_) => next := ContentStage(c, p, e, z, close);
  }

  // ---- Cutting a body ----

  /** Feeding up to a harmless cut and then the rest is feeding everything at once. */
  lemma {:induction false} OneCut(c: Settings, p: Parser, e: Expect, z: string, close: string) returns (next: Expect)
    requires Good(c.Delimiter(), p, e, z, close) && CutOk(z, close)
    ensures Drive(c, Drive(c, p).Extend(z)) == Drive(c, p.Extend(z))
    ensures Good(c.Delimiter(), Drive(c, p), next, z, close)
    decreases |p.buffer|, ContentRank(p)
  {
    next := e;
    if Running(p) {
      var o := Step(c, p);
      var mid := StageAtGoodPosition(c, p, e, z, close);
      if o.processed {
        StepDecreases(c, p);
        next := OneCut(c, o.parser, mid, z, close);
      }
    }
  }

  /** No chunk boundary falls before or between the two closing dashes. */
  ghost predicate CutsOk(chunks: seq<string>, close: string) {
    forall k :: 0 < k < |chunks| ==> CutOk(Concat(chunks[k..]), close)
  }

  /** Feeding the first chunk uses up its part of the stream. */
  lemma {:induction false} FirstChunk(d: string, p: Parser, e: Expect, chunks: seq<string>, close: string)
    requires chunks != [] && Good(d, p, e, Concat(chunks), close)
    ensures Good(d, p.Extend(chunks[0]), e, Concat(chunks[1..]), close)
    ensures p.Extend(chunks[0]).Extend(Concat(chunks[1..])) == p.Extend(Concat(chunks))
  {
    var x, z := chunks[0], Concat(chunks[1..]);
    assert Concat(chunks) == x + z;
    assert p.buffer + (x + z) == p.buffer + x + z;
  }

  lemma {:induction false} CutsOkTail(chunks: seq<string>, close: string)
    requires |chunks| > 1
    ensures CutsOk(chunks, close) <==> CutOk(Concat(chunks[1..]), close) && CutsOk(chunks[1..], close)
  {
    var rest := chunks[1..];
    assert forall k :: 0 < k < |rest| ==> rest[k..] == chunks[k + 1..];
    if CutOk(Concat(rest), close) && CutsOk(rest, close) {
      forall k | 0 < k < |chunks| ensures CutOk(Concat(chunks[k..]), close) {
        if k > 1 { assert rest[k - 1..] == chunks[k..]; }
      }
    }
  }

  lemma {:induction false} Chunked(c: Settings, p: Parser, e: Expect, chunks: seq<string>, close: string)
    requires chunks != [] && CutsOk(chunks, close)
    requires Good(c.Delimiter(), p, e, Concat(chunks), close)
    ensures FeedAll(c, p, chunks) == Feed(c, p, Concat(chunks))
    decreases |chunks|
  {
    FirstChunk(c.Delimiter(), p, e, chunks, close);
    if |chunks| > 1 {
      CutsOkTail(chunks, close);
      var next := OneCut(c, p.Extend(chunks[0]), e, Concat(chunks[1..]), close);
      Chunked(c, Feed(c, p, chunks[0]), next, chunks[1..], close);
    } else {
      assert Concat(chunks) == chunks[0];
    }
  }

  lemma {:induction false} FreshIsGood(d: string, b: Body)
    requires WellFormed(d, b)
    ensures Good(d, Fresh(), AtDelimiter(b.preamble, b.parts), Render(d, b), CloseMark(b))
  {
    assert Fresh().buffer + Render(d, b) == Render(d, b);
  }

  /** Chunk independence: a well-formed body fed with harmless cuts is parsed as if fed at once. */
  lemma {:induction false} ChunkIndependence(c: Settings, b: Body, chunks: seq<string>)
    requires WellFormed(c.Delimiter(), b)
    requires Concat(chunks) == Render(c.Delimiter(), b)
    requires CutsOk(chunks, CloseMark(b))
    ensures FeedAll(c, Fresh(), chunks) == Feed(c, Fresh(), Render(c.Delimiter(), b))
  {
    FreshIsGood(c.Delimiter(), b);
    Chunked(c, Fresh(), AtDelimiter(b.preamble, b.parts), chunks, CloseMark(b));
  }

  // ---- What a body is parsed to ----

  /** The field a header block describes. */
  function FieldOf(headers: string): Field {
    ParseBlock(headers, HeaderState(NO_FIELD, "")).field
  }

  function FieldsOf(parts: seq<Part>): seq<Field> {
    seq(|parts|, i requires 0 <= i < |parts| => FieldOf(parts[i].headers))
  }

  lemma {:induction false} FieldIgnoresLastName(block: string, f: Field, n: string, m: string)
    ensures ParseBlock(block, HeaderState(f, n)).field == ParseBlock(block, HeaderState(f, m)).field
    decreases |block|
  {
    if block != "" && Find(block, "\n").Some? {
      var lf := Find(block, "\n").value;
      var a, b := ParseLine(block[..lf], HeaderState(f, n)), ParseLine(block[..lf], HeaderState(f, m));
      assert a.field == b.field;
      FieldIgnoresLastName(block[lf + 1..], a.field, a.fieldName, b.fieldName);
    }
  }

  lemma {:induction false} DriveStep(c: Settings, p: Parser, q: Parser)
    requires Running(p) && Step(c, p) == Outcome(q, true)
    ensures Drive(c, p) == Drive(c, q)
  {
  }

  lemma {:induction false} ToHeaders(c: Settings, p: Parser, lead: string, text: string)
    requires p.phase == Boundary && LeadsTo(lead, c.Delimiter())
    requires p.buffer == lead + c.Delimiter() + (CRLF + text)
    ensures Drive(c, p) == Drive(c, p.(buffer := text, phase := Headers))
  {
    assert p.buffer + "" == p.buffer;
    var rest := BoundaryEffect(c, p, lead, CRLF + text, "");
    PastPartDelimiter(p, rest, "", text);
    assert rest[2..] + "" == rest[2..];
    DriveStep(c, p, p.(buffer := text, phase := Headers));
  }

  lemma {:induction false} ToContent(c: Settings, p: Parser, h: string, tail: string) returns (q: Parser)
    requires p.phase == Headers && HeadersOk(h) && p.buffer == h + BLANK_LINE + tail
    ensures q == p.(buffer := tail, phase := Content, current := Some(FieldOf(h)),
                    fieldName := q.fieldName, fieldSize := 0)
    ensures Drive(c, p) == Drive(c, q)
  {
    assert p.buffer + "" == "" + h + BLANK_LINE + tail;
    var rest := HeadersEffect(c, p, h, "", tail, "");
    assert "" + h == h && rest + "" == rest;
    FieldIgnoresLastName(h, NO_FIELD, p.fieldName, "");
    q := PastHeaders(p, h, tail);
    DriveStep(c, p, q);
  }

  lemma {:induction false} ToDelimiter(c: Settings, p: Parser, lead: string, after: string) returns (q: Parser)
    requires p.phase == Content && p.current.Some? && LeadsTo(lead, c.Delimiter())
    requires p.buffer == lead + c.Delimiter() + after
    ensures q.phase == Boundary && q.bytes == p.bytes && q.current == None
    ensures q.buffer == c.Delimiter() + after
    ensures q.result == p.result + [p.current.value] && q.fieldSize == p.fieldSize + ContentEnd(lead)
    ensures Drive(c, p) == Drive(c, q)
  {
    assert p.buffer + "" == p.buffer;
    var rest := ContentEffect(c, p, lead, after, "");
    assert rest + "" == rest;
    q := PastContent(c, p, lead, rest);
    DriveStep(c, p, q);
  }

  /** One part: from just before its delimiter to just before the next one. */
  lemma {:induction false} OnePart(c: Settings, p: Parser, lead: string, part: Part, after: string) returns (q: Parser)
    requires p.phase == Boundary && LeadsTo(lead, c.Delimiter()) && PartOk(c.Delimiter(), part)
    requires p.buffer == lead + c.Delimiter() + (CRLF + (part.headers + BLANK_LINE + (part.content + CRLF + c.Delimiter() + after)))
    ensures q.phase == Boundary && q.bytes == p.bytes && q.current == None
    ensures q.buffer == c.Delimiter() + after
    ensures q.result == p.result + [FieldOf(part.headers)] && q.fieldSize == ContentEnd(part.content + CRLF)
    ensures Drive(c, p) == Drive(c, q)
  {
    var tail := part.content + CRLF + c.Delimiter() + after;
    var text := part.headers + BLANK_LINE + tail;
    ToHeaders(c, p, lead, text);
    var p1 := p.(buffer := text, phase := Headers);
    var p2 := ToContent(c, p1, part.headers, tail);
    q := ToDelimiter(c, p2, part.content + CRLF, after);
  }

  lemma {:induction false} UnfoldPart(d: string, parts: seq<Part>, close: string)
    requires parts != []
    ensures AfterDelimiter(d, parts, close) ==
            CRLF + (parts[0].headers + BLANK_LINE +
                    (parts[0].content + CRLF + d + AfterDelimiter(d, parts[1..], close)))
  {
    assert FromContent(d, parts, close) == parts[0].content + CRLF + d + AfterDelimiter(d, parts[1..], close);
    assert FromHeaders(d, parts, close) == parts[0].headers + BLANK_LINE + FromContent(d, parts, close);
    assert AfterDelimiter(d, parts, close) == CRLF + FromHeaders(d, parts, close);
  }

  lemma {:induction false} FieldsOfCons(before: seq<Field>, parts: seq<Part>)
    requires parts != []
    ensures before + [FieldOf(parts[0].headers)] + FieldsOf(parts[1..]) == before + FieldsOf(parts)
  {
  }

  lemma {:induction false} EmptyLead(d: string, after: string)
    ensures LeadsTo("", d) && "" + d + after == d + after
  {
    assert ("" + d)[0..|d|] == d;
  }

  /** All parts: up to the last delimiter. */
  lemma {:induction false} AllParts(c: Settings, p: Parser, lead: string, parts: seq<Part>, close: string)
    returns (q: Parser, last: string)
    requires p.phase == Boundary && LeadsTo(lead, c.Delimiter()) && PartsOk(c.Delimiter(), parts)
    requires p.buffer == lead + c.Delimiter() + AfterDelimiter(c.Delimiter(), parts, close)
    ensures q.phase == Boundary && q.bytes == p.bytes && (p.current == None ==> q.current == None)
    ensures LeadsTo(last, c.Delimiter()) && q.buffer == last + c.Delimiter() + close
    ensures q.result == p.result + FieldsOf(parts)
    ensures Drive(c, p) == Drive(c, q)
    decreases |parts|
  {
    if parts == [] {
      q, last := p, lead;
    } else {
      var d := c.Delimiter();
      assert PartOk(d, parts[0]);
      var after := AfterDelimiter(d, parts[1..], close);
      UnfoldPart(d, parts, close);
      var r := OnePart(c, p, lead, parts[0], after);
      EmptyLead(d, after);
      q, last := AllParts(c, r, "", parts[1..], close);
      FieldsOfCons(p.result, parts);
    }
  }

  /** A well-formed body fed at once completes with one field per part, in order. */
  lemma {:induction false} BodyIsParsed(c: Settings, b: Body)
    requires WellFormed(c.Delimiter(), b)
    ensures var p := Feed(c, Fresh(), Render(c.Delimiter(), b));
            && p.phase == Complete
            && p.result == FieldsOf(b.parts)
            && p.current == None
            && p.buffer == CloseMark(b)
            && p.bytes == |Render(c.Delimiter(), b)|
  {
    var p := Fresh().Extend(Render(c.Delimiter(), b));
    var close := CloseMark(b);
    assert p.buffer == Render(c.Delimiter(), b);
    var q, last := AllParts(c, p, b.preamble, b.parts, close);
    var rest := BoundaryEffect(c, q, last, close, "");
    assert rest == close;
    assert close[..2] == "--";
    assert Drive(c, q) == PastDelimiter(q, close);
  }

  // ---- Cuts that change the parse ----

  lemma {:induction false} CloseIsInside(d: string, parts: seq<Part>, close: string)
    ensures |AfterDelimiter(d, parts, close)| >= |close|
    ensures parts != [] ==> |FromContent(d, parts, close)| >= |close| + 2 + |d|
    decreases |parts|
  {
    if parts != [] {
      CloseIsInside(d, parts[1..], close);
      assert AfterDelimiter(d, parts, close) == CRLF + FromHeaders(d, parts, close);
    }
  }

  /** No blank line of either kind. */
  ghost predicate NoBlankLine(s: string) {
    Absent(s, BLANK_LINE) && Absent(s, BARE_BLANK_LINE)
  }

  lemma {:induction false} NoBlankLineInPrefix(s: string, t: string)
    requires NoBlankLine(s + t)
    ensures NoBlankLine(s) && HeaderExtent(s) == None
  {
    forall j ensures !OccursAt(s, BLANK_LINE, j) && !OccursAt(s, BARE_BLANK_LINE, j) {
      if 0 <= j && j + 4 <= |s| { OccurrenceInPrefix(s, t, BLANK_LINE, j); }
      if 0 <= j && j + 2 <= |s| { OccurrenceInPrefix(s, t, BARE_BLANK_LINE, j); }
    }
  }

  /**
   Cut just before or between the closing dashes: the parser starts looking for headers instead,
   with all the fields of the body already in its result.
   */
  lemma {:induction false} BadCut(c: Settings, p: Parser, e: Expect, z: string, close: string)
    requires Good(c.Delimiter(), p, e, z, close) && !CutOk(z, close)
    ensures Drive(c, p).phase == Headers && Drive(c, p).buffer + z == close
    ensures Drive(c, p.Extend(z)).result == Drive(c, p).result
    decreases |p.buffer|, ContentRank(p)
  {
    var d := c.Delimiter();
    match e {
      case AtDelimiter(lead, parts) =>
        CloseIsInside(d, parts, close);
        if parts == [] {
          BadCutAtClose(c, p, lead, z, close);
        } else {
          var rest := BoundaryEffect(c, p, lead, AfterDelimiter(d, parts, close), z);
          var next := BoundaryStage(c, p, e, z, close);
          StepDecreases(c, p);
          BadCut(c, PastDelimiter(p, rest), next, z, close);
        }
      case AtHeaders(skip, parts) =>
        var h, tail := parts[0].headers, FromContent(d, parts, close);
        assert PartOk(d, parts[0]);
        CloseIsInside(d, parts, close);
        assert p.buffer + z == skip + h + BLANK_LINE + tail;
        var rest := HeadersEffect(c, p, h, skip, tail, z);
        var next := HeadersStage(c, p, e, z, close);
        StepDecreases(c, p);
        BadCut(c, PastHeaders(p, skip + h, rest), next, z, close);
      case AtContent(parts) =>
        var lead, after := parts[0].content + CRLF, AfterDelimiter(d, parts[1..], close);
        assert PartOk(d, parts[0]);
        CloseIsInside(d, parts[1..], close);
        var rest := ContentEffect(c, p, lead, after, z);
        var next := ContentStage(c, p, e, z, close);
        StepDecreases(c, p);
        BadCut(c, PastContent(c, p, lead, rest), next, z, close);
    }
  }

  lemma {:induction false} BadCutAtClose(c: Settings, p: Parser, lead: string, z: string, close: string)
    requires Good(c.Delimiter(), p, AtDelimiter(lead, []), z, close) && !CutOk(z, close)
    ensures Drive(c, p).phase == Headers && Drive(c, p).buffer + z == close
    ensures Drive(c, p.Extend(z)).result == Drive(c, p).result
  {
    var rest := BoundaryEffect(c, p, lead, close, z);
    assert |rest| <= 1;
    assert |rest| == 1 ==> rest[0] == close[..2][0] == '-';
    var q := PastDelimiter(p, rest);
    DriveStep(c, p, q);
    assert Drive(c, q) == p.(buffer := rest, phase := Headers);
    assert p.Extend(z).buffer + "" == p.buffer + z;
    var all := BoundaryEffect(c, p.Extend(z), lead, close, "");
    assert all == all + "" == close;
    DriveStep(c, p.Extend(z), PastDelimiter(p.Extend(z), close));
  }

  /**
   A parser that has left the body: it can complete only after another field has been added to the
   `n` that the body has.
   */
  ghost predicate Astray(p: Parser, n: nat) {
    && |p.result| >= n
    && (|p.result| > n || p.phase == Headers || p.phase == Error || (p.phase == Content && p.current.Some?))
  }

  lemma {:induction false} StepStaysAstray(c: Settings, p: Parser, n: nat)
    requires Running(p) && Astray(p, n)
    ensures Astray(Step(c, p).parser, n)
  {
  }

  lemma {:induction false} DriveStaysAstray(c: Settings, p: Parser, n: nat)
    requires Astray(p, n)
    ensures Astray(Drive(c, p), n)
    decreases |p.buffer|, ContentRank(p)
  {
    if Running(p) {
      StepStaysAstray(c, p, n);
      if Step(c, p).processed {
        StepDecreases(c, p);
        DriveStaysAstray(c, Step(c, p).parser, n);
      }
    }
  }

  lemma {:induction false} FeedsStayAstray(c: Settings, p: Parser, n: nat, chunks: seq<string>)
    requires Astray(p, n)
    ensures Astray(FeedAll(c, p, chunks), n)
    decreases |chunks|
  {
    if chunks != [] {
      DriveStaysAstray(c, p.Extend(chunks[0]), n);
      FeedsStayAstray(c, Feed(c, p, chunks[0]), n, chunks[1..]);
    }
  }

  lemma {:induction false} ChunkedWithBadCut(c: Settings, p: Parser, e: Expect, chunks: seq<string>, close: string)
    requires Good(c.Delimiter(), p, e, Concat(chunks), close) && !CutsOk(chunks, close)
    ensures Astray(FeedAll(c, p, chunks), |Feed(c, p, Concat(chunks)).result|)
    ensures NoBlankLine(close) ==> FeedAll(c, p, chunks).phase == Headers
    decreases |chunks|
  {
    var z := Concat(chunks[1..]);
    FirstChunk(c.Delimiter(), p, e, chunks, close);
    CutsOkTail(chunks, close);
    if CutOk(z, close) {
      var next := OneCut(c, p.Extend(chunks[0]), e, z, close);
      ChunkedWithBadCut(c, Feed(c, p, chunks[0]), next, chunks[1..], close);
    } else {
      var q := Feed(c, p, chunks[0]);
      BadCut(c, p.Extend(chunks[0]), e, z, close);
      FeedsStayAstray(c, q, |q.result|, chunks[1..]);
      if NoBlankLine(close) { StaysInHeaders(c, q, chunks[1..]); }
    }
  }

  /** Waiting for headers that never come. */
  lemma {:induction false} StaysInHeaders(c: Settings, p: Parser, chunks: seq<string>)
    requires p.phase == Headers && NoBlankLine(p.buffer + Concat(chunks))
    ensures FeedAll(c, p, chunks).phase == Headers
    decreases |chunks|
  {
    if chunks != [] {
      var q := p.Extend(chunks[0]);
      assert p.buffer + Concat(chunks) == q.buffer + Concat(chunks[1..]);
      NoBlankLineInPrefix(q.buffer, Concat(chunks[1..]));
      assert Drive(c, q) == q;
      StaysInHeaders(c, q, chunks[1..]);
    }
  }

  /**
   Exactly which chunkings are harmless: chunked and whole feeds agree if and only if no chunk ends
   just before or between the two closing dashes. Otherwise the parser does not complete, or has
   one field too many.
   */
  lemma {:induction false} HarmlessCutsExactly(c: Settings, b: Body, chunks: seq<string>)
    requires WellFormed(c.Delimiter(), b)
    requires Concat(chunks) == Render(c.Delimiter(), b)
    ensures FeedAll(c, Fresh(), chunks) == Feed(c, Fresh(), Render(c.Delimiter(), b))
            <==> CutsOk(chunks, CloseMark(b))
    ensures !CutsOk(chunks, CloseMark(b)) ==>
              var p := FeedAll(c, Fresh(), chunks); p.phase != Complete || |p.result| > |b.parts|
  {
    BodyIsParsed(c, b);
    if CutsOk(chunks, CloseMark(b)) {
      ChunkIndependence(c, b, chunks);
    } else {
      FreshIsGood(c.Delimiter(), b);
      ChunkedWithBadCut(c, Fresh(), AtDelimiter(b.preamble, b.parts), chunks, CloseMark(b));
    }
  }

  /** When the epilogue holds no blank line, a harmful cut leaves the parser waiting for headers. */
  lemma {:induction false} HarmfulCutWaits(c: Settings, b: Body, chunks: seq<string>)
    requires WellFormed(c.Delimiter(), b) && NoBlankLine(CloseMark(b))
    requires Concat(chunks) == Render(c.Delimiter(), b) && !CutsOk(chunks, CloseMark(b))
    ensures FeedAll(c, Fresh(), chunks).phase == Headers
  {
    FreshIsGood(c.Delimiter(), b);
    ChunkedWithBadCut(c, Fresh(), AtDelimiter(b.preamble, b.parts), chunks, CloseMark(b));
  }

  /** Content and its delimiter, fed in two pieces, end as when fed at once, wherever the cut is. */
  ghost predicate AnyCutHarmless(c: Settings, p: Parser, s: string) {
    forall k :: 0 <= k <= |s| ==> Feed(c, Feed(c, p, s[..k]), s[k..]) == Feed(c, p, s)
  }

  lemma {:induction false} ShortContentCut(c: Settings, p: Parser, lead: string, k: nat)
    requires p.phase == Content && p.buffer == "" && LeadsTo(lead, c.Delimiter()) && k <= |lead + c.Delimiter()|
    ensures var s := lead + c.Delimiter(); Feed(c, Feed(c, p, s[..k]), s[k..]) == Feed(c, p, s)
  {
    var d, s := c.Delimiter(), lead + c.Delimiter();
    var q := p.Extend(s[..k]);
    assert q.buffer == s[..k] && s[..k] + s[k..] == s;
    if k < |s| {
      assert q.buffer + s[k..] == lead + d + "";
      var rest := ContentEffect(c, q, lead, "", s[k..]);
      assert Drive(c, q) == q;
      assert q.Extend(s[k..]) == p.Extend(s);
    } else {
      assert s[..k] == s && s[k..] == "";
      DelimiterReached(c, p, lead);
    }
  }

  /** Content and its delimiter, fed at once: the headers of the next part are expected. */
  lemma {:induction false} DelimiterReached(c: Settings, p: Parser, lead: string)
    requires p.phase == Content && p.buffer == "" && FirstAt(lead + c.Delimiter(), c.Delimiter(), |lead|)
    ensures var q := Feed(c, p, lead + c.Delimiter()); q.phase == Headers && q.buffer == "" && Feed(c, q, "") == q
  {
    var d := c.Delimiter();
    var r := p.Extend(lead + d);
    assert r.buffer == lead + d && r.buffer[|lead|..] == d && r.buffer[..|lead|] == lead;
    FindIsFirst(r.buffer, d, |lead|);
    var r1 := PastContent(c, r, lead, d);
    DriveStep(c, r, r1);
    assert d[0..|d|] == d;
    FindIsFirst(d, d, 0);
    DriveStep(c, r1, PastDelimiter(r1, ""));
    var q := PastDelimiter(r1, "");
    assert q.Extend("") == q;
  }

  /** A single byte is no delimiter. */
  lemma {:induction false} LastByteAlone(c: Settings, q: Parser, y: string)
    requires q.buffer == "" && (q.phase == Content || q.phase == Error) && |y| == 1
    ensures Feed(c, q, y).phase != Headers
  {
    assert q.Extend(y).buffer == y;
    assert Find(y, c.Delimiter()) == None;
  }

  /** Exactly when content can be cut anywhere up to the end of its delimiter: up to 101 bytes. */
  lemma {:induction false} AnyCutHarmlessExactly(c: Settings, p: Parser, lead: string)
    requires p.phase == Content && p.buffer == "" && FirstAt(lead + c.Delimiter(), c.Delimiter(), |lead|)
    ensures AnyCutHarmless(c, p, lead + c.Delimiter()) <==> |lead| <= 101
  {
    var d, s := c.Delimiter(), lead + c.Delimiter();
    if |lead| <= SLACK + 1 {
      forall k | 0 <= k <= |s| ensures Feed(c, Feed(c, p, s[..k]), s[k..]) == Feed(c, p, s) {
        ShortContentCut(c, p, lead, k);
      }
    } else {
      var k := |s| - 1;
      assert s[..k] == lead + d[..|d| - 1] && |s[k..]| == 1;
      DelimiterStartDropped(c, p, lead);
      LastByteAlone(c, Feed(c, p, s[..k]), s[k..]);
      DelimiterReached(c, p, lead);
    }
  }

  /**
   In particular, with a longer lead before the last delimiter, a cut inside that delimiter makes
   the parser drop its first bytes, and the parse does not complete.
   */
  lemma {:induction false} LongContentLosesDelimiter(c: Settings, p: Parser, lead: string, close: string)
    requires p.phase == Content && p.buffer == "" && p.current.Some?
    requires |lead| > SLACK + 1 && FirstAt(lead + c.Delimiter(), c.Delimiter(), |lead|)
    requires StartsWith(close, "--")
    requires var d := c.Delimiter(); Absent(d[|d| - 1..] + close, d)
    ensures var d := c.Delimiter();
            && FeedAll(c, p, [lead + d[..|d| - 1], d[|d| - 1..] + close]).phase != Complete
            && Feed(c, p, lead + d + close).phase == Complete
  {
    var d := c.Delimiter();
    var x, y := lead + d[..|d| - 1], d[|d| - 1..] + close;
    DelimiterStartDropped(c, p, lead);
    var q := Feed(c, p, x);
    LateBytesIgnored(c, q, y);
    assert FeedAll(c, p, [x, y]) == FeedAll(c, q, [y]) == Feed(c, q, y) by {
      assert [x, y][1..] == [y] && [y][1..] == [];
    }
    WholeContentCompletes(c, p, lead, close);
  }

  lemma {:induction false} DelimiterStartDropped(c: Settings, p: Parser, lead: string)
    requires p.phase == Content && p.buffer == ""
    requires |lead| > SLACK + 1 && FirstAt(lead + c.Delimiter(), c.Delimiter(), |lead|)
    ensures var d := c.Delimiter();
            var q := Feed(c, p, lead + d[..|d| - 1]);
            q.buffer == "" && (q.phase == Content || q.phase == Error)
  {
    var d := c.Delimiter();
    var x := lead + d[..|d| - 1];
    assert p.Extend(x).buffer == x;
    LastByteMissing(lead, d);
    LongUnmatchedDropped(c, p.Extend(x));
  }

  lemma {:induction false} LastByteMissing(lead: string, d: string)
    requires d != "" && FirstAt(lead + d, d, |lead|)
    ensures Find(lead + d[..|d| - 1], d) == None
  {
    var x := lead + d[..|d| - 1];
    assert x + d[|d| - 1..] == lead + d;
    NoneBeforeFirst(x, d[|d| - 1..], d, |lead|);
  }

  lemma {:induction false} LongUnmatchedDropped(c: Settings, p: Parser)
    requires p.phase == Content && Find(p.buffer, c.Delimiter()) == None
    requires |p.buffer| > |c.Delimiter()| + SLACK
    ensures Drive(c, p).buffer == "" && (Drive(c, p).phase == Content || Drive(c, p).phase == Error)
  {
    assert !ProcessContent(c, p).processed;
  }

  lemma {:induction false} LateBytesIgnored(c: Settings, q: Parser, y: string)
    requires q.buffer == "" && (q.phase == Content || q.phase == Error) && Absent(y, c.Delimiter())
    ensures Feed(c, q, y).phase != Complete
  {
    assert q.Extend(y).buffer == y;
    assert Find(y, c.Delimiter()) == None;
  }

  lemma {:induction false} WholeContentCompletes(c: Settings, p: Parser, lead: string, close: string)
    requires p.phase == Content && p.buffer == "" && StartsWith(close, "--")
    requires FirstAt(lead + c.Delimiter(), c.Delimiter(), |lead|)
    ensures Feed(c, p, lead + c.Delimiter() + close).phase == Complete
  {
    var d := c.Delimiter();
    var r := p.Extend(lead + d + close);
    assert r.buffer == lead + d + close;
    FirstStableUnderAppend(lead + d, close, d, |lead|);
    FindIsFirst(r.buffer, d, |lead|);
    assert r.buffer[|lead|..] == d + close && r.buffer[..|lead|] == lead;
    var r1 := PastContent(c, r, lead, d + close);
    DriveStep(c, r, r1);
    assert (d + close)[0..|d|] == d;
    FindIsFirst(d + close, d, 0);
    assert (d + close)[|d|..] == close;
    DriveStep(c, r1, PastDelimiter(r1, close));
  }

  // ---- Bare line feeds ----

  /** A delimiter may be ended by a bare line feed. */
  lemma {:induction false} BareLineFeedEndsDelimiter(c: Settings, p: Parser, lead: string, text: string)
    requires p.phase == Boundary && LeadsTo(lead, c.Delimiter()) && p.buffer == lead + c.Delimiter() + ("\n" + text)
    ensures Drive(c, p) == Drive(c, p.(buffer := text, phase := Headers))
  {
    var all := "\n" + text;
    var rest := BoundaryEffect(c, p, lead, all, "");
    assert rest == rest + "" == all;
    assert all[1..] == text && all[..1] == "\n";
    Differs(all, "--", 0, 0);
    Differs(all, CRLF, 0, 0);
    DriveStep(c, p, PastDelimiter(p, all));
  }

  /**
   Header lines ended by a bare blank line lose their last two bytes: the code allows for four
   bytes of blank line where there are two.
   */
  lemma {:induction false} BareBlankLineLosesTwoBytes(c: Settings, p: Parser, h: string, tail: string)
    requires p.phase == Headers && |h| >= 2 && p.buffer == h + "\n\n" + tail
    requires Absent(p.buffer, "\r\n\r\n") && FirstAt(p.buffer, "\n\n", |h|)
    ensures var read := ParseBlock(h[..|h| - 2], HeaderState(NO_FIELD, p.fieldName));
            Drive(c, p) == Drive(c, p.(buffer := tail, current := Some(read.field), fieldName := read.fieldName,
                                       fieldSize := 0, phase := Content))
  {
    assert Find(p.buffer, BLANK_LINE) == None;
    FindIsFirst(p.buffer, BARE_BLANK_LINE, |h|);
    assert p.buffer[..|h| - 2] == h[..|h| - 2] && p.buffer[|h| + 2..] == tail;
    var read := ParseBlock(h[..|h| - 2], HeaderState(NO_FIELD, p.fieldName));
    DriveStep(c, p, p.(buffer := tail, current := Some(read.field), fieldName := read.fieldName, fieldSize := 0, phase := Content));
  }

  // ---- Bodies as RFC 2046 writes them ----

  /** The delimiter is two dashes and the boundary, and a part is written as section 5.1.1 of RFC 2046 has it. */
  lemma {:induction false} RenderedPart(c: Settings, preamble: string, part: Part, epilogue: string)
    ensures Render(c.Delimiter(), Body(preamble, [part], epilogue)) ==
            preamble + "--" + c.boundary + "\r\n" + part.headers + "\r\n\r\n" + part.content + "\r\n--" + c.boundary + "--" + epilogue
  {
    var d, close := c.Delimiter(), "--" + epilogue;
    assert [part][1..] == [] && AfterDelimiter(d, [], close) == close;
    UnfoldPart(d, [part], close);
    var sent := part.content + CRLF + d + close;
    assert AfterDelimiter(d, [part], close) == CRLF + (part.headers + BLANK_LINE + sent);
    assert CRLF + d == "\r\n--" + c.boundary;
    assert sent == part.content + "\r\n--" + c.boundary + "--" + epilogue;
  }

  ghost predicate LineOk(line: string) {
    line != "" && forall i :: 0 <= i < |line| ==> line[i] != '\r' && line[i] != '\n'
  }

  function JoinLines(lines: seq<string>): string
    requires lines != []
  {
    if |lines| == 1 then lines[0] else lines[0] + CRLF + JoinLines(lines[1..])
  }

  lemma {:induction false} HeaderLinesOk(lines: seq<string>)
    requires lines != [] && forall i :: 0 <= i < |lines| ==> LineOk(lines[i])
    ensures HeadersOk(JoinLines(lines))
    decreases |lines|
  {
    assert LineOk(lines[0]);
    if |lines| == 1 {
      assert lines[0] + BLANK_LINE == lines[0] + CRLF + CRLF;
      Differs(CRLF, BARE_BLANK_LINE, 0, 0);
      LineThenRest(lines[0], CRLF, |lines[0]|);
    } else {
      HeaderLinesOk(lines[1..]);
      var h := JoinLines(lines[1..]);
      Regroup(lines[0] + CRLF, h, BLANK_LINE);
      LineThenRest(lines[0], h + BLANK_LINE, |lines[0]| + 2 + |h|);
    }
  }

  /** A header line before text that has its first blank line at the end and no bare one. */
  lemma {:induction false} LineThenRest(line: string, rest: string, end: nat)
    requires LineOk(line) && |rest| >= 2 && rest[0] != '\n' && Absent(rest, BARE_BLANK_LINE)
    requires if end == |line| then rest == CRLF else end >= |line| + 2 && rest[0] != '\r' && FirstAt(rest, BLANK_LINE, end - |line| - 2)
    ensures FirstAt(line + CRLF + rest, BLANK_LINE, end) && Absent(line + CRLF + rest, BARE_BLANK_LINE)
  {
    var t, front := line + CRLF + rest, line + CRLF;
    if end == |line| {
      assert t[end..end + 4] == BLANK_LINE;
    } else {
      PastFront(front, rest, BLANK_LINE, end);
    }
    forall j | 0 <= j < end ensures !OccursAt(t, BLANK_LINE, j) {
      if j < |line| + 2 { EarlyInLine(line, rest, j); } else { PastFront(front, rest, BLANK_LINE, j); }
    }
    forall j ensures !OccursAt(t, BARE_BLANK_LINE, j) {
      if 0 <= j < |line| + 2 { EarlyInLine(line, rest, j); }
      else if j >= 0 { PastFront(front, rest, BARE_BLANK_LINE, j); }
    }
  }

  /** No blank line starts in a header line or in its line end when a line start follows. */
  lemma {:induction false} EarlyInLine(line: string, rest: string, j: nat)
    requires LineOk(line) && |rest| >= 2 && rest[0] != '\n' && j < |line| + 2
    ensures rest[0] != '\r' || j != |line| ==> !OccursAt(line + CRLF + rest, BLANK_LINE, j)
    ensures !OccursAt(line + CRLF + rest, BARE_BLANK_LINE, j)
  {
    var t := line + CRLF + rest;
    assert t[|line|] == '\r' && t[|line| + 1] == '\n' && t[|line| + 2] == rest[0];
    if j < |line| {
      assert t[j] == line[j];
      Differs(t, BLANK_LINE, j, 0);
      Differs(t, BARE_BLANK_LINE, j, 0);
    } else if j == |line| {
      if rest[0] != '\r' { Differs(t, BLANK_LINE, j, 2); }
      Differs(t, BARE_BLANK_LINE, j, 0);
    } else {
      Differs(t, BLANK_LINE, j, 0);
      Differs(t, BARE_BLANK_LINE, j, 1);
    }
  }

  /** Content of at most 99 bytes that does not hold the delimiter leads to it. */
  lemma {:induction false} ContentOk(d: string, content: string)
    requires |d| >= 2 && d[0] == '-' && forall i :: 0 <= i < |d| ==> d[i] != '\r'
    requires |content| <= 99 && Absent(content, d)
    ensures LeadsTo(content + CRLF, d)
  {
    ContentLeads(d, content);
  }

  /** Content of any length that does not hold the delimiter is first ended by it. */
  lemma {:induction false} ContentLeads(d: string, content: string)
    requires |d| >= 2 && d[0] == '-' && forall i :: 0 <= i < |d| ==> d[i] != '\r'
    requires Absent(content, d)
    ensures FirstAt(content + CRLF + d, d, |content| + 2)
  {
    var lead := content + CRLF;
    var t := lead + d;
    assert t[|lead|..|lead| + |d|] == d;
    assert t[|content|] == '\r' && t[|content| + 1] == '\n';
    forall j | 0 <= j < |lead| ensures !OccursAt(t, d, j) {
      if j + |d| <= |content| {
        assert t == content + (CRLF + d);
        OccurrenceInPrefix(content, CRLF + d, d, j);
      } else if j <= |content| {
        Differs(t, d, j, |content| - j);
      } else {
        Differs(t, d, j, 0);
      }
    }
  }
}
