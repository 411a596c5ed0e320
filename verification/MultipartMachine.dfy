/**
 The streaming multipart parser: its state, one function per processing stage, and the
 feed loop as a function. `MultipartStream` holds the imperative parser that these specify.
 A `string` here is a C++ byte string: one character per byte.
 */
module MultipartMachine {
  import opened Search

  datatype Phase = Boundary | Headers | Content | Complete | Error

  datatype Field = Field(name: string, filename: string, headers: map<string, string>)

  /** The limits of `MultipartConfig` that the stream parser consults, and the delimiter `--boundary`. */
  datatype Settings = Settings(boundary: string, maxFieldSize: nat, maxFileSize: nat) {
    function Delimiter(): (d: string)
      ensures |d| >= 2
    {
      "--" + boundary
    }
  }

  datatype Parser = Parser(
    phase: Phase,
    buffer: string,
    current: Option<Field>,
    fieldName: string,
    fieldSize: nat,
    result: seq<Field>,
    bytes: nat)
  {
    /** The parser with more bytes appended to its buffer. */
    function Extend(more: string): Parser {
      this.(buffer := buffer + more, bytes := bytes + |more|)
    }
  }

  const CRLF := "\r\n"
  const BLANK_LINE := "\r\n\r\n"
  const BARE_BLANK_LINE := "\n\n"
  const SLACK := 100

  function Fresh(): Parser {
    Parser(Boundary, "", None, "", 0, [], 0)
  }

  // ---- Header block ----

  function LowerChar(c: char): char {
    if 'A' <= c <= 'Z' then (c as int + 32) as char else c
  }

  function ToLower(s: string): string {
    seq(|s|, i requires 0 <= i < |s| => LowerChar(s[i]))
  }

  predicate IsBlank(c: char) { c == ' ' || c == '\t' }

  function DropLeading(s: string): string {
    if s != "" && IsBlank(s[0]) then DropLeading(s[1..]) else s
  }

  function DropTrailing(s: string): string {
    if s != "" && IsBlank(s[|s| - 1]) then DropTrailing(s[..|s| - 1]) else s
  }

  function Trim(s: string): string { DropTrailing(DropLeading(s)) }

  /** The text between the first `key` in `value` and the next double quote, if both exist. */
  function Quoted(value: string, key: string): Option<string> {
    match Find(value, key)
    case None => None
    case Some(p) =>
      match FindFrom(value, "\"", p + |key|)
      case None => None
      case Some(q) => Some(value[p + |key|..q])
  }

  /** The field under construction together with the name last seen by the parser. */
  datatype HeaderState = HeaderState(field: Field, fieldName: string)

  function ParseDisposition(value: string, h: HeaderState): HeaderState {
    var named := match Quoted(value, "name=\"")
                 case None => h
                 case Some(n) => HeaderState(h.field.(name := n), n);
    match Quoted(value, "filename=\"")
    case None => named
    case Some(f) => named.(field := named.field.(filename := f))
  }

  function ParseLine(rawLine: string, h: HeaderState): HeaderState {
    var line := if rawLine != "" && rawLine[|rawLine| - 1] == '\r' then rawLine[..|rawLine| - 1] else rawLine;
    match Find(line, ":")
    case None => h
    case Some(colon) =>
      var name := Trim(line[..colon]);
      var value := Trim(line[colon + 1..]);
      var added := h.(field := h.field.(headers := h.field.headers[ToLower(name) := value]));
      if name == "Content-Disposition" then ParseDisposition(value, added) else added
  }

  /** The header lines of `block`, split at LF as `std::getline` does, applied in order. */
  function ParseBlock(block: string, h: HeaderState): HeaderState
    decreases |block|
  {
    if block == "" then h
    else match Find(block, "\n")
      case None => ParseLine(block, h)
      case Some(lf) => ParseBlock(block[lf + 1..], ParseLine(block[..lf], h))
  }

  const NO_FIELD := Field("", "", map[])

  // ---- The three stages ----

  /** A stage's new state, and whether the feed loop goes on. */
  datatype Outcome = Outcome(parser: Parser, processed: bool)

  function ProcessBoundary(c: Settings, p: Parser): Outcome {
    var d := c.Delimiter();
    match Find(p.buffer, d)
    case None =>
      if |p.buffer| > |d| + SLACK then Outcome(p.(phase := Error), false) else Outcome(p, false)
    case Some(at) =>
      var rest := p.buffer[at + |d|..];
      if StartsWith(rest, "--") then Outcome(p.(buffer := rest, phase := Complete), true)
      else if StartsWith(rest, CRLF) then Outcome(p.(buffer := rest[2..], phase := Headers), true)
      else if StartsWith(rest, "\n") then Outcome(p.(buffer := rest[1..], phase := Headers), true)
      else Outcome(p.(buffer := rest, phase := Headers), true)
  }

  /**
   Where the header block and the buffer after it start. `header_end - 4` is unsigned, so a bare
   blank line before offset 2 wraps around and selects the whole buffer as header data.
   */
  function HeaderExtent(buffer: string): (r: Option<(nat, nat)>)
    ensures r.Some? ==> r.value.0 <= |buffer| && 2 <= r.value.1 <= |buffer|
  {
    match Find(buffer, BLANK_LINE)
    case Some(at) => Some((at, at + 4))
    case None =>
      match Find(buffer, BARE_BLANK_LINE)
      case None => None
      case Some(at) => Some((if at >= 2 then at - 2 else |buffer|, at + 2))
  }

  function ProcessHeaders(p: Parser): Outcome {
    match HeaderExtent(p.buffer)
    case None => Outcome(p, false)
    case Some((len, next)) =>
      var h := ParseBlock(p.buffer[..len], HeaderState(NO_FIELD, p.fieldName));
      Outcome(p.(buffer := p.buffer[next..], current := Some(h.field), fieldName := h.fieldName,
                 fieldSize := 0, phase := Content), true)
  }

  predicate IsLineEnd(c: char) { c == '\n' || c == '\r' }

  /** The length of `s` without its trailing CR and LF bytes. */
  function ContentEnd(s: string): (n: nat)
    ensures n <= |s|
  {
    if s != "" && IsLineEnd(s[|s| - 1]) then ContentEnd(s[..|s| - 1]) else |s|
  }

  /** Content bytes are counted, not kept; exceeding the limit sets the error phase. */
  function WriteContent(c: Settings, p: Parser, size: nat): Parser {
    match p.current
    case None => p
    case Some(f) =>
      var q := p.(fieldSize := p.fieldSize + size);
      var limit := if f.filename != "" then c.maxFileSize else c.maxFieldSize;
      if q.fieldSize > limit then q.(phase := Error) else q
  }

  function Finalize(p: Parser): Parser {
    match p.current
    case None => p
    case Some(f) => p.(result := p.result + [f], current := None)
  }

  function ProcessContent(c: Settings, p: Parser): Outcome {
    var d := c.Delimiter();
    match Find(p.buffer, d)
    case None =>
      if |p.buffer| > |d| + SLACK
      then Outcome(WriteContent(c, p, |p.buffer| - |d| - 10).(buffer := ""), false)
      else Outcome(p, false)
    case Some(at) =>
      var end := ContentEnd(p.buffer[..at]);
      var written := if end > 0 then WriteContent(c, p, end) else p;
      Outcome(Finalize(written.(buffer := p.buffer[at..])).(phase := Boundary), true)
  }

  // ---- The feed loop ----

  predicate Running(p: Parser) {
    p.buffer != "" && p.phase != Complete && p.phase != Error
  }

  function Step(c: Settings, p: Parser): Outcome
    requires Running(p)
  {
    match p.phase
    case Boundary => ProcessBoundary(c, p)
    case Headers => ProcessHeaders(p)
    case Content => ProcessContent(c, p)
  }

  /** The loop's measure: buffer length, then whether the phase is Content. */
  function ContentRank(p: Parser): nat { if p.phase == Content then 1 else 0 }

  lemma {:induction false} StepDecreases(c: Settings, p: Parser)
    requires Running(p) && Step(c, p).processed
    ensures var q := Step(c, p).parser;
            |q.buffer| < |p.buffer| || (|q.buffer| == |p.buffer| && ContentRank(q) < ContentRank(p))
  {
  }

  /** Runs stages until one of them needs more data or the parse is over. */
  function Drive(c: Settings, p: Parser): Parser
    decreases |p.buffer|, ContentRank(p)
  {
    if !Running(p) then p
    else
      var o := Step(c, p);
      if o.processed then StepDecreases(c, p); Drive(c, o.parser) else o.parser
  }

  function Feed(c: Settings, p: Parser, data: string): Parser {
    Drive(c, p.Extend(data))
  }

  function FeedAll(c: Settings, p: Parser, chunks: seq<string>): Parser
    decreases |chunks|
  {
    if chunks == [] then p else FeedAll(c, Feed(c, p, chunks[0]), chunks[1..])
  }

  function Concat(chunks: seq<string>): string {
    if chunks == [] then "" else chunks[0] + Concat(chunks[1..])
  }
}
