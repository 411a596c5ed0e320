/** The header lines a form sends, and what the parser reads from them. */
module MultipartHeaders {
  import opened Search
  import opened MultipartMachine
  import opened MultipartChunking
  import opened MultipartLong

  const DISPOSITION := "Content-Disposition"
  const NAME_KEY := "name=\""
  const FILENAME_KEY := "filename=\""

  /** No double quote, CR or LF: what may stand between the quotes. */
  predicate Plain(s: string) { '"' !in s && '\n' !in s && '\r' !in s }

  predicate EndsWith(s: string, suffix: string) { |suffix| <= |s| && s[|s| - |suffix|..] == suffix }

  /** The parameters of a Content-Disposition, in the order in which they are written. */
  datatype Params =
    | NameOnly(name: string)
    | NameFirst(name: string, filename: string)
    | FileFirst(filename: string, name: string)
  {
    function File(): string { if NameOnly? then "" else filename }

    predicate AllPlain() { Plain(name) && Plain(File()) }

    function Value(): string {
      match this
      case NameOnly(n) => "form-data; " + NAME_KEY + n + "\""
      case NameFirst(n, f) => "form-data; " + NAME_KEY + n + "\"" + ("; " + FILENAME_KEY + f + "\"")
      case FileFirst(f, n) => "form-data; " + FILENAME_KEY + f + "\"" + ("; " + NAME_KEY + n + "\"")
    }

    /** What the parser takes for the name: a file name written first hides it. */
    function NameRead(): string { if FileFirst? then filename else name }

    /** What the parser takes for the file name: a name ending in `filename=` hides one written after it. */
    function FileRead(): string {
      if NameFirst? && EndsWith(name, "filename=") then "; filename=" else File()
    }

    /** The parameters are read as they were written. */
    predicate ReadsBack() { NameRead() == name && FileRead() == File() }
  }

  // ---- Reading the value ----

  /** A quoted text found by its key: the key's first occurrence, up to the next quote. */
  lemma {:induction false} QuotedAt(v: string, key: string, at: nat, text: string)
    requires FirstAt(v, key, at) && '"' !in text
    requires var p := at + |key|; p + |text| < |v| && v[p..p + |text|] == text && v[p + |text|] == '"'
    ensures Quoted(v, key) == Some(text)
  {
    FindIsFirst(v, key, at);
    var p := at + |key|;
    SingleFind(v, '"', p);
    assert forall j :: p <= j < p + |text| ==> v[j] == v[p..p + |text|][j - p];
    IndexOfIs(v, '"', p, p + |text|);
  }

  /** Without a closing quote nothing is read, and nothing without the key. */
  lemma {:induction false} UnclosedIsNotRead(v: string, key: string, at: nat)
    requires FirstAt(v, key, at) && '"' !in v[at + |key|..]
    ensures Quoted(v, key) == None
  {
    FindIsFirst(v, key, at);
    var p := at + |key|;
    SingleFind(v, '"', p);
    assert forall j :: p <= j < |v| ==> v[j] == v[p..][j - p];
  }

  lemma {:induction false} QuotedIs(before: string, key: string, text: string, after: string)
    requires FirstAt(before + key + text + "\"" + after, key, |before|) && '"' !in text
    ensures Quoted(before + key + text + "\"" + after, key) == Some(text)
  {
    var v, p := before + key + text + "\"" + after, |before| + |key|;
    assert v[p..p + |text|] == text;
    QuotedAt(v, key, |before|, text);
  }

  /** A key is found right after a front that does not hold its first character. */
  lemma {:induction false} FirstAfterFront(before: string, key: string, rest: string)
    requires key != "" && key[0] !in before
    ensures FirstAt(before + key + rest, key, |before|)
  {
    var v := before + key + rest;
    assert v[|before|..|before| + |key|] == key;
    forall j | 0 <= j < |before| ensures !OccursAt(v, key, j) {
      assert v[j] == before[j];
      Differs(v, key, j, 0);
    }
  }

  /** The name that is read: the written one, or the file name when that comes first. */
  lemma {:induction false} NameIsRead(ps: Params)
    requires ps.AllPlain()
    ensures Quoted(ps.Value(), NAME_KEY) == Some(ps.NameRead())
  {
    match ps {
      case NameOnly(n) =>
        QuotedFirst("form-data; ", NAME_KEY, n, "");
        assert ps.Value() + "" == ps.Value();
      case NameFirst(n, f) => QuotedFirst("form-data; ", NAME_KEY, n, "; " + FILENAME_KEY + f + "\"");
      case FileFirst(f, n) =>
        var rest := "; " + NAME_KEY + n + "\"";
        assert ps.Value() == "form-data; file" + NAME_KEY + f + "\"" + rest by { FileKeyHoldsNameKey(); }
        QuotedFirst("form-data; file", NAME_KEY, f, rest);
    }
  }

  lemma {:induction false} FileKeyHoldsNameKey()
    ensures "form-data; " + FILENAME_KEY == "form-data; file" + NAME_KEY
  {
  }

  /** A quoted text right after a front that does not hold the first character of its key. */
  lemma {:induction false} QuotedFirst(front: string, key: string, text: string, after: string)
    requires key != "" && key[0] !in front && '"' !in text
    ensures Quoted(front + key + text + "\"" + after, key) == Some(text)
  {
    FirstAfterFront(front, key, text + "\"" + after);
    assert front + key + (text + "\"" + after) == front + key + text + "\"" + after;
    QuotedIs(front, key, text, after);
  }

  /** Exactly when the name is read back: it comes first, or is the file name. */
  lemma {:induction false} NameReadExactly(ps: Params)
    requires ps.AllPlain()
    ensures Quoted(ps.Value(), NAME_KEY) == Some(ps.name) <==> !ps.FileFirst? || ps.name == ps.filename
  {
    NameIsRead(ps);
  }

  const FRONT := "form-data; name=\""

  /** The filename key does not occur up to the closing quote of a name that does not end like it. */
  lemma {:induction false} NoKeyBeforeTail(name: string, tail: string, j: nat)
    requires Plain(name) && j + 9 <= 17 + |name| && (j + 9 == 17 + |name| ==> !EndsWith(name, "filename="))
    ensures !OccursAt(FRONT + name + "\"" + tail, FILENAME_KEY, j)
  {
    var v, end := FRONT + name + "\"" + tail, 17 + |name|;
    assert v[16] == '"' && v[7] == 't' && forall k :: 17 <= k < end ==> v[k] == name[k - 17];
    if j + 9 == end {
      if j <= 16 { Differs(v, FILENAME_KEY, j, 16 - j); } else { NotTheKey(name, tail, j - 17); }
    } else if j == 7 {
      Differs(v, FILENAME_KEY, j, 0);
    } else {
      assert j + 9 < 16 ==> v[j + 9] == FRONT[j + 9] && '"' !in FRONT[..16];
      Differs(v, FILENAME_KEY, j, 9);
    }
  }

  lemma {:induction false} NotTheKey(name: string, tail: string, i: nat)
    requires !EndsWith(name, "filename=") && i + 9 == |name|
    ensures !OccursAt(FRONT + name + "\"" + tail, FILENAME_KEY, 17 + i)
  {
    var v, suffix, key := FRONT + name + "\"" + tail, name[i..], "filename=";
    assert FILENAME_KEY == key + "\"";
    assert suffix != key && |suffix| == |key|;
    var k :| 0 <= k < 9 && suffix[k] != key[k];
    assert v[17 + i + k] == suffix[k] && FILENAME_KEY[k] == key[k];
    Differs(v, FILENAME_KEY, 17 + i, k);
  }

  /** Without a file name none is read, whatever the name. */
  lemma {:induction false} NoFilenameIsRead(name: string)
    requires Plain(name)
    ensures Quoted(NameOnly(name).Value(), FILENAME_KEY) == None
  {
    var v, end := NameOnly(name).Value(), 17 + |name|;
    assert v == FRONT + name + "\"" + "";
    forall j: nat | j + 9 < end ensures !OccursAt(v, FILENAME_KEY, j) { NoKeyBeforeTail(name, "", j); }
    var found := Find(v, FILENAME_KEY);
    if found.Some? { assert found.value + 10 == |v|; }
  }

  /** With a file name it is read, unless the name ends in `filename=`. */
  lemma {:induction false} FilenameIsRead(name: string, f: string)
    requires Plain(name) && Plain(f) && !EndsWith(name, "filename=")
    ensures Quoted(NameFirst(name, f).Value(), FILENAME_KEY) == Some(f)
  {
    var v, tail := NameFirst(name, f).Value(), "; " + FILENAME_KEY + f + "\"";
    assert v == FRONT + name + "\"" + tail;
    var before := FRONT + name + "\"" + "; ";
    assert v == before + FILENAME_KEY + f + "\"" + "";
    assert FirstAt(v, FILENAME_KEY, |before|) by { FilenameKeyFirst(name, f); }
    QuotedIs(before, FILENAME_KEY, f, "");
  }

  /** A name that ends in `filename=` is taken for the key, and what follows it is read instead. */
  lemma {:induction false} FilenameIsMisread(name: string, f: string)
    requires Plain(name) && EndsWith(name, "filename=")
    ensures Quoted(NameFirst(name, f).Value(), FILENAME_KEY) == Some("; filename=")
  {
    var v, tail, end := NameFirst(name, f).Value(), "; " + FILENAME_KEY + f + "\"", 17 + |name|;
    assert v == FRONT + name + "\"" + tail;
    assert FirstAt(v, FILENAME_KEY, end - 9) by {
      KeyAtNameEnd(name, tail);
      forall j: nat | j < end - 9 ensures !OccursAt(v, FILENAME_KEY, j) { NoKeyBeforeTail(name, tail, j); }
    }
    TailStarts(f);
    assert v[end + 1..end + 12] == tail[..11] && v[end + 12] == tail[11];
    QuotedAt(v, FILENAME_KEY, end - 9, "; filename=");
  }

  lemma {:induction false} TailStarts(f: string)
    ensures var tail := "; " + FILENAME_KEY + f + "\""; |tail| >= 13 && tail[..11] == "; filename=" && tail[11] == '"'
  {
    assert "; " + FILENAME_KEY == "; filename=" + "\"";
  }

  lemma {:induction false} KeyAtNameEnd(name: string, tail: string)
    requires EndsWith(name, "filename=")
    ensures OccursAt(FRONT + name + "\"" + tail, FILENAME_KEY, 8 + |name|)
  {
    var v := FRONT + name + "\"" + tail;
    assert v[8 + |name|..18 + |name|] == name[|name| - 9..] + "\"";
  }

  /** A file name that is written first is read, whatever the name. */
  lemma {:induction false} FirstFilenameIsRead(f: string, name: string)
    requires Plain(f)
    ensures Quoted(FileFirst(f, name).Value(), FILENAME_KEY) == Some(f)
  {
    var front, after := "form-data; ", "; " + NAME_KEY + name + "\"";
    var v := FileFirst(f, name).Value();
    assert v == front + FILENAME_KEY + f + "\"" + after;
    assert v[11..21] == FILENAME_KEY;
    forall j | 0 <= j < 11 ensures !OccursAt(v, FILENAME_KEY, j) {
      assert v[..11] == front && v[j] == front[j];
      if j > 0 { Differs(v, FILENAME_KEY, j, 0); } else { assert v[1] == 'o'; Differs(v, FILENAME_KEY, 0, 1); }
    }
    QuotedIs(front, FILENAME_KEY, f, after);
  }

  /** The file name that is read. */
  lemma {:induction false} FileIsRead(ps: Params)
    requires ps.AllPlain()
    ensures Quoted(ps.Value(), FILENAME_KEY) == if ps.NameOnly? then None else Some(ps.FileRead())
  {
    match ps {
      case NameOnly(n) => NoFilenameIsRead(n);
      case NameFirst(n, f) => if EndsWith(n, "filename=") { FilenameIsMisread(n, f); } else { FilenameIsRead(n, f); }
      case FileFirst(f, n) => FirstFilenameIsRead(f, n);
    }
  }

  /** Exactly when a file name is read back. */
  lemma {:induction false} FilenameReadExactly(ps: Params)
    requires ps.AllPlain() && !ps.NameOnly?
    ensures Quoted(ps.Value(), FILENAME_KEY) == Some(ps.filename) <==>
            ps.FileFirst? || !EndsWith(ps.name, "filename=") || ps.filename == "; filename="
  {
    FileIsRead(ps);
  }

  lemma {:induction false} FilenameKeyFirst(name: string, f: string)
    requires Plain(name) && !EndsWith(name, "filename=")
    ensures FirstAt(FRONT + name + "\"" + ("; " + FILENAME_KEY + f + "\""), FILENAME_KEY, 20 + |name|)
  {
    var tail := "; " + FILENAME_KEY + f + "\"";
    var v, end := FRONT + name + "\"" + tail, 17 + |name|;
    assert v[end + 3..end + 13] == FILENAME_KEY;
    assert forall k :: end < k < end + 12 ==> v[k] == tail[k - end - 1];
    forall j | 0 <= j < end + 3 ensures !OccursAt(v, FILENAME_KEY, j) {
      if j + 9 <= end {
        NoKeyBeforeTail(name, tail, j);
      } else {
        assert tail[..11] == "; filename=" && '"' !in tail[..11];
        assert v[j + 9] == tail[..11][j + 9 - end - 1];
        Differs(v, FILENAME_KEY, j, 9);
      }
    }
  }

  // ---- Header lines ----

  datatype Header = Header(key: string, value: string)

  function Line(h: Header): string { h.key + ": " + h.value }

  predicate NoLineEnds(s: string) { '\n' !in s && '\r' !in s }

  predicate NoOuterBlanks(s: string) { s == "" || (!IsBlank(s[0]) && !IsBlank(s[|s| - 1])) }

  /** A header as section 2.2 of RFC 5322 has it, without surrounding blanks. */
  predicate HeaderOk(h: Header) {
    && h.key != "" && ':' !in h.key && NoLineEnds(h.key) && NoOuterBlanks(h.key)
    && NoLineEnds(h.value) && NoOuterBlanks(h.value)
  }

  lemma {:induction false} TrimKeeps(s: string)
    requires NoOuterBlanks(s)
    ensures Trim(s) == s && Trim(" " + s) == s
  {
    assert (" " + s)[1..] == s;
    assert DropLeading(" " + s) == DropLeading(s) == s;
  }

  lemma {:induction false} LineSplits(h: Header)
    requires HeaderOk(h)
    ensures var line, n := Line(h), |h.key|;
            && Find(line, ":") == Some(n) && Trim(line[..n]) == h.key && Trim(line[n + 1..]) == h.value
            && line[|line| - 1] != '\r'
  {
    var line, n := Line(h), |h.key|;
    SingleFind(line, ':', 0);
    assert forall j :: 0 <= j < n ==> line[j] == h.key[j];
    IndexOfIs(line, ':', 0, n);
    assert line[..n] == h.key && line[n + 1..] == " " + h.value;
    TrimKeeps(h.key);
    TrimKeeps(h.value);
  }

  /** A header line is stored under its lower-case name, and a Content-Disposition is read further. */
  lemma {:induction false} LineIsRead(h: Header, s: HeaderState)
    requires HeaderOk(h)
    ensures var added := s.(field := s.field.(headers := s.field.headers[ToLower(h.key) := h.value]));
            ParseLine(Line(h), s) == if h.key == DISPOSITION then ParseDisposition(h.value, added) else added
  {
    LineSplits(h);
  }

  lemma {:induction false} HeaderIsLine(h: Header)
    requires HeaderOk(h)
    ensures LineOk(Line(h))
  {
    assert forall c :: c in Line(h) ==> c in h.key || c in ": " || c in h.value;
  }

  /** A line without a colon is ignored. */
  lemma {:induction false} LineWithoutColonIgnored(line: string, s: HeaderState)
    requires ':' !in line
    ensures ParseLine(line, s) == s
  {
    var kept := if line != "" && line[|line| - 1] == '\r' then line[..|line| - 1] else line;
    assert ':' !in kept;
    SingleFind(kept, ':', 0);
  }

  /** Trimming takes off spaces and tabs at both ends, and nothing else. */
  lemma {:induction false} TrimExactly(s: string) returns (a: string, b: string)
    ensures s == a + Trim(s) + b && (forall c :: c in a + b ==> c == ' ' || c == '\t')
    ensures Trim(s) != "" ==>
              var u, v := Trim(s)[0], Trim(s)[|Trim(s)| - 1]; u != ' ' && u != '\t' && v != ' ' && v != '\t'
  {
    a := LeadingBlanks(s);
    b := TrailingBlanks(DropLeading(s));
    assert s == a + (Trim(s) + b);
  }

  lemma {:induction false} LeadingBlanks(s: string) returns (a: string)
    ensures s == a + DropLeading(s) && (forall c :: c in a ==> c == ' ' || c == '\t')
    ensures DropLeading(s) != "" ==> DropLeading(s)[0] != ' ' && DropLeading(s)[0] != '\t'
    decreases |s|
  {
    a := "";
    if s != "" && IsBlank(s[0]) {
      var rest := LeadingBlanks(s[1..]);
      a := [s[0]] + rest;
      assert s == [s[0]] + s[1..];
    }
  }

  lemma {:induction false} TrailingBlanks(s: string) returns (b: string)
    ensures s == DropTrailing(s) + b && (forall c :: c in b ==> c == ' ' || c == '\t')
    ensures DropTrailing(s) != "" ==>
              var t := DropTrailing(s); t[0] == s[0] && t[|t| - 1] != ' ' && t[|t| - 1] != '\t'
    decreases |s|
  {
    b := "";
    if s != "" && IsBlank(s[|s| - 1]) {
      var front, last := s[..|s| - 1], s[|s| - 1];
      var rest := TrailingBlanks(front);
      b := rest + [last];
      assert s == front + [last];
    }
  }

  /** Header names lose their upper case, letter by letter, and nothing else. */
  lemma {:induction false} LowerExactly(s: string, i: nat)
    requires i < |s|
    ensures |ToLower(s)| == |s|
    ensures forall k :: 0 <= k < 26 && s[i] == "ABCDEFGHIJKLMNOPQRSTUVWXYZ"[k] ==> ToLower(s)[i] == "abcdefghijklmnopqrstuvwxyz"[k]
    ensures s[i] !in "ABCDEFGHIJKLMNOPQRSTUVWXYZ" ==> ToLower(s)[i] == s[i]
  {
    var upper := "ABCDEFGHIJKLMNOPQRSTUVWXYZ";
    if 'A' <= s[i] <= 'Z' { assert s[i] == upper[s[i] as int - 65]; }
  }

  // ---- Header blocks ----

  function FoldLines(lines: seq<string>, s: HeaderState): HeaderState {
    if lines == [] then s else FoldLines(lines[1..], ParseLine(lines[0], s))
  }

  /** A block of lines is read line by line. */
  lemma {:induction false} BlockIsLines(lines: seq<string>, s: HeaderState)
    requires lines != [] && forall i :: 0 <= i < |lines| ==> LineOk(lines[i])
    ensures ParseBlock(JoinLines(lines), s) == FoldLines(lines, s)
    decreases |lines|
  {
    var line := lines[0];
    assert LineOk(line);
    if |lines| == 1 {
      SingleFind(line, '\n', 0);
      assert FoldLines(lines[1..], ParseLine(line, s)) == ParseLine(line, s);
    } else {
      FirstLine(line, JoinLines(lines[1..]), s);
      BlockIsLines(lines[1..], ParseLine(line, s));
    }
  }

  lemma {:induction false} FirstLine(line: string, rest: string, s: HeaderState)
    requires LineOk(line)
    ensures ParseBlock(line + CRLF + rest, s) == ParseBlock(rest, ParseLine(line, s))
  {
    var block, n := line + CRLF + rest, |line| + 1;
    SingleFind(block, '\n', 0);
    IndexOfIs(block, '\n', 0, n);
    assert block[..n] == line + "\r" && block[n + 1..] == rest;
    CarriageReturnIgnored(line, s);
  }

  lemma {:induction false} CarriageReturnIgnored(line: string, s: HeaderState)
    requires LineOk(line)
    ensures ParseLine(line + "\r", s) == ParseLine(line, s)
  {
    assert (line + "\r")[..|line|] == line;
  }

  lemma {:induction false} FoldAppend(a: seq<string>, b: seq<string>, s: HeaderState)
    ensures FoldLines(a + b, s) == FoldLines(b, FoldLines(a, s))
    decreases |a|
  {
    if a == [] {
      assert [] + b == b;
    } else {
      assert (a + b)[1..] == a[1..] + b;
      FoldAppend(a[1..], b, ParseLine(a[0], s));
    }
  }

  function Lines(hs: seq<Header>): seq<string> { seq(|hs|, i requires 0 <= i < |hs| => Line(hs[i])) }

  /** The header map that a list of headers gives: a repeated name keeps its last value. */
  function WithHeaders(m: map<string, string>, hs: seq<Header>): map<string, string>
    decreases |hs|
  {
    if hs == [] then m else WithHeaders(m[ToLower(hs[0].key) := hs[0].value], hs[1..])
  }

  ghost predicate OtherHeaders(hs: seq<Header>) {
    forall i :: 0 <= i < |hs| ==> HeaderOk(hs[i]) && hs[i].key != DISPOSITION
  }

  /** Headers other than Content-Disposition are stored and change nothing else. */
  lemma {:induction false} OthersAreStored(hs: seq<Header>, s: HeaderState)
    requires OtherHeaders(hs)
    ensures FoldLines(Lines(hs), s) == s.(field := s.field.(headers := WithHeaders(s.field.headers, hs)))
    decreases |hs|
  {
    if hs != [] {
      LineIsRead(hs[0], s);
      OthersAreStored(hs[1..], ParseLine(Line(hs[0]), s));
      assert Lines(hs)[1..] == Lines(hs[1..]);
    }
  }

  function Disposition(ps: Params): Header { Header(DISPOSITION, ps.Value()) }

  lemma {:induction false} ValueEnds(ps: Params)
    ensures var v := ps.Value(); |v| >= 2 && v[0] == 'f' && v[|v| - 1] == '"'
  {
    var v := ps.Value();
    assert v[0] == "form-data; "[0];
  }

  /** Line ends occur nowhere in the value. */
  lemma {:induction false} NoLineEnd(ps: Params, c: char)
    requires (c == '\n' || c == '\r') && ps.AllPlain()
    ensures c !in ps.Value()
  {
    assert c !in "form-data; " && c !in NAME_KEY && c !in FILENAME_KEY && c !in "\"" && c !in "; ";
    match ps {
      case NameOnly(_) =>
      case NameFirst(n, f) => NotInThree("; ", FILENAME_KEY, f, c);
      case FileFirst(f, n) => NotInThree("; ", NAME_KEY, n, c);
    }
  }

  lemma {:induction false} NotInThree(a: string, b: string, text: string, c: char)
    requires c !in a && c !in b && c !in text && c != '"'
    ensures c !in a + b + text + "\""
  {
  }

  lemma {:induction false} DispositionOk(ps: Params)
    requires ps.AllPlain()
    ensures HeaderOk(Disposition(ps))
  {
    NoLineEnd(ps, '\n');
    NoLineEnd(ps, '\r');
    ValueEnds(ps);
    KeyIsOk();
  }

  lemma {:induction false} KeyIsOk()
    ensures DISPOSITION != "" && ':' !in DISPOSITION && NoLineEnds(DISPOSITION) && NoOuterBlanks(DISPOSITION)
  {
  }

  /** What the line leaves in the field, whatever was read before. */
  lemma {:induction false} DispositionIsRead(ps: Params, s: HeaderState)
    requires ps.AllPlain()
    ensures ParseLine(Line(Disposition(ps)), s) ==
            HeaderState(Field(ps.NameRead(), if ps.NameOnly? then s.field.filename else ps.FileRead(),
                              s.field.headers["content-disposition" := ps.Value()]), ps.NameRead())
  {
    var h := Disposition(ps);
    DispositionOk(ps);
    LineIsRead(h, s);
    LowerDisposition();
    NameIsRead(ps);
    FileIsRead(ps);
  }

  lemma {:induction false} LowerDisposition()
    ensures ToLower(DISPOSITION) == "content-disposition"
  {
  }

  /** Exactly when the line gives a fresh field the name and file name that were written. */
  lemma {:induction false} DispositionRoundTrip(ps: Params, s: HeaderState)
    requires ps.AllPlain() && s.field.filename == ""
    ensures var f := ParseLine(Line(Disposition(ps)), s).field;
            && (f.name == ps.name && f.filename == ps.File() <==> ps.ReadsBack())
            && f.headers == s.field.headers["content-disposition" := ps.Value()]
  {
    DispositionIsRead(ps, s);
  }

  // ---- A whole form ----

  /** A part with its Content-Disposition and the headers before and after it. */
  datatype FormPart = FormPart(before: seq<Header>, params: Params, after: seq<Header>, content: string) {
    function Headers(): seq<Header> { before + [Disposition(params)] + after }
  }

  ghost predicate FormHeadersOk(f: FormPart) {
    f.params.AllPlain() && OtherHeaders(f.before) && OtherHeaders(f.after)
  }

  /** A part the parser can take: plain texts between quotes, and content without the delimiter and within the size limit. */
  ghost predicate FormPartOk(c: Settings, f: FormPart) {
    && FormHeadersOk(f) && Absent(f.content, c.Delimiter())
    && (IsLong(|f.content| + 2) ==> |f.content| + 2 <= LimitFor(c, FieldRead(f)))
  }

  function PartOf(f: FormPart): Part { Part(JoinLines(Lines(f.Headers())), f.content) }

  /** The field as it was written. */
  function FieldFor(f: FormPart): Field { Field(f.params.name, f.params.File(), WithHeaders(map[], f.Headers())) }

  /** The field as it is read. */
  function FieldRead(f: FormPart): Field { Field(f.params.NameRead(), f.params.FileRead(), WithHeaders(map[], f.Headers())) }

  function FormBody(fs: seq<FormPart>): Body {
    Body("", seq(|fs|, i requires 0 <= i < |fs| => PartOf(fs[i])), "")
  }

  lemma {:induction false} HeadersAreLines(f: FormPart)
    requires FormHeadersOk(f)
    ensures forall i :: 0 <= i < |f.Headers()| ==> LineOk(Lines(f.Headers())[i])
  {
    DispositionOk(f.params);
    forall i | 0 <= i < |f.Headers()| ensures LineOk(Lines(f.Headers())[i]) {
      assert HeaderOk(f.Headers()[i]);
      HeaderIsLine(f.Headers()[i]);
    }
  }

  lemma {:induction false} PartOfFits(c: Settings, f: FormPart)
    requires '\r' !in c.Delimiter() && FormPartOk(c, f)
    ensures PartFits(c, PartOf(f))
  {
    HeadersAreLines(f);
    HeaderLinesOk(Lines(f.Headers()));
    ContentLeads(c.Delimiter(), f.content);
    PartIsRead(f);
  }

  lemma {:induction false} WithHeadersAppend(m: map<string, string>, a: seq<Header>, b: seq<Header>)
    ensures WithHeaders(m, a + b) == WithHeaders(WithHeaders(m, a), b)
    decreases |a|
  {
    if a == [] {
      assert [] + b == b;
    } else {
      assert (a + b)[1..] == a[1..] + b;
      WithHeadersAppend(m[ToLower(a[0].key) := a[0].value], a[1..], b);
    }
  }

  /** The header block of a part gives its field. */
  lemma {:induction false} PartIsRead(f: FormPart)
    requires FormHeadersOk(f)
    ensures FieldOf(PartOf(f).headers) == FieldRead(f)
  {
    var s0, line := HeaderState(NO_FIELD, ""), Line(Disposition(f.params));
    HeadersAreLines(f);
    BlockIsLines(Lines(f.Headers()), s0);
    var a, b, c := Lines(f.before), [line], Lines(f.after);
    assert Lines(f.Headers()) == a + b + c;
    FoldAppend(a + b, c, s0);
    FoldAppend(a, b, s0);
    OthersAreStored(f.before, s0);
    var s1 := FoldLines(a, s0);
    assert FoldLines(b, s1) == ParseLine(line, s1) by { assert b[1..] == []; }
    DispositionIsRead(f.params, s1);
    OthersAreStored(f.after, ParseLine(line, s1));
    HeaderMapOf(f);
  }

  lemma {:induction false} HeaderMapOf(f: FormPart)
    ensures WithHeaders(map[], f.Headers()) ==
            WithHeaders(WithHeaders(map[], f.before)["content-disposition" := f.params.Value()], f.after)
  {
    var b, m := [Disposition(f.params)], WithHeaders(map[], f.before);
    WithHeadersAppend(map[], f.before + b, f.after);
    WithHeadersAppend(map[], f.before, b);
    LowerDisposition();
    assert b[1..] == [];
    assert WithHeaders(m, b) == m["content-disposition" := f.params.Value()];
  }

  /**
   The multipart round trip: a form of any number of parts of any length within the limits, sent in
   any chunks without a harmful cut, is parsed to its fields, in order. Each has the headers that
   were written, and exactly the name and file name if and only if these are read back.
   */
  lemma {:induction false} FormRoundTrip(c: Settings, fs: seq<FormPart>, chunks: seq<string>)
    requires '\r' !in c.Delimiter() && forall i :: 0 <= i < |fs| ==> FormPartOk(c, fs[i])
    requires Concat(chunks) == Render(c.Delimiter(), FormBody(fs)) && CutsSafe(c.Delimiter(), FormBody(fs), chunks)
    ensures var p := FeedAll(c, Fresh(), chunks);
            && p.phase == Complete && |p.result| == |fs|
            && forall i :: 0 <= i < |fs| ==>
                 p.result[i] == FieldRead(fs[i]) && (p.result[i] == FieldFor(fs[i]) <==> fs[i].params.ReadsBack())
  {
    var b := FormBody(fs);
    forall i | 0 <= i < |fs| ensures PartFits(c, b.parts[i]) && FieldOf(b.parts[i].headers) == FieldRead(fs[i]) {
      PartOfFits(c, fs[i]);
      PartIsRead(fs[i]);
    }
    EmptyLead(c.Delimiter(), "");
    LongBodyIsParsed(c, b, chunks);
  }
}
