/**
 Route patterns such as `/users/{id}`: what they denote, their compilation to regular-expression
 text, and how that text is read back.
 */
module RoutePattern {
  import opened Search

  // ---- Patterns ----

  datatype Piece = Static(c: char) | Param(name: string)

  predicate PieceOk(p: Piece) {
    match p
    case Static(c) => c != '{'
    case Param(name) => name != "" && '}' !in name
  }

  predicate PiecesOk(ps: seq<Piece>) { forall i :: 0 <= i < |ps| ==> PieceOk(ps[i]) }

  function SpellPiece(p: Piece): string {
    match p
    case Static(c) => [c]
    case Param(name) => "{" + name + "}"
  }

  /** The pattern text that a list of pieces stands for. */
  function Spell(ps: seq<Piece>): string { ConcatMap(SpellPiece, ps) }

  function NamePiece(p: Piece): seq<string> { if p.Param? then [p.name] else [] }

  function Names(ps: seq<Piece>): seq<string> { ConcatMap(NamePiece, ps) }

  /** The pattern with each parameter replaced by the next value. */
  function Substitute(ps: seq<Piece>, values: seq<string>): string
    requires |values| == |Names(ps)|
  {
    if ps == [] then ""
    else if ps[0].Param? then values[0] + Substitute(ps[1..], values[1..])
    else [ps[0].c] + Substitute(ps[1..], values)
  }

  /** What a parameter may stand for: a non-empty string without a slash. */
  predicate ValueOk(v: string) { v != "" && '/' !in v }

  predicate ValuesOk(values: seq<string>) { forall i :: 0 <= i < |values| ==> ValueOk(values[i]) }

  // ---- Reading a pattern ----

  datatype PatternError = UnclosedParameter | EmptyName

  datatype Scanned = Pieces(pieces: seq<Piece>) | Bad(error: PatternError)

  function Prepend(ps: seq<Piece>, r: Scanned): Scanned {
    if r.Pieces? then Pieces(ps + r.pieces) else r
  }

  /** Left-to-right reading of a pattern; the first fault decides the error. */
  function Scan(s: string): Scanned
    decreases |s|
  {
    if s == "" then Pieces([])
    else if s[0] != '{' then Prepend([Static(s[0])], Scan(s[1..]))
    else match IndexOf(s, '}', 1)
      case None => Bad(UnclosedParameter)
      case Some(end) =>
        if end == 1 then Bad(EmptyName)
        else Prepend([Param(s[1..end])], Scan(s[end + 1..]))
  }

  lemma {:induction false} ScanOnePiece(p: Piece, tail: string)
    requires PieceOk(p)
    ensures Scan(SpellPiece(p) + tail) == Prepend([p], Scan(tail))
  {
    var s := SpellPiece(p) + tail;
    if p.Param? {
      var n := |p.name|;
      assert forall j :: 1 <= j < n + 1 ==> s[j] == p.name[j - 1];
      IndexOfIs(s, '}', 1, n + 1);
      assert s[1..n + 1] == p.name && s[n + 2..] == tail;
    } else {
      assert s[1..] == tail;
    }
  }

  /** Scanning inverts spelling: a pattern is read as exactly the pieces that spell it. */
  lemma {:induction false} ScanInvertsSpell(ps: seq<Piece>, rest: string)
    requires PiecesOk(ps)
    ensures Scan(Spell(ps) + rest) == Prepend(ps, Scan(rest))
    decreases |ps|
  {
    if ps == [] {
      assert "" + rest == rest;
      PrependNothing(Scan(rest));
    } else {
      assert PieceOk(ps[0]);
      ScanInvertsSpell(ps[1..], rest);
      ScanOnePiece(ps[0], Spell(ps[1..]) + rest);
      assert Spell(ps) + rest == SpellPiece(ps[0]) + (Spell(ps[1..]) + rest);
      PrependTwice([ps[0]], ps[1..], Scan(rest));
      assert [ps[0]] + ps[1..] == ps;
    }
  }

  lemma {:induction false} PrependNothing(r: Scanned)
    ensures Prepend([], r) == r
  {
    if r.Pieces? { assert [] + r.pieces == r.pieces; }
  }

  lemma {:induction false} PrependTwice(ps: seq<Piece>, qs: seq<Piece>, r: Scanned)
    ensures Prepend(ps, Prepend(qs, r)) == Prepend(ps + qs, r)
  {
    if r.Pieces? { assert ps + (qs + r.pieces) == ps + qs + r.pieces; }
  }

  lemma {:induction false} SpellingCons(s: string, p: Piece, n: nat)
    requires n <= |s| && PieceOk(p) && s == SpellPiece(p) + s[n..]
    requires Scan(s[n..]).Pieces? && Scan(s) == Prepend([p], Scan(s[n..]))
    requires PiecesOk(Scan(s[n..]).pieces) && Spell(Scan(s[n..]).pieces) == s[n..]
    ensures PiecesOk(Scan(s).pieces) && Spell(Scan(s).pieces) == s
  {
    var ps := Scan(s).pieces;
    assert ps[0] == p && ps[1..] == Scan(s[n..]).pieces;
  }

  /** The piece at the front of a pattern that is read to its end. */
  lemma {:induction false} FrontPiece(s: string) returns (p: Piece, n: nat)
    requires s != "" && !(s[0] == '{' && IndexOf(s, '}', 1) == None) && !(s[0] == '{' && IndexOf(s, '}', 1) == Some(1))
    ensures 0 < n <= |s| && PieceOk(p) && s == SpellPiece(p) + s[n..] && Scan(s) == Prepend([p], Scan(s[n..]))
  {
    if s[0] != '{' {
      p, n := Static(s[0]), 1;
    } else {
      var end := IndexOf(s, '}', 1).value;
      p, n := Param(s[1..end]), end + 1;
      assert s == "{" + s[1..end] + "}" + s[end + 1..];
    }
  }

  lemma {:induction false} ScanIsSpelling(s: string)
    requires Scan(s).Pieces?
    ensures PiecesOk(Scan(s).pieces) && Spell(Scan(s).pieces) == s
    decreases |s|
  {
    if s != "" {
      var p, n := FrontPiece(s);
      ScanIsSpelling(s[n..]);
      SpellingCons(s, p, n);
    }
  }

  /** Acceptance, exactly: a pattern is accepted as `ps` if and only if `ps` is well formed and spells it. */
  lemma {:induction false} AcceptedExactly(s: string, ps: seq<Piece>)
    ensures Scan(s) == Pieces(ps) <==> PiecesOk(ps) && Spell(ps) == s
  {
    if Scan(s) == Pieces(ps) {
      ScanIsSpelling(s);
    }
    if PiecesOk(ps) && Spell(ps) == s {
      ScanInvertsSpell(ps, "");
      assert Spell(ps) + "" == s && ps + [] == ps;
    }
  }

  /** Well-formed pieces, then `{` with no `}` anywhere after it. */
  ghost predicate UnclosedAfter(s: string, ps: seq<Piece>, rest: string) {
    PiecesOk(ps) && s == Spell(ps) + "{" + rest && '}' !in rest
  }

  /** Well-formed pieces, then `{}`. */
  ghost predicate EmptyNameAfter(s: string, ps: seq<Piece>, rest: string) {
    PiecesOk(ps) && s == Spell(ps) + "{}" + rest
  }

  lemma {:induction false} UnclosedIsRejected(s: string, ps: seq<Piece>, rest: string)
    requires UnclosedAfter(s, ps, rest)
    ensures Scan(s) == Bad(UnclosedParameter)
  {
    var t := "{" + rest;
    assert s == Spell(ps) + t;
    ScanInvertsSpell(ps, t);
    assert forall j :: 1 <= j < |t| ==> t[j] == rest[j - 1];
    assert IndexOf(t, '}', 1) == None;
  }

  lemma {:induction false} EmptyNameIsRejected(s: string, ps: seq<Piece>, rest: string)
    requires EmptyNameAfter(s, ps, rest)
    ensures Scan(s) == Bad(EmptyName)
  {
    var t := "{}" + rest;
    assert s == Spell(ps) + t;
    ScanInvertsSpell(ps, t);
    IndexOfIs(t, '}', 1, 1);
  }

  /** The well-formed start of a rejected pattern, and what follows the faulty brace. */
  lemma {:induction false} RejectionWitness(s: string) returns (ps: seq<Piece>, rest: string)
    requires Scan(s).Bad?
    ensures Scan(s).error == UnclosedParameter ==> UnclosedAfter(s, ps, rest)
    ensures Scan(s).error == EmptyName ==> EmptyNameAfter(s, ps, rest)
    decreases |s|
  {
    if s[0] == '{' && IndexOf(s, '}', 1) == None {
      ps, rest := [], s[1..];
      assert s == "" + "{" + rest;
    } else if s[0] == '{' && IndexOf(s, '}', 1) == Some(1) {
      ps, rest := [], s[2..];
      assert s == "" + "{}" + rest;
    } else {
      var p, n := FrontPiece(s);
      ps, rest := RejectionWitness(s[n..]);
      ps := WitnessCons(s, p, n, ps, rest);
    }
  }

  lemma {:induction false} WitnessCons(s: string, p: Piece, n: nat, qs: seq<Piece>, rest: string) returns (ps: seq<Piece>)
    requires PieceOk(p) && n <= |s| && s == SpellPiece(p) + s[n..]
    ensures UnclosedAfter(s[n..], qs, rest) ==> UnclosedAfter(s, ps, rest)
    ensures EmptyNameAfter(s[n..], qs, rest) ==> EmptyNameAfter(s, ps, rest)
  {
    ps := [p] + qs;
    assert ps[1..] == qs;
    assert Spell(ps) == SpellPiece(p) + Spell(qs);
    SpellThen(p, qs, "{", rest);
    SpellThen(p, qs, "{}", rest);
  }

  lemma {:induction false} SpellThen(p: Piece, qs: seq<Piece>, brace: string, rest: string)
    ensures SpellPiece(p) + (Spell(qs) + brace + rest) == SpellPiece(p) + Spell(qs) + brace + rest
  {
    Regroup(SpellPiece(p), Spell(qs), brace);
    Regroup(SpellPiece(p), Spell(qs) + brace, rest);
  }

  /** Rejection, exactly: an unclosed brace or an empty name, whichever comes first. */
  lemma {:induction false} RejectedExactly(s: string)
    ensures Scan(s) == Bad(UnclosedParameter) <==> exists ps, rest :: UnclosedAfter(s, ps, rest)
    ensures Scan(s) == Bad(EmptyName) <==> exists ps, rest :: EmptyNameAfter(s, ps, rest)
  {
    if Scan(s).Bad? {
      var ps, rest := RejectionWitness(s);
    }
    if exists ps, rest :: UnclosedAfter(s, ps, rest) {
      var ps, rest :| UnclosedAfter(s, ps, rest);
      UnclosedIsRejected(s, ps, rest);
    }
    if exists ps, rest :: EmptyNameAfter(s, ps, rest) {
      var ps, rest :| EmptyNameAfter(s, ps, rest);
      EmptyNameIsRejected(s, ps, rest);
    }
  }

  // ---- Regular-expression text ----

  const SPECIAL := ".^$|()[]{}*+?\\"
  const GROUP_TEXT := "([^/]+)"

  predicate IsSpecial(c: char) { c in SPECIAL }

  /** The syntax characters of regular expressions, as ECMA-262 lists them in its regular-expression grammar. */
  const SYNTAX_CHARACTERS := "^$\\.*+?()[]{}|"

  /** Exactly the syntax characters are escaped, and a parameter is one or more characters other than a slash. */
  lemma {:induction false} SyntaxCharactersEscaped(c: char, name: string)
    ensures EmitPiece(Static(c)) == if c in SYNTAX_CHARACTERS then "\\" + [c] else [c]
    ensures EmitPiece(Param(name)) == "([^/]+)"
  {
    assert c in SPECIAL <==> c in SYNTAX_CHARACTERS;
  }

  function EscapeChar(c: char): string { if IsSpecial(c) then ['\\', c] else [c] }

  function Escape(s: string): string { ConcatMap(EscapeChar, s) }

  function EmitPiece(p: Piece): string { if p.Param? then GROUP_TEXT else EscapeChar(p.c) }

  /** The text emitted for a list of pieces, without the anchors. */
  function Emit(ps: seq<Piece>): string { ConcatMap(EmitPiece, ps) }

  datatype Atom = Lit(c: char) | Group

  function Cons(a: Atom, r: Option<seq<Atom>>): Option<seq<Atom>> {
    if r.Some? then Some([a] + r.value) else None
  }

  /** Reads the regular-expression dialect that patterns use: literals, identity escapes and the one group. */
  function ReadAtoms(t: string): Option<seq<Atom>>
    decreases |t|
  {
    if t == "" then Some([])
    else if StartsWith(t, GROUP_TEXT) then Cons(Group, ReadAtoms(t[7..]))
    else if t[0] == '\\' then
      if |t| >= 2 && IsSpecial(t[1]) then Cons(Lit(t[1]), ReadAtoms(t[2..])) else None
    else if IsSpecial(t[0]) then None
    else Cons(Lit(t[0]), ReadAtoms(t[1..]))
  }

  /** A whole expression is anchored at both ends. */
  function ReadRegex(t: string): Option<seq<Atom>> {
    if |t| >= 2 && t[0] == '^' && t[|t| - 1] == '$' then ReadAtoms(t[1..|t| - 1]) else None
  }

  function AtomOf(p: Piece): Atom { if p.Param? then Group else Lit(p.c) }

  function AtomsOf(ps: seq<Piece>): seq<Atom> {
    seq(|ps|, i requires 0 <= i < |ps| => AtomOf(ps[i]))
  }

  lemma {:induction false} ReadOnePiece(p: Piece, tail: string)
    ensures ReadAtoms(EmitPiece(p) + tail) == Cons(AtomOf(p), ReadAtoms(tail))
  {
    var t := EmitPiece(p) + tail;
    if p.Param? {
      assert t[..7] == GROUP_TEXT && t[7..] == tail;
    } else if IsSpecial(p.c) {
      assert t[0] == '\\' && t[1] == p.c && t[2..] == tail;
      Differs(t, GROUP_TEXT, 0, 0);
    } else {
      assert t[0] == p.c && t[1..] == tail;
      assert SPECIAL[4] == '(' && SPECIAL[13] == '\\';
      Differs(t, GROUP_TEXT, 0, 0);
    }
  }

  lemma {:induction false} EmittedTextReadsBack(ps: seq<Piece>)
    ensures ReadAtoms(Emit(ps)) == Some(AtomsOf(ps))
    decreases |ps|
  {
    if ps == [] {
      assert AtomsOf(ps) == [];
    } else {
      EmittedTextReadsBack(ps[1..]);
      ReadOnePiece(ps[0], Emit(ps[1..]));
      assert AtomsOf(ps) == [AtomOf(ps[0])] + AtomsOf(ps[1..]);
    }
  }

  // ---- Compilation ----

  datatype Compiled = Compiled(text: string, names: seq<string>) | Rejected(error: PatternError)

  method RegexEscape(s: string) returns (out: string)
    ensures out == Escape(s)
  {
    out := "";
    for i := 0 to |s|
      invariant out + Escape(s[i..]) == Escape(s)
    {
      assert s[i..][1..] == s[i + 1..];
      if IsSpecial(s[i]) { out := out + ['\\']; }
      out := out + [s[i]];
    }
  }

  function Statics(s: string): seq<Piece> {
    seq(|s|, i requires 0 <= i < |s| => Static(s[i]))
  }

  lemma {:induction false} StaticRun(s: string)
    requires '{' !in s
    ensures Emit(Statics(s)) == Escape(s) && Names(Statics(s)) == []
    ensures Spell(Statics(s)) == s && PiecesOk(Statics(s))
    decreases |s|
  {
    if s != "" {
      StaticRun(s[1..]);
      assert Statics(s)[1..] == Statics(s[1..]);
      assert s == [s[0]] + s[1..];
    }
  }

  /** The pieces spelled by the text read so far, and what has been emitted for them. */
  ghost predicate Emitted(text: string, regex: string, names: seq<string>, done: seq<Piece>) {
    PiecesOk(done) && Spell(done) == text && regex == Emit(done) && names == Names(done)
  }

  lemma {:induction false} EmittedMore(text: string, regex: string, names: seq<string>, done: seq<Piece>, more: seq<Piece>)
    requires Emitted(text, regex, names, done) && PiecesOk(more)
    ensures Emitted(text + Spell(more), regex + Emit(more), names + Names(more), done + more)
  {
    ConcatMapAppend(SpellPiece, done, more);
    ConcatMapAppend(EmitPiece, done, more);
    ConcatMapAppend(NamePiece, done, more);
  }

  lemma {:induction false} EmittedStatic(text: string, regex: string, names: seq<string>, done: seq<Piece>, run: string)
    requires Emitted(text, regex, names, done) && '{' !in run
    ensures Emitted(text + run, regex + Escape(run), names, done + Statics(run))
  {
    StaticRun(run);
    EmittedMore(text, regex, names, done, Statics(run));
    assert names + [] == names;
  }

  lemma {:induction false} EmittedParam(text: string, regex: string, names: seq<string>, done: seq<Piece>, name: string)
    requires Emitted(text, regex, names, done) && name != "" && '}' !in name
    ensures Emitted(text + ("{" + name + "}"), regex + GROUP_TEXT, names + [name], done + [Param(name)])
  {
    var p := Param(name);
    ConcatMapOne(SpellPiece, p);
    ConcatMapOne(EmitPiece, p);
    ConcatMapOne(NamePiece, p);
    EmittedMore(text, regex, names, done, [p]);
  }

  /** What the compiler finds from `start`: the end of the pattern, a parameter, or a fault. */
  datatype Segment = Last(text: string) | Parameter(text: string, name: string, next: nat) | Fault(error: PatternError)

  /** Escapes the static run at `start` and reads the parameter that follows it, if any. */
  method CompileSegment(pattern: string, start: nat, ghost regex: string, ghost names: seq<string>, ghost done: seq<Piece>)
    returns (s: Segment, ghost more: seq<Piece>)
    requires start <= |pattern| && Emitted(pattern[..start], regex, names, done)
    ensures match s
            case Last(text) => Emitted(pattern, regex + text, names, more)
            case Parameter(text, name, next) =>
              start < next <= |pattern| && Emitted(pattern[..next], regex + text, names + [name], more)
            case Fault(UnclosedParameter) => exists rest :: UnclosedAfter(pattern, more, rest)
            case Fault(EmptyName) => exists rest :: EmptyNameAfter(pattern, more, rest)
  {
    var brace := IndexOf(pattern, '{', start);
    var pos := if brace.Some? then brace.value else |pattern|;
    var run := RegexEscape(pattern[start..pos]);
    assert Emitted(pattern[..pos], regex + run, names, done + Statics(pattern[start..pos])) by {
      EmittedStatic(pattern[..start], regex, names, done, pattern[start..pos]);
      assert pattern[..start] + pattern[start..pos] == pattern[..pos];
    }
    more := done + Statics(pattern[start..pos]);
    if brace.None? {
      assert pattern[..pos] == pattern;
      return Last(run), more;
    }
    var close := IndexOf(pattern, '}', pos);
    if close.None? {
      UnclosedHere(pattern, pos, more);
      return Fault(UnclosedParameter), more;
    }
    var end := close.value;
    var name := pattern[pos + 1..end];
    if name == "" {
      EmptyNameHere(pattern, pos, more);
      return Fault(EmptyName), more;
    }
    assert Emitted(pattern[..end + 1], regex + (run + GROUP_TEXT), names + [name], more + [Param(name)]) by {
      EmittedParam(pattern[..pos], regex + run, names, more, name);
      ParameterText(pattern, pos, end);
      Regroup(regex, run, GROUP_TEXT);
    }
    more := more + [Param(name)];
    return Parameter(run + GROUP_TEXT, name, end + 1), more;
  }

  lemma {:induction false} ParameterText(pattern: string, pos: nat, end: nat)
    requires pos < end < |pattern| && pattern[pos] == '{' && pattern[end] == '}'
    ensures pattern[..pos] + ("{" + pattern[pos + 1..end] + "}") == pattern[..end + 1]
  {
  }

  lemma {:induction false} UnclosedHere(pattern: string, pos: nat, ps: seq<Piece>)
    requires pos < |pattern| && pattern[pos] == '{' && PiecesOk(ps) && Spell(ps) == pattern[..pos]
    requires forall j :: pos <= j < |pattern| ==> pattern[j] != '}'
    ensures UnclosedAfter(pattern, ps, pattern[pos + 1..])
  {
    assert pattern == pattern[..pos] + "{" + pattern[pos + 1..];
  }

  lemma {:induction false} EmptyNameHere(pattern: string, pos: nat, ps: seq<Piece>)
    requires pos + 1 < |pattern| && pattern[pos] == '{' && pattern[pos + 1] == '}' && PiecesOk(ps) && Spell(ps) == pattern[..pos]
    ensures EmptyNameAfter(pattern, ps, pattern[pos + 2..])
  {
    assert pattern == pattern[..pos] + "{}" + pattern[pos + 2..];
  }

  /**
   The compiler: static runs are escaped, each parameter becomes a group. Its text reads back as
   exactly the atoms of the pattern's pieces, with one group per name.
   */
  method ParsePattern(pattern: string) returns (r: Compiled)
    ensures match Scan(pattern)
            case Pieces(ps) => r.Compiled? && ReadRegex(r.text) == Some(AtomsOf(ps)) && r.names == Names(ps)
            case Bad(e) => r == Rejected(e)
  {
    var regex: string, names: seq<string>, start := "", [], 0;
    ghost var done: seq<Piece> := [];
    while true
      invariant start <= |pattern| && Emitted(pattern[..start], regex, names, done)
      decreases |pattern| - start
    {
      var s: Segment;
      s, done := CompileSegment(pattern, start, regex, names, done);
      match s {
        case Fault(e) =>
          RejectedExactly(pattern);
          return Rejected(e);
        case Last(text) =>
          regex := regex + text;
          FinishedText(pattern, regex, names, done);
          return Compiled("^" + regex + "$", names);
        case Parameter(text, name, next) =>
          regex, names, start := regex + text, names + [name], next;
      }
    }
  }

  lemma {:induction false} FinishedText(pattern: string, regex: string, names: seq<string>, done: seq<Piece>)
    requires Emitted(pattern, regex, names, done)
    ensures Scan(pattern) == Pieces(done) && ReadRegex("^" + regex + "$") == Some(AtomsOf(done))
  {
    AcceptedExactly(pattern, done);
    var t := "^" + regex + "$";
    assert t[1..|t| - 1] == regex;
    EmittedTextReadsBack(done);
  }
}
