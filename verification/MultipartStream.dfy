/** The streaming parser as an object that edits its buffer, field and result in place. */
module MultipartStream {
  import opened Search
  import M = MultipartMachine

  class StreamParser {
    const config: M.Settings
    var phase: M.Phase
    var buffer: string
    var current: Option<M.Field>
    var fieldName: string
    var fieldSize: nat
    var result: seq<M.Field>
    var bytes: nat

    ghost function View(): M.Parser
      reads this
    {
      M.Parser(phase, buffer, current, fieldName, fieldSize, result, bytes)
    }

    constructor (config: M.Settings)
      ensures this.config == config && View() == M.Fresh()
    {
      this.config := config;
      phase, buffer, current, fieldName := M.Boundary, "", None, "";
      fieldSize, result, bytes := 0, [], 0;
    }

    /** Appends `data` and runs stages until one of them needs more. */
    method FeedData(data: string) returns (ok: bool)
      modifies this
      ensures View() == M.Feed(config, old(View()), data)
      ensures ok <==> phase != M.Error
    {
      buffer := buffer + data;
      bytes := bytes + |data|;
      ghost var start := View();
      var waiting := false;
      while !waiting && buffer != "" && phase != M.Complete && phase != M.Error
        invariant if waiting then View() == M.Drive(config, start)
                  else M.Drive(config, View()) == M.Drive(config, start)
        decreases !waiting, |buffer|, M.ContentRank(View())
      {
        ghost var before := View();
        var processed := ProcessStage();
        if processed {
          M.StepDecreases(config, before);
        } else {
          waiting := true;
        }
      }
      ok := phase != M.Error;
    }

    /** Runs the stage for the current phase. */
    method ProcessStage() returns (processed: bool)
      requires M.Running(View())
      modifies this
      ensures M.Outcome(View(), processed) == M.Step(config, old(View()))
    {
      match phase {
        case Boundary => processed := ProcessBoundary();
        case Headers => processed := ProcessHeaders();
        case Content => processed := ProcessContent();
      }
    }

    method ProcessBoundary() returns (processed: bool)
      modifies this
      ensures M.Outcome(View(), processed) == M.ProcessBoundary(config, old(View()))
    {
      var d := config.Delimiter();
      var found := Find(buffer, d);
      if found.None? {
        if |buffer| > |d| + M.SLACK { phase := M.Error; }
        return false;
      }
      buffer := buffer[found.value + |d|..];
      if StartsWith(buffer, "--") {
        phase := M.Complete;
        return true;
      }
      if StartsWith(buffer, M.CRLF) {
        buffer := buffer[2..];
      } else if StartsWith(buffer, "\n") {
        buffer := buffer[1..];
      }
      phase := M.Headers;
      return true;
    }

    method ProcessHeaders() returns (processed: bool)
      modifies this
      ensures M.Outcome(View(), processed) == M.ProcessHeaders(old(View()))
    {
      var extent := M.HeaderExtent(buffer);
      if extent.None? { return false; }
      var headerData := buffer[..extent.value.0];
      buffer := buffer[extent.value.1..];
      var h := ParseHeaderLines(headerData, fieldName);
      current, fieldName := Some(h.field), h.fieldName;
      fieldSize, phase := 0, M.Content;
      return true;
    }

    /** Reads `data` line by line and applies each header line to a new field. */
    static method ParseHeaderLines(data: string, lastName: string) returns (h: M.HeaderState)
      ensures h == M.ParseBlock(data, M.HeaderState(M.NO_FIELD, lastName))
    {
      h := M.HeaderState(M.NO_FIELD, lastName);
      var rest := data;
      while rest != ""
        invariant M.ParseBlock(rest, h) == M.ParseBlock(data, M.HeaderState(M.NO_FIELD, lastName))
        decreases |rest|
      {
        var lf := Find(rest, "\n");
        if lf.None? {
          h := M.ParseLine(rest, h);
          rest := "";
        } else {
          h := M.ParseLine(rest[..lf.value], h);
          rest := rest[lf.value + 1..];
        }
      }
    }

    method ProcessContent() returns (processed: bool)
      modifies this
      ensures M.Outcome(View(), processed) == M.ProcessContent(config, old(View()))
    {
      var d := config.Delimiter();
      var found := Find(buffer, d);
      if found.None? {
        if |buffer| > |d| + M.SLACK {
          WriteContentData(|buffer| - |d| - 10);
          buffer := "";
        }
        return false;
      }
      var at := found.value;
      if at > 0 {
        var end := TrimmedLength(buffer[..at]);
        if end > 0 { WriteContentData(end); }
      }
      buffer := buffer[at..];
      FinalizeCurrentField();
      phase := M.Boundary;
      return true;
    }

    /** Steps back over trailing CR and LF bytes. */
    static method TrimmedLength(s: string) returns (n: nat)
      ensures n == M.ContentEnd(s) && n <= |s|
      ensures n > 0 ==> s[n - 1] != '\n' && s[n - 1] != '\r'
      ensures forall i :: n <= i < |s| ==> s[i] == '\n' || s[i] == '\r'
    {
      n := |s|;
      assert s[..|s|] == s;
      while n > 0 && M.IsLineEnd(s[n - 1])
        invariant n <= |s| && M.ContentEnd(s[..n]) == M.ContentEnd(s)
        invariant forall i :: n <= i < |s| ==> M.IsLineEnd(s[i])
      {
        assert s[..n][..n - 1] == s[..n - 1];
        n := n - 1;
      }
    }

    method WriteContentData(size: nat)
      modifies this
      ensures View() == M.WriteContent(config, old(View()), size)
    {
      if current.None? { return; }
      fieldSize := fieldSize + size;
      if current.value.filename != "" {
        if fieldSize > config.maxFileSize { phase := M.Error; }
      } else {
        if fieldSize > config.maxFieldSize { phase := M.Error; }
      }
    }

    method FinalizeCurrentField()
      modifies this
      ensures View() == M.Finalize(old(View()))
    {
      if current.Some? {
        result := result + [current.value];
        current := None;
      }
    }
  }
}
