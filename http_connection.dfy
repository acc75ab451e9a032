/**
 * HttpConnection.cc: one client connection. `next_request` cuts the next
 * request header (everything up to and including the first "\r\n\r\n") out
 * of what the client has sent, reading more until one is complete and keeping
 * whatever follows it for the next call; `parse_request` turns that header
 * into a request; `write_response` reports whether the write went through.
 */
module HttpConnection {
  import opened Options
  import opened Text
  import opened HttpMessages

  /** kHeaderEnd: the blank line that ends a request header. */
  const HeaderEnd: string := "\r\n\r\n"

  /** A header terminator starts at position `i` of `s`. */
  predicate TerminatorAt(s: string, i: int) {
    0 <= i && i + 4 <= |s|
    && s[i] == HeaderEnd[0] && s[i + 1] == HeaderEnd[1]
    && s[i + 2] == HeaderEnd[2] && s[i + 3] == HeaderEnd[3]
  }

  /** `s.find(kHeaderEnd, from, 4)`: the first terminator at or after `from`; None stands for npos. */
  function FindFrom(s: string, from: nat): (r: Option<nat>)
    decreases |s| - from
    ensures r.Some? ==> from <= r.value && TerminatorAt(s, r.value)
    ensures forall j :: from <= j && TerminatorAt(s, j) ==> r.Some? && r.value <= j
  {
    if from + 4 > |s| then None
    else if TerminatorAt(s, from) then Some(from)
    else FindFrom(s, from + 1)
  }

  /** A terminator with none before it is the one `find` reports. */
  lemma FirstTerminator(s: string, i: nat)
    requires TerminatorAt(s, i)
    requires forall j :: 0 <= j < i ==> !TerminatorAt(s, j)
    ensures FindFrom(s, 0) == Some(i)
  {
  }

  /** Receiving more never moves the first terminator already received. */
  lemma FindExtends(s: string, t: string, i: nat)
    requires FindFrom(s, 0) == Some(i)
    ensures FindFrom(s + t, 0) == Some(i)
  {
    forall j | 0 <= j <= i ensures TerminatorAt(s + t, j) <==> TerminatorAt(s, j) {
      assert forall k :: j <= k < j + 4 ==> (s + t)[k] == s[k];
    }
    FirstTerminator(s + t, i);
  }

  /** One complete request header: it ends with the terminator and holds no earlier one. */
  predicate IsHeaderBlock(b: string) {
    |b| >= 4 && FindFrom(b, 0) == Some(|b| - 4)
  }

  /**
   * The cut next_request makes in its buffer: the header up to and including
   * the first terminator, and the rest kept for the next call; None while no
   * terminator has arrived.
   */
  function Frame(buffer: string): (r: Option<(string, string)>)
    ensures r.None? <==> forall j :: !TerminatorAt(buffer, j)
    ensures r.Some? ==> r.value.0 + r.value.1 == buffer && IsHeaderBlock(r.value.0)
  {
    match FindFrom(buffer, 0)
    case None => None
    case Some(i) =>
      var block := buffer[..i + 4];
      forall j | 0 <= j <= i ensures TerminatorAt(block, j) <==> TerminatorAt(buffer, j) {
        assert forall k :: j <= k < j + 4 ==> block[k] == buffer[k];
      }
      FirstTerminator(block, i);
      assert block + buffer[i + 4..] == buffer;
      Some((block, buffer[i + 4..]))
  }

  /**
   * Back-to-back requests: whatever follows a complete header, the cut
   * returns exactly that header and keeps all of what follows.
   */
  lemma FrameBlock(block: string, rest: string)
    requires IsHeaderBlock(block)
    ensures Frame(block + rest) == Some((block, rest))
  {
    FindExtends(block, rest, |block| - 4);
    assert (block + rest)[..|block|] == block;
    assert (block + rest)[|block|..] == rest;
  }

  // ---------------------------------------------------------------------------
  // parse_request, as a specification
  // ---------------------------------------------------------------------------

  /** boost::is_any_of("\r\n"): each of these characters ends a line. */
  const LineBreaks: set<char> := {'\r', '\n'}

  /** A header name or value as stored: no white space at either end, no capitals. */
  predicate Normalized(s: string) {
    Trimmed(s) && NoUpper(s)
  }

  /** boost::trim and then boost::to_lower, as parse_request applies them to a header name and value. */
  function Normalize(s: string): (r: string)
    ensures Normalized(r)
  {
    TrimTrimmed(s);
    Lower(Trim(s))
  }

  /** Normalizing drops and lower-cases characters, so it never brings in a ':'. */
  lemma NormalizeFree(s: string)
    requires Free(s, {':'})
    ensures Free(Normalize(s), {':'})
  {
    TrimFree(s, {':'});
    LowerFree(Trim(s), {':'});
  }

  /**
   * One non-empty header line: split on runs of ':'; no ':' at all is an
   * error; otherwise the first two pieces, trimmed and lower-cased, are the
   * name and the value, and any further pieces are dropped.
   */
  function HeaderField(line: string): (r: Option<(string, string)>)
    ensures r.None? <==> Free(line, {':'})
    ensures r.Some? ==> Normalized(r.value.0) && Normalized(r.value.1)
    ensures r.Some? ==> Free(r.value.0, {':'}) && Free(r.value.1, {':'})
  {
    var pair := SplitCompressed(line, {':'});
    if |pair| <= 1 then None
    else
      var name := Normalize(pair[0]);
      var value := Normalize(pair[1]);
      assert Free(name, {':'}) && Free(value, {':'}) by {
        SplitCompressedFields(line, {':'});
        NormalizeFree(pair[0]);
        NormalizeFree(pair[1]);
      }
      Some((name, value))
  }

  /**
   * The header lines in order: empty lines are skipped, a non-empty line
   * without ':' fails the parse, and every header line is added, so a later
   * line with the same name replaces an earlier one.
   */
  function AddHeaderLines(req: Request, lines: seq<string>): (r: Option<Request>)
    ensures r.Some? ==> r.value.uri == req.uri
  {
    if lines == [] then Some(req)
    else
      var line := lines[|lines| - 1];
      match AddHeaderLines(req, lines[..|lines| - 1])
      case None => None
      case Some(prev) => AddLine(prev, line)
  }

  /** One line of the header loop: skipped when empty, otherwise parsed and added. */
  function AddLine(req: Request, line: string): (r: Option<Request>)
    ensures r.None? <==> line != [] && Free(line, {':'})
    ensures r.Some? ==> r.value.uri == req.uri
    ensures line == [] ==> r == Some(req)
    ensures line != [] && r.Some? ==>
              r == Some(AddHeader(req, HeaderField(line).value.0, HeaderField(line).value.1))
  {
    if line == [] then Some(req)
    else match HeaderField(line)
      case None => None
      case Some((name, value)) => Some(AddHeader(req, name, value))
  }

  /**
   * parse_request: the block cut into lines on every '\r' and '\n'; the
   * first line split on runs of ' ' must give at least three pieces, the
   * second of which is the URI; the remaining lines are headers.
   */
  function Parse(block: string): (r: Option<Request>)
    ensures r.Some? ==> r.value.uri != "" && Free(r.value.uri, {' '})
  {
    var lines := Split(block, LineBreaks);
    if |lines| == 0 then None
    else
      var components := SplitCompressed(lines[0], {' '});
      if |components| < 3 then None
      else
        SplitCompressedFields(lines[0], {' '});
        AddHeaderLines(DefaultRequest.(uri := components[1]), lines[1..])
  }

  /** The non-empty lines of `lines`, in order. */
  function NonEmptyLines(lines: seq<string>): (r: seq<string>)
    ensures forall k :: 0 <= k < |r| ==> r[k] != []
  {
    if lines == [] then []
    else
      var last := lines[|lines| - 1];
      NonEmptyLines(lines[..|lines| - 1]) + (if last == [] then [] else [last])
  }

  /** Empty lines anywhere among the headers are skipped: only the non-empty ones matter. */
  lemma {:induction false} EmptyLinesSkipped(req: Request, lines: seq<string>)
    ensures AddHeaderLines(req, lines) == AddHeaderLines(req, NonEmptyLines(lines))
  {
    if lines != [] {
      var init, last := lines[..|lines| - 1], lines[|lines| - 1];
      var prev := AddHeaderLines(req, init);
      assert AddHeaderLines(req, lines) == if prev.None? then None else AddLine(prev.value, last);
      EmptyLinesSkipped(req, init);
      if last == [] {
        assert NonEmptyLines(lines) == NonEmptyLines(init);
      } else {
        assert NonEmptyLines(lines) == NonEmptyLines(init) + [last];
        AddHeaderLinesSnoc(req, NonEmptyLines(init), last);
      }
    }
  }

  /** A parse that has failed on some line stays failed whatever lines follow. */
  lemma {:induction false} FailureStays(req: Request, lines: seq<string>, n: nat)
    requires n <= |lines| && AddHeaderLines(req, lines[..n]).None?
    ensures AddHeaderLines(req, lines).None?
    decreases |lines| - n
  {
    if n < |lines| {
      assert lines[..n + 1][..n] == lines[..n];
      FailureStays(req, lines, n + 1);
    } else {
      assert lines[..n] == lines;
    }
  }

  /** A line parse_request rejects: not empty, and no ':' in it. */
  predicate BadLine(line: string) {
    line != [] && Free(line, {':'})
  }

  ghost predicate HasBadLine(lines: seq<string>) {
    exists i :: 0 <= i < |lines| && BadLine(lines[i])
  }

  lemma HasBadLineSnoc(lines: seq<string>)
    requires lines != []
    ensures HasBadLine(lines) <==> HasBadLine(lines[..|lines| - 1]) || BadLine(lines[|lines| - 1])
  {
    var init := lines[..|lines| - 1];
    if HasBadLine(init) {
      var i :| 0 <= i < |init| && BadLine(init[i]);
      assert lines[i] == init[i];
    }
    if HasBadLine(lines) {
      var i :| 0 <= i < |lines| && BadLine(lines[i]);
      if i < |init| {
        assert init[i] == lines[i];
      }
    }
  }

  /** The header lines fail exactly when one of them is bad. */
  lemma {:induction false} AddHeaderLinesFails(req: Request, lines: seq<string>)
    ensures AddHeaderLines(req, lines).None? <==> HasBadLine(lines)
  {
    if lines != [] {
      AddHeaderLinesFails(req, lines[..|lines| - 1]);
      HasBadLineSnoc(lines);
    }
  }

  /** parse_request fails exactly on a request line of fewer than three words or a bad header line. */
  lemma ParseFails(block: string)
    ensures var lines := Split(block, LineBreaks);
      (Parse(block).None? <==> |SplitCompressed(lines[0], {' '})| < 3 || HasBadLine(lines[1..]))
  {
    var lines := Split(block, LineBreaks);
    var components := SplitCompressed(lines[0], {' '});
    if |components| >= 3 {
      AddHeaderLinesFails(DefaultRequest.(uri := components[1]), lines[1..]);
    }
  }

  /** Every stored header name and value is normalized and free of ':'. */
  predicate NormalizedHeaders(req: Request) {
    forall name :: name in req.headers ==>
      Normalized(name) && Normalized(req.headers[name])
      && Free(name, {':'}) && Free(req.headers[name], {':'})
  }

  lemma {:induction false} AddHeaderLinesNormalized(req: Request, lines: seq<string>)
    requires NormalizedHeaders(req) && AddHeaderLines(req, lines).Some?
    ensures NormalizedHeaders(AddHeaderLines(req, lines).value)
  {
    if lines != [] {
      var prev := AddHeaderLines(req, lines[..|lines| - 1]);
      assert prev.Some? && AddHeaderLines(req, lines) == AddLine(prev.value, lines[|lines| - 1]);
      AddHeaderLinesNormalized(req, lines[..|lines| - 1]);
      AddLineNormalized(prev.value, lines[|lines| - 1]);
    }
  }

  lemma AddLineNormalized(req: Request, line: string)
    requires NormalizedHeaders(req) && AddLine(req, line).Some?
    ensures NormalizedHeaders(AddLine(req, line).value)
  {
    if line != [] {
      var field := HeaderField(line).value;
      var headers := req.headers[field.0 := field.1];
      assert AddLine(req, line).value.headers == headers;
      forall k | k in headers
        ensures Normalized(k) && Normalized(headers[k]) && Free(k, {':'}) && Free(headers[k], {':'})
      {
        if k != field.0 {
          assert headers[k] == req.headers[k];
        }
      }
    }
  }

  /** A parsed request holds only trimmed, lower-case header names and values without ':'. */
  lemma ParseNormalizes(block: string)
    requires Parse(block).Some?
    ensures NormalizedHeaders(Parse(block).value)
  {
    var lines := Split(block, LineBreaks);
    var components := SplitCompressed(lines[0], {' '});
    AddHeaderLinesNormalized(DefaultRequest.(uri := components[1]), lines[1..]);
  }

  /**
   * The last line naming a header decides its value: if line `i` names
   * `name` and no later line does, the parsed value is line i's.
   */
  lemma {:induction false} LastLineWins(req: Request, lines: seq<string>, i: nat, name: string, value: string)
    requires AddHeaderLines(req, lines).Some?
    requires i < |lines| && lines[i] != [] && HeaderField(lines[i]) == Some((name, value))
    requires forall j :: i < j < |lines| && lines[j] != [] && HeaderField(lines[j]).Some?
               ==> HeaderField(lines[j]).value.0 != name
    ensures name in AddHeaderLines(req, lines).value.headers
    ensures AddHeaderLines(req, lines).value.headers[name] == value
  {
    var init := lines[..|lines| - 1];
    var last := lines[|lines| - 1];
    var prev := AddHeaderLines(req, init);
    assert prev.Some? && AddHeaderLines(req, lines) == AddLine(prev.value, last);
    if i < |lines| - 1 {
      forall j | i < j < |init| && init[j] != [] && HeaderField(init[j]).Some?
        ensures HeaderField(init[j]).value.0 != name
      {
        assert init[j] == lines[j];
      }
      LastLineWins(req, init, i, name, value);
      AddLineKeeps(prev.value, last, name);
    }
  }

  /** A line that is empty or names another header leaves `name` as it was. */
  lemma AddLineKeeps(req: Request, line: string, name: string)
    requires AddLine(req, line).Some? && name in req.headers
    requires line != [] ==> HeaderField(line).value.0 != name
    ensures name in AddLine(req, line).value.headers
    ensures AddLine(req, line).value.headers[name] == req.headers[name]
  {
  }

  /** `name: value` splits on ':' into the name and the value with its leading space. */
  lemma ColonSplit(name: string, value: string)
    requires Free(name, {':'}) && Free(value, {':'})
    ensures SplitCompressed(name + ": " + value, {':'}) == [name, " " + value]
  {
    var spaced := " " + value;
    var tail := ":" + spaced;
    assert name + ": " + value == name + tail;
    ColonThenField(spaced);
    SplitCompressedFree(name, tail, {':'});
    assert name + "" == name;
  }

  lemma ColonThenField(field: string)
    requires field != [] && field[0] != ':' && Free(field, {':'})
    ensures SplitCompressed(":" + field, {':'}) == ["", field]
  {
    OneWord(field, {':'});
    SplitCompressedRun(":", field, {':'});
  }

  /** A header line written as `name: value` reads back as the lower-cased name and value. */
  lemma HeaderFieldRoundTrip(name: string, value: string)
    requires Trimmed(name) && Trimmed(value) && Free(name, {':'}) && Free(value, {':'})
    ensures HeaderField(HeaderLine(name, value)) == Some((Lower(name), Lower(value)))
  {
    ColonSplit(name, value);
    TrimPadded("", name, "");
    assert "" + name + "" == name;
    TrimPadded(" ", value, "");
    assert " " + value + "" == " " + value;
  }

  /** Splitting text that starts with a line break gives an empty first line. */
  lemma SplitBreak(c: char, s: string)
    requires c in LineBreaks
    ensures Split([c] + s, LineBreaks) == [""] + Split(s, LineBreaks)
  {
    assert ([c] + s)[1..] == s;
  }

  /** "\r\n" ends two lines: the one before it and an empty one between the two characters. */
  lemma CrLf(x: string)
    ensures Split("\r\n" + x, LineBreaks) == ["", ""] + Split(x, LineBreaks)
  {
    SplitBreak('\n', x);
    SplitBreak('\r', "\n" + x);
    assert "\r\n" + x == ['\r'] + ("\n" + x);
    assert "\n" + x == ['\n'] + x;
  }

  /** A line followed by "\r\n" is one line, then an empty one, then the lines of what follows. */
  lemma LineCrLf(line: string, x: string)
    requires Free(line, LineBreaks)
    ensures Split(line + "\r\n" + x, LineBreaks) == [line, ""] + Split(x, LineBreaks)
  {
    CrLf(x);
    SplitFree(line, "\r\n" + x, LineBreaks);
    assert line + "\r\n" + x == line + ("\r\n" + x);
    assert line + "" == line;
  }

  /** The lines of a request line and one header line, then the blank line. */
  lemma RequestLines(line0: string, line1: string)
    requires Free(line0, LineBreaks) && Free(line1, LineBreaks)
    ensures Split(line0 + "\r\n" + line1 + "\r\n\r\n", LineBreaks)
         == [line0, "", line1, "", "", "", ""]
  {
    CrLf("");
    assert "\r\n" + "" == "\r\n";
    LineCrLf(line1, "\r\n");
    LineCrLf(line0, line1 + "\r\n" + "\r\n");
    assert line0 + "\r\n" + line1 + "\r\n\r\n" == line0 + "\r\n" + (line1 + "\r\n" + "\r\n");
  }

  /** An empty line at the end changes nothing. */
  lemma BlankLast(req: Request, lines: seq<string>)
    ensures AddHeaderLines(req, lines + [""]) == AddHeaderLines(req, lines)
  {
    assert (lines + [""])[..|lines|] == lines;
  }

  /** The header lines of RequestLines: one header between empty lines. */
  lemma OneHeaderLine(req: Request, line: string, name: string, value: string)
    requires line != [] && HeaderField(line) == Some((name, value))
    ensures AddHeaderLines(req, ["", line, "", "", "", ""]) == Some(AddHeader(req, name, value))
  {
    var two := ["", line];
    assert AddHeaderLines(req, [""]) == Some(req) by {
      AddHeaderLinesSnoc(req, [], "");
      assert [] + [""] == [""];
    }
    assert AddHeaderLines(req, two) == Some(AddHeader(req, name, value)) by {
      AddHeaderLinesSnoc(req, [""], line);
      assert [""] + [line] == two;
    }
    var all := ["", line, "", "", "", ""];
    assert all == two + all[2..];
    BlankLines(req, two, all[2..]);
  }

  /** Trailing empty lines change nothing. */
  lemma {:induction false} BlankLines(req: Request, lines: seq<string>, blanks: seq<string>)
    requires forall k :: 0 <= k < |blanks| ==> blanks[k] == ""
    ensures AddHeaderLines(req, lines + blanks) == AddHeaderLines(req, lines)
  {
    if blanks == [] {
      assert lines + blanks == lines;
    } else {
      var init := blanks[..|blanks| - 1];
      BlankLines(req, lines, init);
      assert lines + blanks == (lines + init) + [""];
      BlankLast(req, lines + init);
    }
  }

  /** Adding one line to the end: the parse so far, then that line. */
  lemma AddHeaderLinesSnoc(req: Request, lines: seq<string>, line: string)
    ensures AddHeaderLines(req, lines + [line])
         == if AddHeaderLines(req, lines).None? then None else AddLine(AddHeaderLines(req, lines).value, line)
  {
    assert (lines + [line])[..|lines|] == lines;
  }

  /** Parse reads the URI off the request line's words and the headers off the remaining lines. */
  lemma ParseLines(block: string, line0: string, rest: seq<string>, verb: string, uri: string, version: string)
    requires Split(block, LineBreaks) == [line0] + rest
    requires SplitCompressed(line0, {' '}) == [verb, uri, version]
    ensures Parse(block) == AddHeaderLines(DefaultRequest.(uri := uri), rest)
  {
    assert ([line0] + rest)[1..] == rest;
  }

  /** A word of the request line: not empty, no space, no line break. */
  predicate Word(w: string) {
    w != [] && Free(w, {' '}) && Free(w, LineBreaks)
  }

  /** A header name or value that reads back unchanged up to case: trimmed, no ':', no line break. */
  predicate FieldText(s: string) {
    Trimmed(s) && Free(s, {':'}) && Free(s, LineBreaks)
  }

  /** A request line as a client writes it. */
  function RequestLine(verb: string, uri: string, version: string): string {
    verb + " " + uri + " " + version
  }

  /** A header line as a client writes it. */
  function HeaderLine(name: string, value: string): string {
    name + ": " + value
  }

  /** A request with one header as a client sends it, ending with the blank line. */
  function RequestText(verb: string, uri: string, version: string, name: string, value: string): string {
    RequestLine(verb, uri, version) + "\r\n" + HeaderLine(name, value) + "\r\n\r\n"
  }

  lemma RequestLineWords(verb: string, uri: string, version: string)
    requires Word(verb) && Word(uri) && Word(version)
    ensures Free(RequestLine(verb, uri, version), LineBreaks)
    ensures SplitCompressed(RequestLine(verb, uri, version), {' '}) == [verb, uri, version]
  {
    assert Free(" ", LineBreaks);
    FreeConcat(verb, " ", LineBreaks);
    FreeConcat(verb + " ", uri, LineBreaks);
    FreeConcat(verb + " " + uri, " ", LineBreaks);
    FreeConcat(verb + " " + uri + " ", version, LineBreaks);
    ThreeWords(verb, " ", uri, " ", version, {' '});
  }

  lemma HeaderLineFree(name: string, value: string)
    requires FieldText(name) && FieldText(value)
    ensures Free(HeaderLine(name, value), LineBreaks) && HeaderLine(name, value) != []
  {
    assert Free(": ", LineBreaks);
    FreeConcat(name, ": ", LineBreaks);
    FreeConcat(name + ": ", value, LineBreaks);
  }

  /**
   * A request line and one header, written out, parse back: the URI is the
   * middle word of the request line and the header is stored under its
   * lower-cased name with its lower-cased value.
   */
  lemma ParseRoundTrip(verb: string, uri: string, version: string, name: string, value: string)
    requires Word(verb) && Word(uri) && Word(version)
    requires FieldText(name) && FieldText(value)
    ensures Parse(RequestText(verb, uri, version, name, value))
         == Some(Request(uri, map[Lower(name) := Lower(value)]))
  {
    var line0 := RequestLine(verb, uri, version);
    var line1 := HeaderLine(name, value);
    var text := RequestText(verb, uri, version, name, value);
    var rest := ["", line1, "", "", "", ""];
    assert Split(text, LineBreaks) == [line0] + rest by {
      RequestLineWords(verb, uri, version);
      HeaderLineFree(name, value);
      RequestLines(line0, line1);
      assert [line0, "", line1, "", "", "", ""] == [line0] + rest;
    }
    assert SplitCompressed(line0, {' '}) == [verb, uri, version] by {
      RequestLineWords(verb, uri, version);
    }
    var start := DefaultRequest.(uri := uri);
    assert Parse(text) == AddHeaderLines(start, rest) by {
      ParseLines(text, line0, rest, verb, uri, version);
    }
    assert AddHeaderLines(start, rest) == Some(AddHeader(start, Lower(name), Lower(value))) by {
      assert line1 != [] && HeaderField(line1) == Some((Lower(name), Lower(value))) by {
        HeaderLineFree(name, value);
        HeaderFieldRoundTrip(name, value);
      }
      OneHeaderLine(start, line1, Lower(name), Lower(value));
    }
  }

  // ---------------------------------------------------------------------------
  // parse_request, as the source does it
  // ---------------------------------------------------------------------------

  lemma AddHeaderLinesStep(start: Request, lines: seq<string>, i: nat, req: Request)
    requires i < |lines| && AddHeaderLines(start, lines[..i]) == Some(req)
    ensures AddHeaderLines(start, lines[..i + 1]) == AddLine(req, lines[i])
  {
    assert lines[..i + 1][..i] == lines[..i];
  }

  lemma AddLinePieces(req: Request, line: string)
    requires line != []
    ensures var pair := SplitCompressed(line, {':'});
            && (|pair| <= 1 ==> AddLine(req, line).None?)
            && (|pair| > 1 ==> AddLine(req, line) == Some(AddHeader(req, Normalize(pair[0]), Normalize(pair[1]))))
  {
  }

  /** The loop over the pieces of a header line that trims and lower-cases each one in place. */
  method NormalizePieces(pair: seq<string>) returns (normalized: seq<string>)
    ensures |normalized| == |pair|
    ensures forall j :: 0 <= j < |pair| ==> normalized[j] == Normalize(pair[j])
  {
    normalized := pair;
    for k := 0 to |pair|
      invariant |normalized| == |pair|
      invariant forall j :: 0 <= j < k ==> normalized[j] == Normalize(pair[j])
      invariant forall j :: k <= j < |pair| ==> normalized[j] == pair[j]
    {
      normalized := normalized[k := Normalize(normalized[k])];
    }
  }

  /**
   * parse_request(request, out): true with the parsed request in `out`, or
   * false with `out` left as it was.
   */
  method ParseRequest(request: string, prior: Request) returns (ok: bool, out: Request)
    ensures ok <==> Parse(request).Some?
    ensures out == if ok then Parse(request).value else prior
  {
    var req := DefaultRequest;
    var lines := Split(request, LineBreaks);
    if |lines| == 0 {
      return false, prior;
    }
    var components := SplitCompressed(lines[0], {' '});
    if |components| < 3 {
      return false, prior;
    }
    req := req.(uri := components[1]);
    ok, req := ParseHeaderLines(req, lines[1..]);
    out := if ok then req else prior;
  }

  /** The loop of parse_request over the lines after the request line. */
  method ParseHeaderLines(start: Request, lines: seq<string>) returns (ok: bool, req: Request)
    ensures ok <==> AddHeaderLines(start, lines).Some?
    ensures ok ==> AddHeaderLines(start, lines) == Some(req)
  {
    req := start;
    for i := 0 to |lines|
      invariant AddHeaderLines(start, lines[..i]) == Some(req)
    {
      AddHeaderLinesStep(start, lines, i, req);
      if lines[i] != [] {
        AddLinePieces(req, lines[i]);
        var pair := SplitCompressed(lines[i], {':'});
        if |pair| <= 1 {
          assert AddHeaderLines(start, lines).None? by {
            FailureStays(start, lines, i + 1);
          }
          return false, req;
        }
        var normalized := NormalizePieces(pair);
        req := AddHeader(req, normalized[0], normalized[1]);
      }
    }
    assert lines[..|lines|] == lines;
    ok := true;
  }

  // ---------------------------------------------------------------------------
  // the connection
  // ---------------------------------------------------------------------------

  /** A header complete in the buffer is cut the same way whatever is still to come after it. */
  lemma CutHeader(buffer: string, more: string)
    requires Frame(buffer).Some?
    ensures Frame(buffer + more) == Some((Frame(buffer).value.0, Frame(buffer).value.1 + more))
  {
    var (header, rest) := Frame(buffer).value;
    FrameBlock(header, rest + more);
    assert buffer + more == header + (rest + more);
  }

  /** Chunks received one after another, as one string. */
  function Concat(chunks: seq<string>): (r: string)
    ensures chunks != [] ==> r == chunks[0] + Concat(chunks[1..])
  {
    if chunks == [] then "" else chunks[0] + Concat(chunks[1..])
  }

  /** Reading one more chunk appends it. */
  lemma {:induction false} ConcatSnoc(chunks: seq<string>, k: nat)
    requires k < |chunks|
    ensures Concat(chunks[..k + 1]) == Concat(chunks[..k]) + chunks[k]
  {
    if k > 0 {
      ConcatSnoc(chunks[1..], k - 1);
      assert chunks[..k + 1][1..] == chunks[1..][..k];
      assert chunks[..k][1..] == chunks[1..][..k - 1];
    }
  }

  /**
   * The reads from `before`, starting with `buffer` buffered, that leave
   * `after` still to come: the chunks read are the first ones, and each
   * chunk but the last one read was read while no terminator was buffered.
   */
  ghost predicate ReadsStopAtHeader(buffer: string, before: seq<string>, after: seq<string>) {
    && |after| <= |before| && after == before[|before| - |after|..]
    && (|after| < |before| ==> FindFrom(buffer + Concat(before[..|before| - |after| - 1]), 0).None?)
  }

  /** One more read while no terminator is buffered keeps the reads stopping at the header. */
  lemma ReadStep(buffer0: string, before: seq<string>, buffer: string, after: seq<string>)
    requires ReadsStopAtHeader(buffer0, before, after) && after != []
    requires buffer == buffer0 + Concat(before[..|before| - |after|])
    requires FindFrom(buffer, 0).None?
    ensures ReadsStopAtHeader(buffer0, before, after[1..])
    ensures buffer + after[0] == buffer0 + Concat(before[..|before| - |after[1..]|])
  {
    var read := |before| - |after|;
    assert after[0] == before[read];
    ConcatSnoc(before, read);
    assert after[1..] == before[read + 1..];
  }

  class Connection {
    /** buffer_: received and not yet consumed. */
    var buffer: string
    /** What the client has yet to send, one chunk per wrapped_read. */
    var pending: seq<string>
    /** Every response handed to write_response, in order. */
    var written: seq<Response>

    constructor (chunks: seq<string>)
      ensures buffer == "" && pending == chunks && written == []
    {
      buffer := "";
      pending := chunks;
      written := [];
    }

    /** Everything received or still to come that no call has consumed yet. */
    ghost function Unread(): string
      reads this
    {
      buffer + Concat(pending)
    }

    /**
     * next_request: reads until the buffer holds a complete header, cuts it
     * off, keeps the rest in the buffer and parses the header into `request`
     * (left as `prior` when the parse fails). No read happens when the buffer
     * already holds a complete header.
     */
    method NextRequest(prior: Request) returns (ok: bool, request: Request)
      modifies this`buffer, this`pending
      ensures ReadsStopAtHeader(old(buffer), old(pending), pending)
      ensures Frame(old(Unread())).None? ==>
                !ok && request == prior && pending == [] && buffer == old(Unread())
      ensures Frame(old(Unread())).Some? ==>
                Unread() == Frame(old(Unread())).value.1
                && (ok <==> Parse(Frame(old(Unread())).value.0).Some?)
                && request == (if ok then Parse(Frame(old(Unread())).value.0).value else prior)
      ensures Frame(old(buffer)).Some? ==> pending == old(pending)
    {
      var newRequest := TakeHeader();
      if newRequest.None? {
        return false, prior;
      }
      ok, request := ParseRequest(newRequest.value, prior);
    }

    /**
     * The framing part of next_request: read until the buffer holds a
     * complete header, then cut the header off and keep the rest buffered.
     */
    method TakeHeader() returns (block: Option<string>)
      modifies this`buffer, this`pending
      ensures ReadsStopAtHeader(old(buffer), old(pending), pending)
      ensures Frame(old(Unread())).None? ==>
                block.None? && pending == [] && buffer == old(Unread())
      ensures Frame(old(Unread())).Some? ==>
                block == Some(Frame(old(Unread())).value.0) && Unread() == Frame(old(Unread())).value.1
      ensures Frame(old(buffer)).Some? ==> pending == old(pending)
    {
      ghost var unread := Unread();
      var ptr := ReadUntilHeader();
      if ptr.None? {
        assert buffer == unread by {
          assert Concat(pending) == "";
        }
        return None;
      }
      CutHeader(buffer, Concat(pending));
      assert Frame(buffer) == Some((buffer[..ptr.value + 4], buffer[ptr.value + 4..]));
      block := Some(buffer[..ptr.value + 4]);
      buffer := buffer[ptr.value + 4..];
    }

    /**
     * The read loop of next_request: append chunks to the buffer until it
     * holds the header terminator, which `ptr` locates; None once the input
     * runs out without one.
     */
    method ReadUntilHeader() returns (ptr: Option<nat>)
      modifies this`buffer, this`pending
      ensures Unread() == old(Unread())
      ensures ptr == FindFrom(buffer, 0)
      ensures ptr.None? ==> pending == [] && Frame(old(Unread())).None?
      ensures Frame(old(buffer)).Some? ==> buffer == old(buffer) && pending == old(pending)
      ensures ReadsStopAtHeader(old(buffer), old(pending), pending)
      ensures buffer == old(buffer) + Concat(old(pending)[..|old(pending)| - |pending|])
    {
      ptr := FindFrom(buffer, 0);
      while ptr.None?
        invariant Unread() == old(Unread())
        invariant ptr == FindFrom(buffer, 0)
        invariant Frame(old(buffer)).Some? ==> buffer == old(buffer) && pending == old(pending)
        invariant ReadsStopAtHeader(old(buffer), old(pending), pending)
        invariant buffer == old(buffer) + Concat(old(pending)[..|old(pending)| - |pending|])
        decreases |pending|
      {
        if pending == [] {
          assert Unread() == buffer;
          return;
        }
        ReadStep(old(buffer), old(pending), buffer, pending);
        ReadChunk();
        ptr := FindFrom(buffer, 0);
      }
    }

    /** One wrapped_read: the next chunk moves from the client to the buffer. */
    method ReadChunk()
      requires pending != []
      modifies this`buffer, this`pending
      ensures buffer == old(buffer) + old(pending)[0] && pending == old(pending)[1..]
      ensures Unread() == old(Unread())
    {
      assert buffer + Concat(pending) == (buffer + pending[0]) + Concat(pending[1..]);
      buffer := buffer + pending[0];
      pending := pending[1..];
    }

    /**
     * write_response: `status` is what wrapped_write returned for the
     * response; the write succeeded exactly when it is not negative.
     */
    method WriteResponse(response: Response, status: int) returns (ok: bool)
      modifies this`written
      ensures written == old(written) + [response]
      ensures ok <==> status >= 0
    {
      written := written + [response];
      ok := status >= 0;
    }
  }
}
