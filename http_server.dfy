/**
 * HttpServer.cc without its accept loop: the per-connection request loop,
 * the router that sends "/static/" URIs to the file handler and everything
 * else to the search page, and the two handlers.
 *
 * The helpers the handlers call but whose code is not part of this model
 * (URLParser, is_path_safe, FileReader::read_file, escape_html) are the
 * fields of an `Env`; the handlers may assume nothing of them beyond what
 * `FileRequestOk` states.
 */
module HttpServer {
  import opened Options
  import opened Text
  import opened HttpMessages
  import opened WordIndex
  import HttpConnection

  datatype Env = Env(
    /** URLParser::path() after parsing the URI. */
    urlPath: string -> string,
    /** URLParser::args() after parsing the URI. */
    urlArgs: string -> map<string, string>,
    /** is_path_safe(base_dir, file_name). */
    pathSafe: (string, string) -> bool,
    /** FileReader(file_name).read_file: the contents, or None when it fails. */
    readFile: string -> Option<string>,
    /** escape_html. */
    escapeHtml: string -> string)

  const StaticPrefix: string := "/static/"

  // ---------------------------------------------------------------------------
  // ProcessRequest's routing test
  // ---------------------------------------------------------------------------

  /** std::string::substr(0, n): the first n characters, or all of a shorter string. */
  function Prefix(s: string, n: nat): (r: string)
    ensures r <= s
    ensures |r| == if |s| < n then |s| else n
  {
    if |s| < n then s else s[..n]
  }

  /** `req.uri().substr(0, 8) == "/static/"`. */
  predicate IsStaticUri(uri: string) {
    Prefix(uri, 8) == StaticPrefix
  }

  /** The router's test is exactly "the URI starts with /static/"; a shorter URI never matches. */
  lemma IsStaticIff(uri: string)
    ensures IsStaticUri(uri) <==> StaticPrefix <= uri
  {
    if StaticPrefix <= uri {
      assert uri[..8] == StaticPrefix;
    }
  }

  // ---------------------------------------------------------------------------
  // ProcessFileRequest
  // ---------------------------------------------------------------------------

  /** The file name: the parsed path after "/static/". */
  function FileName(env: Env, uri: string): string
    requires |env.urlPath(uri)| >= 8
  {
    env.urlPath(uri)[8..]
  }

  /**
   * What ProcessFileRequest needs of its helpers: `substr(8)` needs a path
   * of at least 8 characters, and `name_and_suffix[1]` needs a '.' in the
   * name of a file that is served.
   */
  predicate FileRequestOk(env: Env, baseDir: string, uri: string) {
    && |env.urlPath(uri)| >= 8
    && (env.pathSafe(baseDir, FileName(env, uri)) && env.readFile(FileName(env, uri)).Some?
        ==> '.' in FileName(env, uri))
  }

  /** The suffix ProcessFileRequest looks at: the second piece of the name split on every '.'. */
  function Suffix(name: string): (r: string)
    requires '.' in name
    ensures Free(r, {'.'})
  {
    assert !Free(name, {'.'});
    Split(name, {'.'})[1]
  }

  /**
   * The suffix is what lies between the first and the second '.', not
   * after the last one: "a.tar.gz" has suffix "tar".
   */
  lemma {:induction false} SuffixBetweenDots(base: string, suffix: string, rest: string)
    requires Free(base, {'.'}) && Free(suffix, {'.'})
    requires rest == [] || rest[0] == '.'
    ensures Suffix(base + "." + suffix + rest) == suffix
  {
    var seps := {'.'};
    var tail := suffix + rest;
    assert Split(rest, seps)[0] == "" by {
      if rest != [] {
        assert rest[0] in seps;
      }
    }
    SplitFree(suffix, rest, seps);
    assert Split(tail, seps)[0] == suffix;
    assert ("." + tail)[1..] == tail;
    assert Split("." + tail, seps) == [""] + Split(tail, seps);
    SplitFree(base, "." + tail, seps);
    assert base + "." + suffix + rest == base + ("." + tail);
  }

  /** The if-chain of lines 250-274: the content type for a suffix, None for one it does not know. */
  function ContentType(suffix: string): Option<string> {
    if suffix == "html" || suffix == "htm" then Some("text/html")
    else if suffix == "jpeg" || suffix == "jpg" then Some("image/jpeg")
    else if suffix == "png" then Some("image/png")
    else if suffix == "gif" then Some("image/gif")
    else if suffix == "txt" then Some("text/plain")
    else if suffix == "js" then Some("text/javascript")
    else if suffix == "css" then Some("text/css")
    else if suffix == "xml" then Some("text/xml")
    else if suffix == "mp3" then Some("audio/mpeg")
    else if suffix == "mp4" then Some("video/mp4")
    else if suffix == "mpeg" then Some("video/mpeg")
    else if suffix == "zip" then Some("application/zip")
    else None
  }

  /** The suffixes the server knows, as a table. */
  const ContentTypes: map<string, string> := map[
    "html" := "text/html", "htm" := "text/html",
    "jpeg" := "image/jpeg", "jpg" := "image/jpeg",
    "png" := "image/png", "gif" := "image/gif",
    "txt" := "text/plain", "js" := "text/javascript",
    "css" := "text/css", "xml" := "text/xml",
    "mp3" := "audio/mpeg", "mp4" := "video/mp4",
    "mpeg" := "video/mpeg", "zip" := "application/zip"]

  /** The if-chain agrees with the table: a known suffix gets its type, any other none. */
  lemma ContentTypeIsTable(suffix: string)
    ensures ContentType(suffix) == if suffix in ContentTypes then Some(ContentTypes[suffix]) else None
  {
  }

  /**
   * ProcessFileRequest: 400 when the path is unsafe (checked before any
   * read), else 404 when the file cannot be read, else 200 with the file's
   * contents and the content type of its suffix.
   */
  function FileResponse(env: Env, baseDir: string, uri: string): (r: Response)
    requires FileRequestOk(env, baseDir, uri)
    ensures r.protocol == "HTTP/1.1"
    ensures r.code == 400 <==> !env.pathSafe(baseDir, FileName(env, uri))
    ensures r.code == 404 <==> env.pathSafe(baseDir, FileName(env, uri)) && env.readFile(FileName(env, uri)).None?
    ensures r.code == 200 <==> env.pathSafe(baseDir, FileName(env, uri)) && env.readFile(FileName(env, uri)).Some?
    ensures r.code == 200 ==> r.body == env.readFile(FileName(env, uri)).value
    ensures r.code == 200 ==> r.contentType == ContentType(Suffix(FileName(env, uri)))
    ensures r.code != 200 ==> r.contentType == None
  {
    var name := FileName(env, uri);
    if !env.pathSafe(baseDir, name) then
      Response("HTTP/1.1", 400, "Path Not Safe", None,
        "<html><body>Path not safe \"" + env.escapeHtml(name) + "\"</body></html>\n")
    else match env.readFile(name)
      case None =>
        Response("HTTP/1.1", 404, "Not Found", None,
          "<html><body>Couldn't find file \"" + env.escapeHtml(name) + "\"</body></html>\n")
      case Some(content) =>
        Response("HTTP/1.1", 200, "Success", ContentType(Suffix(name)), content)
  }

  // ---------------------------------------------------------------------------
  // ProcessQueryRequest
  // ---------------------------------------------------------------------------

  /** kFivegleStr, the logo and the search form; its markup is not part of this model. */
  const Landing: string

  /** The `terms` argument split on every single space, as handed to lookup_query; None without one. */
  function QueryWords(env: Env, uri: string): (r: Option<seq<string>>)
    ensures r.Some? <==> "terms" in env.urlArgs(uri)
    ensures r.Some? ==> |r.value| >= 1 && forall k :: 0 <= k < |r.value| ==> Free(r.value[k], {' '})
  {
    var args := env.urlArgs(uri);
    if "terms" !in args then None else Some(Split(args["terms"], {' '}))
  }

  /** The results the page lists: lookup_query on the words, none without a `terms` argument. */
  function QueryAnswer(env: Env, uri: string, t: Table, docs: seq<string>, less: (Result, Result) -> bool): seq<Result>
    requires StrictOrder(less)
  {
    match QueryWords(env, uri)
    case None => []
    case Some(q) => Sort(QueryResults(t, docs, q), less)
  }

  /** The table after the page is built: lookup_query's probes, or untouched without a `terms` argument. */
  ghost function QueryTable(env: Env, uri: string, t: Table, docs: seq<string>): Table {
    match QueryWords(env, uri)
    case None => t
    case Some(q) => AddEmpty(t, Probed(t, docs, q))
  }

  /**
   * The page lists exactly the qualifying documents with their ranks, each
   * once, and nothing without a `terms` argument.
   */
  lemma QueryAnswerExact(env: Env, uri: string, t: Table, docs: seq<string>, less: (Result, Result) -> bool, r: Result)
    requires StrictOrder(less) && NoDuplicates(docs)
    ensures QueryWords(env, uri).None? ==> QueryAnswer(env, uri, t, docs, less) == []
    ensures QueryWords(env, uri).Some? ==>
              var q := QueryWords(env, uri).value;
              multiset(QueryAnswer(env, uri, t, docs, less))[r]
                == if r.docName in docs && Qualifies(t, q, r.docName) && r.rank == Rank(t, q, r.docName) then 1 else 0
  {
    if QueryWords(env, uri).Some? {
      QueryResultsExact(t, docs, QueryWords(env, uri).value);
    }
  }

  /** One list item: a link to the document under /static/ and its rank. */
  function Item(r: Result): string {
    " <li> <a href=\"/static/" + r.docName + "\">" + r.docName + "</a>" + "[" + IntToString(r.rank) + "]<br>\n"
  }

  /** The markup of each of `results` in turn, `item` giving one result's. */
  function Rendered(results: seq<Result>, item: Result -> string): string {
    if results == [] then ""
    else Rendered(results[..|results| - 1], item) + item(results[|results| - 1])
  }

  lemma Associative(x: string, y: string, z: string)
    ensures (x + y) + z == x + (y + z)
  {
  }

  /** Appending pieces one at a time to `h` appends their concatenation. */
  lemma Regroup(h: string, a: string, b: string, c: string, d: string, e: string, f: string)
    ensures h + a + b + c + d + e + f == h + (a + b + c + d + e + f)
  {
    Associative(h, a, b);
    Associative(h, a + b, c);
    Associative(h, a + b + c, d);
    Associative(h, a + b + c + d, e);
    Associative(h, a + b + c + d + e, f);
  }

  /** Rendering two runs of results gives the first's markup followed by the second's. */
  lemma {:induction false} RenderedConcat(a: seq<Result>, b: seq<Result>, item: Result -> string)
    ensures Rendered(a + b, item) == Rendered(a, item) + Rendered(b, item)
  {
    if b != [] {
      var b', last := b[..|b| - 1], b[|b| - 1];
      assert (a + b)[..|a + b| - 1] == a + b';
      assert (a + b)[|a + b| - 1] == last;
      assert Rendered(a + b, item) == Rendered(a + b', item) + item(last);
      RenderedConcat(a, b', item);
      assert Rendered(b, item) == Rendered(b', item) + item(last);
      Associative(Rendered(a, item), Rendered(b', item), item(last));
    } else {
      assert a + b == a;
      assert Rendered(a, item) + "" == Rendered(a, item);
    }
  }

  /**
   * One piece of markup per result, in result order: result k's comes right
   * after those of the results before it and right before those after it.
   */
  lemma RenderedInOrder(results: seq<Result>, k: nat, item: Result -> string)
    requires k < |results|
    ensures Rendered(results, item)
         == Rendered(results[..k], item) + item(results[k]) + Rendered(results[k + 1..], item)
  {
    var upto, rest := results[..k + 1], results[k + 1..];
    assert Rendered(upto, item) == Rendered(results[..k], item) + item(results[k]) by {
      assert upto[..k] == results[..k] && upto[k] == results[k];
    }
    assert Rendered(results, item) == Rendered(upto, item) + Rendered(rest, item) by {
      assert upto + rest == results;
      RenderedConcat(upto, rest, item);
    }
  }

  /**
   * The line above the list: the number of results in decimal, so that the
   * digits it starts with read back as exactly that number, then the
   * escaped search terms.
   */
  function CountLine(n: nat, escapedTerms: string): (r: string)
    ensures var digits := NatToString(n);
      digits <= r && DigitsValue(digits) == n && |r| > |digits| && r[|digits|] == ' '
  {
    NatToString(n) + " results found for <b>" + escapedTerms + "</b>\n</p>\n"
  }

  /**
   * The body of the search page for `results`: the landing page, then
   * either nothing more, or "No results found" with the terms as typed, or
   * the count line and one list item per result.
   */
  function QueryBody(env: Env, uri: string, results: seq<Result>): string {
    var args := env.urlArgs(uri);
    if "terms" !in args then Landing + "</body>\n</html>\n"
    else
      var terms := args["terms"];
      Landing + ResultsText(terms, env.escapeHtml(terms), results)
  }

  /** ProcessQueryRequest's response: always 200, with the search page as body. */
  function QueryResponse(env: Env, uri: string, t: Table, docs: seq<string>, less: (Result, Result) -> bool): (r: Response)
    requires StrictOrder(less)
    ensures r.protocol == "HTTP/1.1" && r.code == 200 && r.message == "Success" && r.contentType == None
  {
    Response("HTTP/1.1", 200, "Success", None, QueryBody(env, uri, QueryAnswer(env, uri, t, docs, less)))
  }

  /** The page after the landing part when there is a `terms` argument. */
  function ResultsText(terms: string, escapedTerms: string, results: seq<Result>): string {
    if |results| == 0 then
      "<p><br>\nNo results found for <b>" + terms + "</b>\n<p>\n</body>\n</html>\n"
    else
      "<p><br>\n" + CountLine(|results|, escapedTerms) + "\n<ul>\n"
      + Rendered(results, Item) + "</ul>\n" + "</body>\n</html>\n"
  }

  /** Lines 338-351: the rest of the page appended to `html`, one list item per result. */
  method AppendResults(html: string, terms: string, escapedTerms: string, results: seq<Result>) returns (page: string)
    ensures page == html + ResultsText(terms, escapedTerms, results)
  {
    page := html;
    if |results| == 0 {
      page := page + ("<p><br>\nNo results found for <b>" + terms + "</b>\n<p>\n</body>\n</html>\n");
    } else {
      page := page + "<p><br>\n";
      page := page + CountLine(|results|, escapedTerms);
      page := page + "\n<ul>\n";
      ghost var head := page;
      for k := 0 to |results|
        invariant page == head + Rendered(results[..k], Item)
      {
        assert results[..k + 1][..k] == results[..k];
        Associative(head, Rendered(results[..k], Item), Item(results[k]));
        page := page + Item(results[k]);
      }
      assert results[..|results|] == results;
      page := page + "</ul>\n";
      page := page + "</body>\n</html>\n";
      Regroup(html, "<p><br>\n", CountLine(|results|, escapedTerms), "\n<ul>\n",
              Rendered(results, Item), "</ul>\n", "</body>\n</html>\n");
    }
  }

  /**
   * ProcessQueryRequest: the page for the `terms` argument; lookup_query
   * runs only when there is one, and its probes are the only change to the
   * index.
   */
  method ProcessQueryRequest(uri: string, index: Index, env: Env) returns (r: Response)
    requires index.Valid()
    modifies index`table
    ensures index.Valid()
    ensures r == QueryResponse(env, uri, old(index.table), index.docs, index.less)
    ensures index.table == QueryTable(env, uri, old(index.table), index.docs)
  {
    var args := env.urlArgs(uri);
    var html := Landing;
    if "terms" !in args {
      html := html + "</body>\n</html>\n";
      return Response("HTTP/1.1", 200, "Success", None, html);
    }
    var terms := args["terms"];
    var words := Split(terms, {' '});
    var results := index.LookupQuery(words);
    html := AppendResults(html, terms, env.escapeHtml(terms), results);
    r := Response("HTTP/1.1", 200, "Success", None, html);
  }

  // ---------------------------------------------------------------------------
  // ProcessRequest
  // ---------------------------------------------------------------------------

  /**
   * ProcessRequest can answer a request for `uri`: a search always, a file
   * request when its helpers give ProcessFileRequest what it needs.
   */
  predicate CanHandle(env: Env, baseDir: string, uri: string) {
    IsStaticUri(uri) ==> FileRequestOk(env, baseDir, uri)
  }

  /** Every static URI meets what ProcessFileRequest needs of the helpers. */
  ghost predicate ServesFiles(env: Env, baseDir: string) {
    forall uri :: IsStaticUri(uri) ==> FileRequestOk(env, baseDir, uri)
  }

  /** ProcessRequest's response for `req` and the table it leaves behind. */
  ghost function Handle(req: Request, t: Table, docs: seq<string>, less: (Result, Result) -> bool,
                        baseDir: string, env: Env): (r: (Response, Table))
    requires StrictOrder(less) && CanHandle(env, baseDir, req.uri)
    ensures r.0.protocol == "HTTP/1.1"
    ensures !IsStaticUri(req.uri) ==> r.0.code == 200
  {
    if IsStaticUri(req.uri) then (FileResponse(env, baseDir, req.uri), t)
    else (QueryResponse(env, req.uri, t, docs, less), QueryTable(env, req.uri, t, docs))
  }

  /** File requests never touch the index, and no request changes a posting or a count. */
  lemma HandleKeepsPostings(req: Request, t: Table, docs: seq<string>, less: (Result, Result) -> bool,
                            baseDir: string, env: Env)
    requires StrictOrder(less) && CanHandle(env, baseDir, req.uri)
    ensures IsStaticUri(req.uri) ==> Handle(req, t, docs, less, baseDir, env).1 == t
    ensures GrownByEmpty(t, Handle(req, t, docs, less, baseDir, env).1)
  {
  }

  /** ProcessRequest: a "/static/" URI is a file request, any other a search. */
  method ProcessRequest(req: Request, baseDir: string, index: Index, env: Env) returns (r: Response)
    requires index.Valid() && CanHandle(env, baseDir, req.uri)
    modifies index`table
    ensures index.Valid()
    ensures (r, index.table) == Handle(req, old(index.table), index.docs, index.less, baseDir, env)
  {
    if Prefix(req.uri, 8) == StaticPrefix {
      return FileResponse(env, baseDir, req.uri);
    }
    r := ProcessQueryRequest(req.uri, index, env);
  }

  // ---------------------------------------------------------------------------
  // HttpServer_ThrFn
  // ---------------------------------------------------------------------------

  /** The client asked to close: a "Connection" or "connection" header with value "close". */
  predicate WantsClose(req: Request) {
    GetHeaderValue(req, "Connection") == "close" || GetHeaderValue(req, "connection") == "close"
  }

  /**
   * On a parsed request only the lower-case lookup can match, since parsing
   * lower-cases every header name.
   */
  lemma WantsCloseParsed(block: string)
    requires HttpConnection.Parse(block).Some?
    ensures var req := HttpConnection.Parse(block).value;
      (WantsClose(req) <==> "connection" in req.headers && req.headers["connection"] == "close")
  {
    HttpConnection.ParseNormalizes(block);
    var req := HttpConnection.Parse(block).value;
    assert IsUpper("Connection"[0]);
    assert "Connection" !in req.headers;
  }

  /** A "Connection: Close" header, in any case, closes the connection. */
  lemma CloseInAnyCase(verb: string, uri: string, version: string)
    requires HttpConnection.Word(verb) && HttpConnection.Word(uri) && HttpConnection.Word(version)
    ensures var parsed := HttpConnection.Parse(HttpConnection.RequestText(verb, uri, version, "Connection", "Close"));
      parsed.Some? && WantsClose(parsed.value)
  {
    assert HttpConnection.FieldText("Connection") && HttpConnection.FieldText("Close");
    HttpConnection.ParseRoundTrip(verb, uri, version, "Connection", "Close");
    assert Lower("Connection") == "connection";
    assert Lower("Close") == "close";
  }

  /**
   * How a connection's loop ends up: the responses written, the table left
   * behind, and whether it stopped at a file request ProcessFileRequest
   * cannot serve (`substr(8)` on a short path throws, and a served name
   * without '.' has no `name_and_suffix[1]`), where the source faults.
   */
  datatype Outcome = Outcome(written: seq<Response>, table: Table, faulted: bool)

  /**
   * The outcome of the loop over everything the client sends: it stops when
   * no complete header arrives, when a header does not parse, or at a
   * request asking to close, which gets no response; it faults at a request
   * it cannot handle. Every response answers a complete header of at least
   * four characters.
   */
  ghost function Session(unread: string, t: Table, docs: seq<string>, less: (Result, Result) -> bool,
                         baseDir: string, env: Env): (o: Outcome)
    requires StrictOrder(less)
    ensures 4 * |o.written| <= |unread|
    decreases |unread|
  {
    match HttpConnection.Frame(unread)
    case None => Outcome([], t, false)
    case Some((block, rest)) =>
      match HttpConnection.Parse(block)
      case None => Outcome([], t, false)
      case Some(req) =>
        if WantsClose(req) then Outcome([], t, false)
        else if !CanHandle(env, baseDir, req.uri) then Outcome([], t, true)
        else
          var (response, t') := Handle(req, t, docs, less, baseDir, env);
          var more := Session(rest, t', docs, less, baseDir, env);
          more.(written := [response] + more.written)
  }

  /** With helpers that serve every static URI, the loop never faults. */
  lemma {:induction false} SessionNeverFaults(unread: string, t: Table, docs: seq<string>,
                                              less: (Result, Result) -> bool, baseDir: string, env: Env)
    requires StrictOrder(less) && ServesFiles(env, baseDir)
    ensures !Session(unread, t, docs, less, baseDir, env).faulted
    decreases |unread|
  {
    match HttpConnection.Frame(unread)
    case None =>
    case Some((block, rest)) =>
      match HttpConnection.Parse(block)
      case None =>
      case Some(req) =>
        if !WantsClose(req) {
          var t' := Handle(req, t, docs, less, baseDir, env).1;
          SessionNeverFaults(rest, t', docs, less, baseDir, env);
        }
  }

  /** A complete header that parses, does not ask to close and can be handled is answered, then the rest is served. */
  lemma SessionStep(block: string, rest: string, t: Table, docs: seq<string>,
                    less: (Result, Result) -> bool, baseDir: string, env: Env)
    requires StrictOrder(less)
    requires HttpConnection.IsHeaderBlock(block)
    requires HttpConnection.Parse(block).Some? && !WantsClose(HttpConnection.Parse(block).value)
    requires CanHandle(env, baseDir, HttpConnection.Parse(block).value.uri)
    ensures var h := Handle(HttpConnection.Parse(block).value, t, docs, less, baseDir, env);
            var s := Session(rest, h.1, docs, less, baseDir, env);
            Session(block + rest, t, docs, less, baseDir, env) == s.(written := [h.0] + s.written)
  {
    HttpConnection.FrameBlock(block, rest);
  }

  /** A request asking to close ends the session: it and everything after it go unanswered. */
  lemma SessionStopsAtClose(block: string, rest: string, t: Table, docs: seq<string>,
                            less: (Result, Result) -> bool, baseDir: string, env: Env)
    requires StrictOrder(less)
    requires HttpConnection.IsHeaderBlock(block)
    requires HttpConnection.Parse(block).Some? && WantsClose(HttpConnection.Parse(block).value)
    ensures Session(block + rest, t, docs, less, baseDir, env) == Outcome([], t, false)
  {
    HttpConnection.FrameBlock(block, rest);
  }

  /** The session is over when no complete header is there, or the next one fails to parse or asks to close. */
  lemma SessionEnds(unread: string, t: Table, docs: seq<string>,
                    less: (Result, Result) -> bool, baseDir: string, env: Env)
    requires StrictOrder(less)
    requires HttpConnection.Frame(unread).Some? ==>
               var parsed := HttpConnection.Parse(HttpConnection.Frame(unread).value.0);
               parsed.None? || WantsClose(parsed.value)
    ensures Session(unread, t, docs, less, baseDir, env) == Outcome([], t, false)
  {
  }

  /** The session faults, with nothing more written, at a request it cannot handle. */
  lemma SessionFaults(unread: string, t: Table, req: Request, docs: seq<string>,
                      less: (Result, Result) -> bool, baseDir: string, env: Env)
    requires StrictOrder(less)
    requires HttpConnection.Frame(unread).Some?
    requires HttpConnection.Parse(HttpConnection.Frame(unread).value.0) == Some(req) && !WantsClose(req)
    requires !CanHandle(env, baseDir, req.uri)
    ensures Session(unread, t, docs, less, baseDir, env) == Outcome([], t, true)
  {
  }

  /** Answering the next request moves the session on by that response. */
  lemma SessionAdvances(unread: string, t: Table, req: Request, res: Response, t': Table,
                        before: seq<Response>, after: seq<Response>,
                        docs: seq<string>, less: (Result, Result) -> bool, baseDir: string, env: Env)
    requires StrictOrder(less)
    requires HttpConnection.Frame(unread).Some?
    requires HttpConnection.Parse(HttpConnection.Frame(unread).value.0) == Some(req) && !WantsClose(req)
    requires CanHandle(env, baseDir, req.uri)
    requires (res, t') == Handle(req, t, docs, less, baseDir, env)
    requires after == before + [res]
    ensures var rest := HttpConnection.Frame(unread).value.1;
            var s := Session(unread, t, docs, less, baseDir, env);
            var s' := Session(rest, t', docs, less, baseDir, env);
            |rest| < |unread| && before + s.written == after + s'.written
            && s.table == s'.table && s.faulted == s'.faulted
  {
    var frame := HttpConnection.Frame(unread).value;
    SessionStep(frame.0, frame.1, t, docs, less, baseDir, env);
    Shift(before, res, Session(frame.1, t', docs, less, baseDir, env).written);
  }

  lemma Shift<T>(before: seq<T>, x: T, more: seq<T>)
    ensures before + ([x] + more) == (before + [x]) + more
  {
  }

  /**
   * One turn of the loop in HttpServer_ThrFn: read a request; stop on a
   * failed read or parse and on "close"; fault at a request that cannot be
   * handled; otherwise answer the request and write the response, whose
   * write result (`status`) is ignored. What is left of the session after
   * the turn is what was left before it, minus the response written.
   */
  method ServeNext(connection: HttpConnection.Connection, baseDir: string, index: Index, env: Env,
                   status: int) returns (done: bool, faulted: bool)
    requires index.Valid()
    modifies connection`buffer, connection`pending, connection`written, index`table
    ensures index.Valid()
    ensures |connection.Unread()| <= old(|connection.Unread()|)
    ensures done ==>
              var s := Session(old(connection.Unread()), old(index.table), index.docs, index.less, baseDir, env);
              s == Outcome([], old(index.table), faulted) && connection.written == old(connection.written)
              && index.table == old(index.table)
    ensures !done ==>
              var s := Session(old(connection.Unread()), old(index.table), index.docs, index.less, baseDir, env);
              var s' := Session(connection.Unread(), index.table, index.docs, index.less, baseDir, env);
              |connection.Unread()| < old(|connection.Unread()|)
              && old(connection.written) + s.written == connection.written + s'.written
              && s.table == s'.table && s.faulted == s'.faulted
  {
    ghost var unread := connection.Unread();
    ghost var t := index.table;
    var hasNextReq, req := connection.NextRequest(DefaultRequest);
    if !hasNextReq || WantsClose(req) {
      SessionEnds(unread, t, index.docs, index.less, baseDir, env);
      return true, false;
    }
    if !CanHandle(env, baseDir, req.uri) {
      SessionFaults(unread, t, req, index.docs, index.less, baseDir, env);
      return true, true;
    }
    ghost var before := connection.written;
    var res := ProcessRequest(req, baseDir, index, env);
    var ok := connection.WriteResponse(res, status);
    SessionAdvances(unread, t, req, res, index.table, before, connection.written,
                    index.docs, index.less, baseDir, env);
    done, faulted := false, false;
  }

  /**
   * HttpServer_ThrFn on one connection: the responses written are the
   * session of everything the client sends, in order, the index grows by
   * the empty posting maps the queries among them probe, and `faulted`
   * tells whether the loop stopped where the source faults. The write
   * results (`writeStatus` of each write's ordinal) are ignored.
   */
  method ServeConnection(connection: HttpConnection.Connection, baseDir: string, index: Index, env: Env,
                         writeStatus: nat -> int) returns (faulted: bool)
    requires index.Valid()
    modifies connection, index`table
    ensures index.Valid()
    ensures var s := Session(old(connection.Unread()), old(index.table), index.docs, index.less, baseDir, env);
            connection.written == old(connection.written) + s.written && index.table == s.table
            && faulted == s.faulted
  {
    ghost var goal := Session(connection.Unread(), index.table, index.docs, index.less, baseDir, env);
    var done := false;
    var count := 0;
    faulted := false;
    while !done
      invariant index.Valid()
      invariant !done ==>
        var s := Session(connection.Unread(), index.table, index.docs, index.less, baseDir, env);
        old(connection.written) + goal.written == connection.written + s.written
        && goal.table == s.table && goal.faulted == s.faulted
      invariant done ==>
        connection.written == old(connection.written) + goal.written && index.table == goal.table
        && faulted == goal.faulted
      decreases |connection.Unread()| + (if done then 0 else 1)
    {
      done, faulted := ServeNext(connection, baseDir, index, env, writeStatus(count));
      count := count + 1;
    }
  }
}
