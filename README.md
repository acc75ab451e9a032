# Search server core, modelled in Dafny

This project models the core of a small multi-threaded search server. The
server answers two kinds of HTTP request on a connection that is kept open:

- files under `/static/`;
- a search page that ranks indexed documents against the words of a query.

The model covers three parts:

- **The inverted index** (`WordIndex.cc`, module `WordIndex`). A class
  `Index` holds a table from word to document to occurrence count, and the
  list of documents in the order they were first recorded. `record` builds
  the index. `lookup_word` and `lookup_query` rank documents from it. Both
  lookups read the table with `std::map::operator[]`, which adds an empty
  posting map for a word not seen before. The model keeps that side effect:
  each lookup states exactly which words it adds.
- **The connection** (`HttpConnection.cc`, module `HttpConnection`). A class
  `Connection` holds the read buffer, the chunks the client has yet to
  deliver, and the responses written so far.
  - `next_request` reads until a blank line ends a header. It cuts the
    header off and keeps the rest for the next call.
  - `parse_request` splits the header into lines. It takes the URI from the
    first line and each remaining non-empty line as a header field.
  - `write_response` reports whether the write succeeded.
- **The server** (`HttpServer.cc`, module `HttpServer`). This part has:
  - the router (`ProcessRequest`);
  - the static-file handler, with its 400/404/200 answers and its
    content-type table;
  - the search page, with its count line and one list item per result;
  - the per-connection loop of `HttpServer_ThrFn`.

The loop is specified by a function `Session`. It gives three things for
everything the client sends: the responses the loop writes, the table the
loop leaves behind, and whether the loop stopped at a file request that the
source's file handler faults on.

Module `Text` models the string helpers the source takes from Boost and the
standard library:

- `boost::split`, with and without `token_compress_on`;
- `boost::trim` in the "C" locale;
- `boost::to_lower` on ASCII;
- `std::to_string` on integers.

Module `HttpMessages` holds the request and response values. `Options`
holds `Option`.

Some helpers are called by the handlers but have no code in this model. They
become function-valued fields of the datatype `HttpServer.Env`:

- `URLParser` (`path()` and `args()`);
- `is_path_safe`;
- `FileReader::read_file`;
- `escape_html`.

Results are ordered by `Result::operator<`, whose definition is not part of
this model. The index therefore takes the comparator as a parameter. It
requires only that the comparator is a strict order. `ByRank`, highest rank
first, is one such order and is proved to qualify.

## Model

| member | source | states |
|---|---|---|
| `Text.Split` | HttpConnection.cc:112 | `boost::split` on a set of separators: at least one field, no field holds a separator, a single field exactly when the input holds none |
| `Text.JoinSplit` | HttpConnection.cc:112 | splitting on one separator loses nothing: joining the fields with it gives the input back |
| `Text.SplitJoin` | HttpConnection.cc:112 | splitting a join of separator-free fields gives those fields back |
| `Text.SplitFree` | HttpConnection.cc:112 | a separator-free prefix glues onto the first field of the rest |
| `Text.SkipSeps` | HttpConnection.cc:119 | the input with its leading run of separators removed: a suffix, everything dropped is a separator, and it starts with a non-separator |
| `Text.SplitCompressed` | HttpConnection.cc:119 | `boost::split` with `token_compress_on`: at least one field, a single field exactly when the input holds no separator |
| `Text.SplitCompressedFields` | HttpConnection.cc:119 | no field of a compressed split holds a separator, no inner field is empty, and the first field is non-empty when the input does not start with a separator |
| `Text.SplitCompressedFree` | HttpConnection.cc:130 | a separator-free prefix glues onto the first field of the compressed split of the rest |
| `Text.SplitCompressedRun` | HttpConnection.cc:130 | a leading run of separators gives one empty first field and no more |
| `Text.WordThenRest` | HttpConnection.cc:119 | a word, a run of separators, then more text: the word is the first field, the rest split alone |
| `Text.ThreeWords` | HttpConnection.cc:119-120 | three words with separator runs between them compress-split into exactly those three |
| `Text.Trim` | HttpConnection.cc:135 | `boost::trim`: right trimming then left trimming, never longer than its input |
| `Text.TrimLeftSuffix` | HttpConnection.cc:135 | left trimming keeps a suffix, drops only white space, and leaves no white space in front |
| `Text.TrimRightPrefix` | HttpConnection.cc:135 | right trimming keeps a prefix, drops only white space, and leaves no white space at the end |
| `Text.TrimTrimmed` | HttpConnection.cc:135 | `boost::trim` leaves neither end white |
| `Text.TrimFree` | HttpConnection.cc:135 | trimming adds no separator that was not there |
| `Text.TrimPadded` | HttpConnection.cc:135 | trimming white padding off a trimmed string gives that string back |
| `Text.Lower` | HttpConnection.cc:136 | `boost::to_lower` in the "C" locale: same length, no capitals left, 'A'..'Z' moved by 32 and every other character kept |
| `Text.LowerIdempotent` | HttpConnection.cc:136 | a string without capitals is left alone |
| `Text.LowerFree` | HttpConnection.cc:136 | lower-casing adds no separator outside 'a'..'z' |
| `Text.NatToString` | HttpServer.cc:342 | `std::to_string` on a count: decimal digits without a leading zero that read back as the number |
| `Text.IntToString` | HttpServer.cc:346 | `std::to_string` on a rank: a minus sign exactly for a negative number, followed by the digits of its magnitude |
| `Text.NatToStringInjective` | HttpServer.cc:342 | different counts print differently |
| `HttpMessages.AddHeader` | HttpConnection.cc:140 | adding a header keeps the URI, sets that name's value and keeps every other header |
| `HttpMessages.GetHeaderValue` | HttpServer.cc:167 | the stored value of a header, or the empty string for a name never added |
| `WordIndex.Index.NumWords` | WordIndex.cc:12-15 | the number of distinct words in the table |
| `WordIndex.Index.Record` | WordIndex.cc:17-32 | the count of (word, document) goes up by one; every other count stays; the document is listed once, at the end when new; the index stays well formed |
| `WordIndex.Recorded` | WordIndex.cc:22-31 | the recorded table has the word as a key and one more occurrence of the pair |
| `WordIndex.RecordedElsewhere` | WordIndex.cc:22-31 | recording one pair changes no other pair's posting or count |
| `WordIndex.RecordedDocs` | WordIndex.cc:19-21 | the document list grows by the document only when it is new, keeps its order and stays free of duplicates |
| `WordIndex.RecordKeepsWellFormed` | WordIndex.cc:17-32 | recording keeps every count at least 1, every document listed once and every posted document listed |
| `WordIndex.CountIsOccurrences` | WordIndex.cc:17-32 | after any run of records, each count is the old count plus the number of times that pair was recorded, and a posting exists exactly when it did or the pair was recorded |
| `WordIndex.Index.Get` | WordIndex.cc:52 | `operator[]`: the word's posting map, after adding it empty when it was missing; nothing else changes |
| `WordIndex.Probe` | WordIndex.cc:52 | the table after `operator[]` gains only the word, with no postings when new |
| `WordIndex.ProbeKeepsPostings` | WordIndex.cc:79 | a probe on a grown table keeps it grown, and the probed word holds exactly its original postings |
| `WordIndex.GrownKeepsPostings` | WordIndex.cc:52 | adding empty posting maps changes no posting and no count |
| `WordIndex.GrownKeepsWellFormed` | WordIndex.cc:79 | adding empty posting maps keeps the index well formed |
| `WordIndex.AddEmpty` | WordIndex.cc:79 | the table with empty posting maps added for the given words and nothing else changed |
| `WordIndex.GrownIsAddEmpty` | WordIndex.cc:79 | a table grown only by empty maps is determined by the words it gained |
| `WordIndex.Index.LookupWord` | WordIndex.cc:49-59 | one result for each posting of the word, carrying its count, and no other result, sorted by the comparator; the table gains the word when it was new |
| `WordIndex.Insert` | WordIndex.cc:90 | inserting into a sorted list keeps it sorted and adds exactly that element |
| `WordIndex.InsertFront` | WordIndex.cc:90 | an element ordered before the head of a sorted list can go in front |
| `WordIndex.InsertBehind` | WordIndex.cc:90 | an element not ordered before the head goes behind it and the list stays sorted and a permutation |
| `WordIndex.Sort` | WordIndex.cc:90 | `std::list::sort`: the result is sorted by the comparator and a permutation of the input; under an order that puts higher ranks first, ranks never go up |
| `WordIndex.ByRankOrders` | WordIndex.cc:69-71 | highest rank first is a strict order that puts higher ranks first |
| `WordIndex.Index.LookupQuery` | WordIndex.cc:72-92 | the results are the sorted qualifying documents in document order with their summed ranks; the table gains exactly the words `operator[]` reads; the index stays well formed |
| `WordIndex.Index.ScoreDocument` | WordIndex.cc:76-84 | the inner loop: `all_found` holds exactly when every query word has a posting for the document, the sum is then its rank, and only the words read while all were found are added |
| `WordIndex.Rank` | WordIndex.cc:78-84 | the sum `temp_n`: each query word's count in the document, a repeated word counted again |
| `WordIndex.QueryResults` | WordIndex.cc:75-88 | the results before sorting: the qualifying documents in document order, with their ranks |
| `WordIndex.QueryStep` | WordIndex.cc:75-89 | one more document extends the unsorted results by that document when it qualifies, and the words read grow by the words read while scoring it |
| `WordIndex.ProbedForStep` | WordIndex.cc:78-82 | the next query word is read exactly when every earlier word was found |
| `WordIndex.RankStep` | WordIndex.cc:83 | the next query word adds its count to the sum |
| `WordIndex.AllFoundStep` | WordIndex.cc:79-80 | all words found so far and the next one found |
| `WordIndex.ProbedWords` | WordIndex.cc:79 | a lookup adds only query words, and always the first when there is a document and a word |
| `WordIndex.ProbedEmptyQuery` | WordIndex.cc:78 | an empty query adds no word |
| `WordIndex.EmptyQueryFindsNothing` | WordIndex.cc:85 | an empty query finds nothing, since its rank is 0 |
| `WordIndex.RankConcat` | WordIndex.cc:83 | the rank of a concatenated query is the sum of the ranks |
| `WordIndex.RankAtLeastLength` | WordIndex.cc:83-85 | in a well-formed index a document holding every word ranks at least the query's length |
| `WordIndex.QualifiesIff` | WordIndex.cc:85 | in a well-formed index a document qualifies exactly when the query is non-empty and holds every word |
| `WordIndex.QueryResultsExact` | WordIndex.cc:72-92 | every qualifying document appears once with its rank, and nothing else appears |
| `WordIndex.QueryResultsSamePostings` | WordIndex.cc:79 | the answer depends only on the postings, not on empty maps that earlier lookups added |
| `WordIndex.RankSamePostings` | WordIndex.cc:83 | the rank depends only on the postings |
| `HttpConnection.FindFrom` | HttpConnection.cc:56 | `find(kHeaderEnd, from, 4)`: the first "\r\n\r\n" at or after the start, or none when there is none |
| `HttpConnection.FirstTerminator` | HttpConnection.cc:56 | a terminator with none before it is what the search finds |
| `HttpConnection.FindExtends` | HttpConnection.cc:56-60 | reading more never moves a terminator already found |
| `HttpConnection.Frame` | HttpConnection.cc:55-66 | the cut: none exactly when the buffer has no terminator, else a header block ending at the first terminator and the rest, which together give the buffer |
| `HttpConnection.FrameBlock` | HttpConnection.cc:63-66 | a header block followed by anything is cut at its end |
| `HttpConnection.CutHeader` | HttpConnection.cc:56-66 | once a terminator is buffered, more data only extends the part kept for the next call |
| `HttpConnection.ReadsStopAtHeader` | HttpConnection.cc:55-61 | (predicate) the chunks read are the first ones, and every chunk but the last one read was read while no terminator was buffered |
| `HttpConnection.ConcatSnoc` | HttpConnection.cc:60 | reading one more chunk appends it to what was read |
| `HttpConnection.ReadStep` | HttpConnection.cc:55-61 | a read made while no terminator is buffered keeps the reads stopping at the header |
| `HttpConnection.Connection.ReadChunk` | HttpConnection.cc:60 | one `wrapped_read`: the next chunk moves from the client to the end of the buffer, and nothing is lost |
| `HttpConnection.Connection.ReadUntilHeader` | HttpConnection.cc:55-61 | reads chunks until a terminator is buffered and no further: the buffer is the old buffer plus the first chunks, every chunk but the last was read with no terminator buffered, no data is lost or reordered, and it stops without a terminator only when the chunks run out |
| `HttpConnection.Connection.TakeHeader` | HttpConnection.cc:55-66 | returns the header block and keeps the rest, or nothing when no terminator ever arrives; it reads no chunk past the one that completes the header |
| `HttpConnection.Connection.NextRequest` | HttpConnection.cc:39-69 | parses the first complete header of everything the client sent and keeps what follows for the next call; the request is left as it was when parsing fails; it reads no chunk past the one that completes the header |
| `HttpConnection.Normalize` | HttpConnection.cc:134-137 | trim then lower-case: the result has no white space at either end and no capitals |
| `HttpConnection.NormalizeFree` | HttpConnection.cc:134-137 | normalising a field adds no ':' |
| `HttpConnection.NormalizePieces` | HttpConnection.cc:134-137 | the loop over the pieces normalises each of them |
| `HttpConnection.HeaderField` | HttpConnection.cc:130-139 | a header line fails exactly when it holds no ':'; name and value are normalised and hold no ':' |
| `HttpConnection.AddLine` | HttpConnection.cc:126-140 | an empty line leaves the request as it was; a non-empty line without ':' fails; any other line adds its normalised name and value |
| `HttpConnection.NonEmptyLines` | HttpConnection.cc:126-128 | the lines the loop does not skip, all non-empty |
| `HttpConnection.EmptyLinesSkipped` | HttpConnection.cc:125-141 | empty lines anywhere among the header lines change nothing: the result is that of the non-empty lines alone |
| `HttpConnection.AddHeaderLines` | HttpConnection.cc:125-141 | the header loop keeps the URI |
| `HttpConnection.AddHeaderLinesStep` | HttpConnection.cc:125-141 | one more line is one more step of the loop |
| `HttpConnection.AddLinePieces` | HttpConnection.cc:130-140 | a non-empty line fails when it splits into at most one piece, else adds the normalised first two pieces |
| `HttpConnection.FailureStays` | HttpConnection.cc:131-133 | once a line fails, the whole parse fails |
| `HttpConnection.AddHeaderLinesFails` | HttpConnection.cc:125-141 | the header lines fail exactly when one of them is non-empty and holds no ':' |
| `HttpConnection.ParseFails` | HttpConnection.cc:92-144 | parsing fails exactly when the first line has fewer than three words or a later line is non-empty without ':' |
| `HttpConnection.Parse` | HttpConnection.cc:117-123 | a parsed URI is non-empty and holds no space |
| `HttpConnection.ParseHeaderLines` | HttpConnection.cc:125-141 | the header loop succeeds exactly when the specification does, with the same request |
| `HttpConnection.ParseRequest` | HttpConnection.cc:92-144 | succeeds exactly when the header parses; `*out` is the parsed request then and is untouched otherwise |
| `HttpConnection.AddHeaderLinesNormalized` | HttpConnection.cc:134-140 | every header added is trimmed, lower-case and free of ':' |
| `HttpConnection.AddLineNormalized` | HttpConnection.cc:134-140 | one added line keeps every header normalised |
| `HttpConnection.ParseNormalizes` | HttpConnection.cc:134-140 | every header name and value of a parsed request is trimmed, lower-case and free of ':' |
| `HttpConnection.LastLineWins` | HttpConnection.cc:138-140 | a repeated header keeps the value of its last line |
| `HttpConnection.AddLineKeeps` | HttpConnection.cc:138-140 | a line for another name keeps a header's value |
| `HttpConnection.ColonSplit` | HttpConnection.cc:130 | "name: value" splits into the name and the value with its leading space |
| `HttpConnection.HeaderFieldRoundTrip` | HttpConnection.cc:130-139 | a header line written as "name: value" reads back as the lower-cased name and value |
| `HttpConnection.RequestLines` | HttpConnection.cc:112 | a request with one header splits on "\r\n" into the two lines and empty pieces between and after |
| `HttpConnection.BlankLines` | HttpConnection.cc:126-128 | trailing empty lines change nothing |
| `HttpConnection.AddHeaderLinesSnoc` | HttpConnection.cc:125-141 | one more line at the end is one more step after the rest |
| `HttpConnection.OneHeaderLine` | HttpConnection.cc:125-141 | the lines of a one-header request add exactly that header |
| `HttpConnection.ParseLines` | HttpConnection.cc:117-123 | a first line of three words makes the second one the URI |
| `HttpConnection.RequestLineWords` | HttpConnection.cc:119 | a request line written as three words splits back into them |
| `HttpConnection.ParseRoundTrip` | HttpConnection.cc:92-144 | a request written as a request line, one header and a blank line parses back to its URI and its lower-cased header |
| `HttpConnection.Connection.WriteResponse` | HttpConnection.cc:75-86 | the response goes out; the result is true exactly when the write's status is not negative |
| `HttpServer.Prefix` | HttpServer.cc:182 | `substr(0, n)`: a prefix of length n, or the whole of a shorter string |
| `HttpServer.IsStaticIff` | HttpServer.cc:182 | the router's test holds exactly when the URI starts with "/static/" |
| `HttpServer.Suffix` | HttpServer.cc:246-249 | the second piece of the name split on '.' holds no '.' |
| `HttpServer.SuffixBetweenDots` | HttpServer.cc:246-249 | the suffix is the text between the first and the second dot |
| `HttpServer.ContentTypeIsTable` | HttpServer.cc:250-274 | the content-type chain gives each known suffix its type and any other suffix none |
| `HttpServer.FileResponse` | HttpServer.cc:190-283 | 400 exactly for an unsafe path, 404 exactly for a safe file that cannot be read, 200 otherwise with the file as body and the suffix's type |
| `HttpServer.QueryWords` | HttpServer.cc:324-332 | the search words exist exactly when there is a `terms` argument, split on every space into at least one space-free word |
| `HttpServer.QueryAnswerExact` | HttpServer.cc:324-335 | the page lists every qualifying document once with its rank and nothing else, and nothing without a `terms` argument |
| `HttpServer.RenderedConcat` | HttpServer.cc:344-347 | the list markup of two runs of results is the markup of each in turn |
| `HttpServer.RenderedInOrder` | HttpServer.cc:344-347 | each result's item sits between the items of the results before it and after it |
| `HttpServer.CountLine` | HttpServer.cc:342 | the count line starts with the number of results in decimal, followed by a space |
| `HttpServer.QueryResponse` | HttpServer.cc:307-309 | the search page is always a 200 "Success" over HTTP/1.1 |
| `HttpServer.AppendResults` | HttpServer.cc:337-351 | the loop appends the no-results text, or the count line, one item per result in order and the closing tags |
| `HttpServer.ProcessQueryRequest` | HttpServer.cc:285-354 | the search page for the URI, and the table grown by exactly the lookup's probes |
| `HttpServer.ContentType` | HttpServer.cc:250-274 | the content-type chain: each of the fourteen known suffixes gets its type, any other none |
| `HttpServer.Item` | HttpServer.cc:345-346 | one list item: a link to the document under /static/, its name, and its rank in decimal |
| `HttpServer.ResultsText` | HttpServer.cc:337-350 | the text after the landing page: "No results found" with the terms as typed, or the count line, one item per result in order and the closing tags |
| `HttpServer.CanHandle` | HttpServer.cc:182-183 | (predicate) a search can always be answered; a file request when the helpers give `ProcessFileRequest` what it needs |
| `HttpServer.Handle` | HttpServer.cc:178-188 | the router's response and table: always HTTP/1.1, and a search is always answered with 200 |
| `HttpServer.HandleKeepsPostings` | HttpServer.cc:178-188 | a file request leaves the table alone, and no request changes a posting |
| `HttpServer.ProcessRequest` | HttpServer.cc:178-188 | a "/static/" URI gets the file response; any other gets the search page and the lookup's table; only the request at hand must be one it can handle |
| `HttpServer.WantsClose` | HttpServer.cc:167 | (predicate) the close test: a "Connection" or "connection" header whose value is "close" |
| `HttpServer.WantsCloseParsed` | HttpServer.cc:167 | on a parsed request the close test holds exactly when the lower-case "connection" header is "close" |
| `HttpServer.CloseInAnyCase` | HttpServer.cc:167 | "Connection: Close" as a client writes it closes the connection |
| `HttpServer.Session` | HttpServer.cc:160-175 | the loop's outcome for everything the client sends; each response answers a header of at least four characters |
| `HttpServer.SessionNeverFaults` | HttpServer.cc:190-283 | with helpers that serve every static URI, the loop never faults |
| `HttpServer.SessionFaults` | HttpServer.cc:222-249 | at a request it cannot handle the loop faults with nothing more written |
| `HttpServer.SessionStep` | HttpServer.cc:160-175 | a parsed request that does not ask to close and can be handled is answered, and the loop goes on with the rest and the new table |
| `HttpServer.SessionStopsAtClose` | HttpServer.cc:167-169 | a request asking to close ends the loop without a response |
| `HttpServer.SessionEnds` | HttpServer.cc:163-169 | with no complete header, a header that fails to parse, or a close request, nothing more is written |
| `HttpServer.SessionAdvances` | HttpServer.cc:171-172 | answering one request consumes input and leaves the rest of the session unchanged |
| `HttpServer.ServeNext` | HttpServer.cc:161-174 | one pass of the loop: it stops with nothing written, reporting whether it stopped at a fault, or it writes the next response of the session and consumes input |
| `HttpServer.ServeConnection` | HttpServer.cc:122-176 | the loop writes exactly the session's responses, in order, leaves the session's table, and reports a fault exactly when the session faults |

## Left out

- `ServerSocket.cc`, `HttpServer::run` and the thread pool are not part of this model: they accept connections and hand them to the per-connection loop.
- `FileReader.cc` is not part of this model. Reading a file is `Env.readFile`, which returns the contents or nothing.
- `URLParser`, `is_path_safe` and `escape_html` are not part of this model. They are the fields `urlPath`, `urlArgs`, `pathSafe` and `escapeHtml` of `Env`. Nothing is assumed about them, except that the file handler runs only where `FileRequestOk` holds, as the next line says.
- `wrapped_read` and `wrapped_write` are not part of this model. The client's data is the sequence of chunks a `Connection` is built with. The write's status is a parameter of `WriteResponse`.
- `HttpRequest.h` and `HttpResponse.h` are not part of this model. A request is its URI and a header map, where a repeated name keeps its last value. A missing header reads as the empty string. A response is the fields the handlers set. `GenerateResponseString` is not modelled.
- The output the source prints to `cout` on connect is not modelled.
- `HttpConnection.Connection.NextRequest`: the model returns false once the client's chunks are used up without a complete header. The source keeps calling `wrapped_read` and ignores its result (line 60). After end of input, that loop never ends.
- `WordIndex.Index.LookupWord`: the results are stated as a multiset sorted by the comparator. Their order among results the comparator does not separate is not stated, because `std::map` key order is not modelled.
- `WordIndex.Sort`: `Result::operator<` is not part of this model. The comparator is a parameter, required only to be a strict order. `std::list::sort` is modelled as a stable insertion sort.
- `WordIndex.Index.Record`: counts are unbounded integers. The source's `int` overflow after 2^31 - 1 occurrences is not modelled.
- `WordIndex.Index.ScoreDocument`: the sum is an unbounded integer. The source's `int` overflow is not modelled.
- `HttpServer.FileResponse` requires, of the request it answers, a parsed path of at least eight characters, and a '.' in a file name that is safe and readable. With a shorter path, `substr(8)` at line 222 throws; without a '.', line 249 reads past the end of the split result. `ProcessRequest` and `Handle` demand this only of the request at hand (`CanHandle`). The connection loop (`Session`, `ServeNext`, `ServeConnection`) does not demand it at all. It stops with `faulted` set at the first request that breaks it, where the source throws or reads out of bounds. What the source does after that fault is not modelled.
- `WordIndex.Index`: the source shares one index among all worker threads. The `operator[]` inserts of concurrent lookups race with each other. The model gives each connection the index to itself, so the table `ServeConnection` states assumes no other connection is served at the same time.
- `HttpServer.QueryResponse`: the landing page `kFivegleStr` (lines 41-63) is the constant `Landing`, whose markup is not modelled.
- `HttpServer.ServeConnection`: the result of `write_response` is ignored, as at line 172. A failed write does not end the loop.
- `HttpServer.AppendResults`: the "No results found" text at line 338 puts the search terms into the page unescaped, while the count line at line 342 escapes them. The model keeps both as written.
