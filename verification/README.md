# FoxHttp: verified model

A Dafny model of the parts of FoxHttp that carry logic of their own: the streaming multipart parser,
the router, the strand pool, the middleware pipeline, the rate limiter, the percent, form and base64
codecs, the layered configuration with its subscribers, and plain-text processing.

`dafny verify dfyconfig.toml` checks the whole project.

## How it is organised

Code that works by changing state is imperative here too: `StreamParser`, `Table`, `Pool`, `Chain`,
`Limiter` and `Manager` are classes whose methods follow the original's loops and updates, each
proved equal to a specification function or to a property. The theorems are about those
specifications. Lemmas switch automatic induction off, so that each proof is the one written down.

| module | part of the system |
|---|---|
| `MultipartMachine`, `MultipartStream`, `MultipartChunking`, `MultipartLong`, `MultipartHeaders` | the streaming multipart parser: specification, class, chunk independence for short and for long content, form round trip |
| `RoutePattern`, `RouteMatch`, `RouteOrder`, `RouteTable` | pattern compiler, matching and parameters, specificity order, table and resolution |
| `HashRing`, `StrandPool` | consistent-hash ring, pool with resize and the five strategies |
| `PipelineProtocol`, `PipelineSafety` | the pipeline as a state machine over atomic steps of any number of threads and runs |
| `PipelineWalk`, `PipelineAgenda`, `PipelineExecution` | one run without interleaving: closed form, flat specification, and the recursive step methods |
| `RateLimit` | fixed-window limiter |
| `Bytes`, `PercentCoding`, `FormData`, `Base64` | codecs |
| `JsonValue`, `ConfigManager` | merge, paths, loading and notification |
| `PlainText` | line ends, trimming, UTF-8 |
| `Search`, `Sorting` | searching in sequences and sorting with a comparator, shared |

## What the code does not promise

Where a property one would expect fails, the project has the failing case and the exact condition.

- A chunk that ends just before or between the two closing dashes leaves the multipart parser in the
  header state (`BadCut`, `HarmlessCutsExactly`). Cuts at the delimiters between parts do no harm
  (`SkipMakesNoDifference`). Content longer than 101 bytes, CRLF included, can lose its delimiter when a
  cut falls inside it (`AnyCutHarmlessExactly`), and not otherwise (`LongBodyIsParsed`, within the size
  limits). For shorter content size limits need no hypothesis: the error state they set is overwritten
  before the loop sees it, since content within the bound is only ever written at its delimiter.
- Header lines ended by a bare blank line lose their last two bytes (`BareBlankLineLosesTwoBytes`).
- A field name ending in `filename=` makes the parser misread a file name after it
  (`FilenameReadExactly`), and a file name before the name is taken for the name (`NameReadExactly`).
- `normalize_path` strips one slash only (`NormalizeIdempotentExactly`).
- A literal does not always come before a parameter in its place: a pattern with as many parameters as
  segments has no static segment to count, and its text decides (`LiteralFirstExactly`).
- A shrink can leave more strands than asked for (`ShrinkCanLeaveExtraStrands`); `Pool.Resize` says
  exactly when it does not. With a minimum size of 0 strands can remain at size 0, and the strategies
  would divide by it, so they require `Valid`, which a positive minimum keeps.
- `execute` goes on behind a middleware that never calls `next` when an earlier one called it twice
  (`StopsAtFirstSilentExactly`).
- One position can still be claimed after `cancelled` or `timed_out` is set, by a thread already
  past the check (`ClaimedLate`), and only then (`LateClaimExactly`).
- The timeout handler can be called twice when the io_context is set while a run is under way
  (`TimeoutHandledTwice`); `HandledTwiceExactly` says for which runs.
- A stop report does not keep later positions from running (`RunsOnAfterStop`, `StopsBehindExactly`).
- A middleware timeout does not complete the run (`MiddlewareTimeoutReached`); only a body or the return
  of `execute` still does (`OnlyBodiesFinish`, `TimedOutFinishesExactly`).
- A shrink can change the strand of a key that keeps its index (`AffinityAfterShrink`).
- The rate limiter's comment speaks of a sliding window; the code is a fixed window, and admits up
  to `2 * max(1, max_requests) - 1` in an interval of that length (`IntervalBound`, `BoundIsReached`).
  It slides exactly for a limit or a window of at most one (`SlidesExactly`).
- The JSON library converts an integer to `double` to compare it with a floating-point number, and an
  unsigned integer to a signed one to compare the two, so its equality is not transitive and a
  subscriber can miss a change (`LargeIntegersSlip`, `TrackingExactly`). It can also keep another form
  of an equal number (`NumericFormMayDiffer`, `ExactTrackingExactly`), and a section of the wrong type
  leaves subscribers behind (`TrackingAfterThrow`).
- The UTF-8 check accepts texts that encode nothing (`OverlongAccepted`, `EncodedExactly`).

## Model

| member | source | states |
|---|---|---|
| MultipartMachine.StepDecreases | src/parser/multipart_parser.cpp:227-255 | Every stage that reports progress shrinks the pair (buffer length, phase is Content), so the feed loop ends |
| MultipartStream.StreamParser.constructor | src/parser/multipart_parser.cpp:211-223 | A new parser expects a delimiter and holds no bytes and no fields |
| MultipartStream.StreamParser.FeedData | src/parser/multipart_parser.cpp:227-255 | The loop over `buffer_` and `state_` equals the specification `Feed`; the answer is false exactly in the Error state |
| MultipartStream.StreamParser.ProcessStage | src/parser/multipart_parser.cpp:233-246 | Dispatch on the state equals one step of the specification |
| MultipartStream.StreamParser.ProcessBoundary | src/parser/multipart_parser.cpp:586-616 | In-place search and erase equal the specification of the boundary stage, with each of its waiting, closing and header branches |
| MultipartStream.StreamParser.ProcessHeaders | src/parser/multipart_parser.cpp:618-688 | In-place header stage equals its specification, including the unsigned comparison of the two blank-line forms |
| MultipartStream.StreamParser.ParseHeaderLines | src/parser/multipart_parser.cpp:639-683 | The line loop gives the same field and last field name as the recursive reading of the block |
| MultipartStream.StreamParser.ProcessContent | src/parser/multipart_parser.cpp:690-724 | In-place content stage equals its specification, including the overwritten size errors |
| MultipartStream.StreamParser.TrimmedLength | src/parser/multipart_parser.cpp:703-709 | The result cuts off all trailing CR and LF bytes and nothing else |
| MultipartStream.StreamParser.WriteContentData | src/parser/multipart_parser.cpp:744-772 | Size accounting and the file and field limits, as specified; what they refuse is `OverLimitExactly` |
| MultipartStream.StreamParser.FinalizeCurrentField | src/parser/multipart_parser.cpp:726-735 | The current field, if any, is appended to the result and cleared |
| MultipartChunking.BoundaryStage | src/parser/multipart_parser.cpp:586-616 | At a delimiter of a well-formed stream the stage does the same before and after the rest of the stream has arrived, or waits |
| MultipartChunking.HeadersStage | src/parser/multipart_parser.cpp:618-688 | The same for the header block, also with the line end that a cut delimiter leaves in front of it |
| MultipartChunking.ContentStage | src/parser/multipart_parser.cpp:690-724 | The same for content of at most 101 bytes, line end included, before its delimiter |
| MultipartChunking.SkipMakesNoDifference | src/parser/multipart_parser.cpp:600-616 | A line end left in front of a header block because the delimiter was cut there changes nothing in the end |
| MultipartChunking.OneCut | src/parser/multipart_parser.cpp:227-255 | Stopping at a harmless cut and going on equals feeding everything at once, from every reachable position of a well-formed stream |
| MultipartChunking.Chunked | src/parser/multipart_parser.cpp:227-255 | Any number of harmless cuts from any such position equals one feed of the concatenation |
| MultipartChunking.ChunkIndependence | src/parser/multipart_parser.cpp:227-255 | Main theorem: a well-formed body fed in any chunks without a harmful cut leaves the same whole parser state (phase, buffer, fields, headers, counters) as one feed |
| MultipartChunking.HarmlessCutsExactly | src/parser/multipart_parser.cpp:586-616 | For every well-formed body, chunked and single feeds agree if and only if no chunk ends just before or between the two closing dashes; otherwise the parser does not complete, or has more fields than the body has parts |
| MultipartChunking.BadCut | src/parser/multipart_parser.cpp:593-611 | A harmful cut sends the parser to the header state with the rest of the closing line as its buffer and all fields of the body in its result |
| MultipartChunking.FeedsStayAstray | src/parser/multipart_parser.cpp:618-735 | After that, whatever is fed, the parser completes only with one field more |
| MultipartChunking.HarmfulCutWaits | src/parser/multipart_parser.cpp:618-637 | With no blank line in the closing line and epilogue, it waits for headers for good |
| MultipartChunking.BodyIsParsed | src/parser/multipart_parser.cpp:586-724 | One feed of a well-formed body completes, with one field per part in order, each read from its own header block, and all bytes counted |
| MultipartChunking.RenderedPart | src/parser/multipart_parser.cpp:211-218 | The delimiter is two dashes and the boundary, and a rendered part reads as section 5.1.1 of RFC 2046 has it |
| MultipartChunking.BareLineFeedEndsDelimiter | src/parser/multipart_parser.cpp:602-612 | A delimiter may be ended by a bare line feed |
| MultipartChunking.BareBlankLineLosesTwoBytes | src/parser/multipart_parser.cpp:618-637 | Header lines ended by a bare blank line lose their last two bytes |
| MultipartChunking.AnyCutHarmlessExactly | src/parser/multipart_parser.cpp:690-724 | If and only if: content and its delimiter can be cut anywhere without changing the parser state exactly when the content has at most 101 bytes, line end included |
| MultipartChunking.LongContentLosesDelimiter | src/parser/multipart_parser.cpp:695-699 | A last part of 102 bytes or more, line end included, fed up to the last byte of the closing delimiter, is never completed if the delimiter does not occur again, while a single feed completes |
| MultipartLong.AtBoundary | src/parser/multipart_parser.cpp:586-616 | For content of any length: the boundary stage keeps what the parse comes to |
| MultipartLong.AtHeaderBlock | src/parser/multipart_parser.cpp:618-688 | So does the header stage |
| MultipartLong.AtContentBytes | src/parser/multipart_parser.cpp:690-724 | So does the content stage, when the cut is not inside a delimiter after long content |
| MultipartLong.ContentDropped | src/parser/multipart_parser.cpp:695-699 | Long content that is dropped takes no part of the delimiter with it and stays within the size limit |
| MultipartLong.LongBodyIsParsed | src/parser/multipart_parser.cpp:227-255 | Main theorem: a body with content of any length within the size limits, in any chunks without a cut at the closing dashes or inside a delimiter after long content, completes with one field per part, in order, and all bytes counted |
| MultipartLong.LongChunkIndependence | src/parser/multipart_parser.cpp:227-255 | Everything but the running size of the last field is as after one feed |
| MultipartLong.ShortBodiesFit | src/parser/multipart_parser.cpp:690-712 | Content of at most 101 bytes needs no size limit and has no delimiter whose cut does harm |
| MultipartLong.OverLimitExactly | src/parser/multipart_parser.cpp:744-772 | The size limit, if and only if: content that arrives in long chunks is refused exactly when the sum of their lengths, less the delimiter and ten bytes each, exceeds the limit for files or for other fields |
| MultipartLong.OneDropped | src/parser/multipart_parser.cpp:695-699 | One such chunk is counted and dropped |
| MultipartLong.NoDelimiterExactly | src/parser/multipart_parser.cpp:586-592 | Before a delimiter the parser gives up if and only if more than 100 bytes beyond the length of one have come without it |
| MultipartChunking.HeaderLinesOk | src/parser/multipart_parser.cpp:618-637 | Every list of header lines without line ends (section 5.1.1 of RFC 2046) meets the hypotheses of the theorems |
| MultipartChunking.ContentOk | src/parser/multipart_parser.cpp:690-712 | Every content of at most 99 bytes without the delimiter meets them |
| MultipartChunking.ContentLeads | src/parser/multipart_parser.cpp:690-712 | Every content of any length without the delimiter is ended by it |
| MultipartHeaders.NameIsRead | src/parser/multipart_parser.cpp:661-671 | The name that is read: the written one, or the file name when that is written first |
| MultipartHeaders.NameReadExactly | src/parser/multipart_parser.cpp:661-671 | If and only if: the name is read back exactly when it comes before the file name, or is the file name |
| MultipartHeaders.UnclosedIsNotRead | src/parser/multipart_parser.cpp:661-680 | Without a closing quote nothing is read |
| MultipartHeaders.NoFilenameIsRead | src/parser/multipart_parser.cpp:673-680 | No file name is invented when none was written |
| MultipartHeaders.FilenameIsRead | src/parser/multipart_parser.cpp:673-680 | A file name after the name is read back unless the name ends in `filename=` |
| MultipartHeaders.FilenameIsMisread | src/parser/multipart_parser.cpp:673-680 | When the name before it ends in `filename=`, the text between the two is read instead, whatever the file name |
| MultipartHeaders.FirstFilenameIsRead | src/parser/multipart_parser.cpp:673-680 | A file name before the name is read back, whatever the name |
| MultipartHeaders.FilenameReadExactly | src/parser/multipart_parser.cpp:673-680 | If and only if: the file name is read back exactly when it comes first, or the name does not end in `filename=`, or it is the text that is read instead |
| MultipartHeaders.DispositionIsRead | src/parser/multipart_parser.cpp:644-683 | What a Content-Disposition line leaves in the field, for both orders of its parameters |
| MultipartHeaders.DispositionRoundTrip | src/parser/multipart_parser.cpp:644-683 | The line gives a fresh field the written name and file name if and only if both are read back, and always the lower-case header entry |
| MultipartHeaders.LineIsRead | src/parser/multipart_parser.cpp:644-660 | Every header line is stored under its lower-case name with its trimmed value |
| MultipartHeaders.LineWithoutColonIgnored | src/parser/multipart_parser.cpp:647-648 | A line without a colon is ignored |
| MultipartHeaders.TrimExactly | src/parser/multipart_parser.cpp:652-656 | Trimming takes off spaces and tabs at both ends and nothing else |
| MultipartHeaders.LowerExactly | src/parser/multipart_parser.cpp:128-130 | Header names lose their upper case letter by letter, and nothing else |
| MultipartHeaders.BlockIsLines | src/parser/multipart_parser.cpp:639-646 | A block of lines joined by CRLF is read line by line |
| MultipartHeaders.OthersAreStored | src/parser/multipart_parser.cpp:644-660 | Headers other than Content-Disposition are stored in order and change nothing else |
| MultipartHeaders.PartIsRead | src/parser/multipart_parser.cpp:618-688 | The header block of a part, with any headers before and after its Content-Disposition, gives the name and file name that are read, and the whole header map |
| MultipartHeaders.FormRoundTrip | src/parser/multipart_parser.cpp:227-255 | A rendered form with content of any length within the limits, in any chunking without a harmful cut, completes with one field per part, in order, with all its headers; a field is the written one if and only if its parameters are read back |
| RoutePattern.ScanInvertsSpell | src/router/route.cpp:73-102 | Scanning a spelled list of literals and `{name}` parameters gives back that list |
| RoutePattern.ScanIsSpelling | src/router/route.cpp:73-102 | The pieces of an accepted pattern are well formed and spell it |
| RoutePattern.AcceptedExactly | src/router/route.cpp:73-102 | A pattern is accepted as given pieces if and only if they are well formed and spell it |
| RoutePattern.RejectedExactly | src/router/route.cpp:73-102 | Each error occurs if and only if a well-formed start is followed by an unclosed brace, or by an empty name |
| RoutePattern.EmittedTextReadsBack | src/router/route.cpp:73-116 | Reading the emitted text as a regular expression (literals, identity escapes, slash-free groups) gives one atom per piece |
| RoutePattern.SyntaxCharactersEscaped | src/router/route.cpp:95-116 | Exactly the syntax characters of ECMA-262 are escaped, and a parameter is one or more characters other than a slash |
| RoutePattern.RegexEscape | src/router/route.cpp:104-116 | The escaping loop equals the escape specification that is read back |
| RoutePattern.CompileSegment | src/router/route.cpp:77-99 | One turn of the loop: the text read so far is spelled by the pieces emitted so far, or the fault is the one at this place |
| RoutePattern.ParsePattern | src/router/route.cpp:73-102 | The emitted text reads back as the atoms of the pattern, with the names in order; rejection with the same error as the scan |
| RouteMatch.CompilationPreservesMeaning | src/router/route.cpp:73-102 | The compiled pattern captures given values on a path if and only if they are non-empty, slash-free, one per name, and substituting them gives the path |
| RouteMatch.MatchIsSound | src/router/route.cpp:36-43 | What the backtracking matcher returns is a match |
| RouteMatch.MatchIsComplete | src/router/route.cpp:36-43 | It finds a match whenever there is one, and none captures more at an earlier group |
| RouteMatch.MatchExactly | src/router/route.cpp:36-43 | A path matches a pattern if and only if some admissible substitution yields it, and the returned values are one: none is empty or holds a slash |
| RouteMatch.SegmentValuesUnique | src/router/route.cpp:59-69 | When every parameter fills a segment, the values are determined by the path |
| RouteMatch.ExtractPathParams | src/router/route.cpp:59-69 | The loop pairs names with captures; a repeated name keeps its last capture |
| RouteMatch.CapturesUnique | src/router/route.cpp:59-69 | The captures determine the parameters |
| RouteMatch.ExtractedParamsReproducePath | src/router/route.cpp:59-69 | Substituting the extracted parameters gives the path back, for distinct names and wherever equal names captured alike |
| RouteOrder.NormalizePath | src/router/route_table.cpp:53-68 | A normalised path starts with a slash; it is the path with a leading slash, less one trailing slash if that leaves anything |
| RouteOrder.NormalizeIdempotentExactly | src/router/route_table.cpp:53-68 | Normalising twice equals once if and only if the path does not end in two slashes (the path of two slashes apart) |
| RouteOrder.CountSegments | src/router/route_table.cpp:70-83 | The flag loop counts the maximal slash-free runs |
| RouteOrder.SegmentsOfJoin | src/router/route_table.cpp:70-83 | A path has as many segments as names between its slashes, with or without a trailing slash |
| RouteOrder.LexTotal | src/router/route_table.cpp:126 | String order is total and asymmetric |
| RouteOrder.LexExactly | src/router/route_table.cpp:126 | A proper prefix, or a smaller character at the first difference |
| RouteOrder.BeforeExactly | src/router/route_table.cpp:113-126 | What comes first has more static segments, or as many and more segments, or as many of both and the smaller pattern |
| RouteOrder.BeforeIsStrictTotal | src/router/route_table.cpp:113-126 | The comparator is asymmetric, irreflexive and total across different patterns |
| RouteOrder.BeforeTransitive | src/router/route_table.cpp:113-126 | It is transitive |
| RouteOrder.NotBeforeTransitive | src/router/route_table.cpp:113-126 | So is its negation: a strict weak order, as the sort requires |
| RouteTable.StaticChoiceAgrees | src/router/route_table.cpp:89-96 | In two orders of the same distinct registrations the static entry for a path is the same route |
| RouteTable.DynamicChoiceAgrees | src/router/route_table.cpp:161-178 | So is the most specific matching dynamic route |
| RouteTable.OrderIndependence | src/router/route_table.cpp:139-189 | Main theorem: any permutation of distinct registrations resolves every path and method alike, path parameters included |
| RouteTable.OneOutcome | src/router/route_table.cpp:139-189 | Every answer is the handler of a route that matches the path and has the method or none of its own, or the one other method of a route that matches the path, or neither; neither exactly when no static entry and no dynamic route matches |
| RouteTable.IndexHoldsLast | src/router/route_table.cpp:93-95 | The static index holds the last registration of each normalised path, across methods, and nothing else |
| RouteTable.FirstMatchIsMostSpecific | src/router/route_table.cpp:161-178 | The first match in the sorted list is the least matching route under the specificity order, among all registrations |
| RouteTable.AnswerIsMostSpecific | src/router/route_table.cpp:113-178 | The dynamic route whose answer is given has at least as many static segments as every other match, among equals at least as many segments, and among those no larger pattern |
| RouteTable.MostSpecificExactly | src/router/route_table.cpp:113-126 | And that is exactly what being chosen means |
| RouteTable.LiteralFirstExactly | src/router/route_table.cpp:113-126 | A pattern with a literal comes before the same pattern with a whole-segment parameter if and only if it has a static segment to count, or is the smaller string |
| RouteTable.LiteralBeatsParameter | src/router/route_table.cpp:113-178 | Where both match, the route with the parameter is then not chosen |
| RouteTable.UsersById | src/router/route_table.cpp:113-126 | `/users/{id}` comes before `/{a}/{b}` |
| RouteTable.SortBySpecificity | src/router/route_table.cpp:113-126 | The result is sorted and a permutation |
| RouteTable.Table.constructor | include/foxhttp/router/route_table.hpp:87-93 | An empty table is valid |
| RouteTable.Table.AddStaticRoute | src/router/route_table.cpp:89-96 | The registration is appended under its normalised path; index and list stay in agreement |
| RouteTable.Table.AddDynamicRoute | src/router/route_table.cpp:102-131 | An accepted pattern is appended, compiled and sorted in; a rejected one leaves the whole table as it was |
| RouteTable.Table.Resolve | src/router/route_table.cpp:139-189 | The indexed lookup answers as a plain scan of all registrations specifies, with the parameters of the chosen dynamic route, or none |
| RouteTable.Table.Clear | src/router/route_table.cpp:206-211 | All routes are gone and the table is valid |
| HashRing.RingGrows | src/server/strand_pool.cpp:340-353 | The ring of more strands contains the smaller ring, and adds only entries of the new strands |
| HashRing.OwnerIsUnique | src/server/strand_pool.cpp:276-290 | The entry that serves a key is unique, with equal hashes and wrap-around included |
| HashRing.OwnerExactly | src/server/strand_pool.cpp:276-290 | The owner is the first node from the key on, or the first of all, and of equal hashes the one of the smallest index |
| HashRing.FewKeysMove | src/server/strand_pool.cpp:276-290 | Main theorem: for any hash function and sizes n <= m, a key keeps its entry or moves to a strand of index at least n |
| StrandPool.AffinityAfterGrow | src/server/strand_pool.cpp:162-165 | After a grow a key keeps its strand exactly when it keeps its index, and otherwise goes to an index beyond the old size |
| StrandPool.AffinityAfterShrink | src/server/strand_pool.cpp:167-178 | After a shrink a key whose index stays in the ring keeps its strand if and only if every removal that took effect was above that index; any key does if and only if the strand now at its index came from its old one |
| StrandPool.OriginExactly | src/server/strand_pool.cpp:175-178 | An index still names the strand it named before the removals if and only if each that took effect was above it |
| HashRing.Sort | src/server/strand_pool.cpp:352 | The ring is sorted by hash, then index, and a permutation of the entries |
| HashRing.BuildRing | src/server/strand_pool.cpp:340-353 | The ring is sorted, has 100 entries per strand, and holds exactly the hashed virtual nodes |
| HashRing.LowerBound | src/server/strand_pool.cpp:280-281 | The position splits the ring into smaller hashes and the rest |
| HashRing.Locate | src/server/strand_pool.cpp:276-290 | Search with wrap-around finds the owner of the key, an index below the size |
| StrandPool.WeightBound | src/server/strand_pool.cpp:90-97 | The unrounded share of active requests, in percent, lies between 0 and 100 |
| StrandPool.Stats.Weight | src/server/strand_pool.cpp:306-308 | A weight and the percentage of active requests make 100 |
| StrandPool.SortByLoad | src/server/strand_pool.cpp:167-173 | The order is a permutation of the indices by increasing load |
| StrandPool.RemovalIsExact | src/server/strand_pool.cpp:175-178 | Erasing at indices computed beforehand erases one element each if and only if every index is still in range at its turn |
| StrandPool.ShrinkCanLeaveExtraStrands | src/server/strand_pool.cpp:167-178 | Three strands with loads 1, 0 and 1/2 have one removal order; shrunk to one they leave two, and shrunk to none they leave one |
| StrandPool.DrawSelectsOne | src/server/strand_pool.cpp:302-330 | A draw selects one strand only |
| StrandPool.ChoiceIsProportional | src/server/strand_pool.cpp:302-330 | A healthy strand is selected by exactly 100 less its percentage of active requests of the possible draws, an unhealthy one by none |
| StrandPool.TotalIsSum | src/server/strand_pool.cpp:302-310 | The number of possible draws is the sum of these shares |
| StrandPool.LessBusyGetsMore | src/server/strand_pool.cpp:302-330 | Of two healthy strands the one with the smaller percentage of active requests is selected by at least as many draws |
| StrandPool.BusyAndIdle | src/server/strand_pool.cpp:90-97 | Without rounding, a fully busy strand is never selected and an idle one by 100 draws |
| StrandPool.Pool.constructor | src/server/strand_pool.cpp:221-233 | A new pool satisfies the pool invariant at the initial size |
| StrandPool.Pool.CreateStrand | src/server/strand_pool.cpp:235-239 | A strand with fresh statistics is appended |
| StrandPool.Pool.RemoveStrand | src/server/strand_pool.cpp:241-246 | The strand and its statistics at the index are erased; nothing when out of range |
| StrandPool.Pool.Grow | src/server/strand_pool.cpp:162-165 | New strands are appended after the old ones |
| StrandPool.Pool.Shrink | src/server/strand_pool.cpp:167-178 | The least loaded strands are erased at indices computed beforehand; the pool reaches the size if and only if it held no extra strand and every index was still in range |
| StrandPool.Pool.Resize | src/server/strand_pool.cpp:153-183 | Keeps `current_size_ <= strands = stats` and the ring, for every configuration, and with a positive minimum also that strands can be taken; refuses exactly the sizes out of bounds, changing nothing; says which strands remain, and exactly when as many as asked for |
| StrandPool.Pool.UpdateConfig | src/server/strand_pool.cpp:209-215 | The same for every new configuration; says exactly when the new size is refused |
| StrandPool.Pool.UpdateStrandStats | src/server/strand_pool.cpp:332-338 | One more total and one more active request are counted on the strand, if there is one |
| StrandPool.Pool.RoundRobin | src/server/strand_pool.cpp:248-255 | An in-range strand chosen by the wrapped counter, or none on an empty pool |
| StrandPool.Pool.LeastConnections | src/server/strand_pool.cpp:257-274 | The choice has no more active requests than strand 0 and every healthy strand, and is healthy unless it is strand 0 |
| StrandPool.Pool.ConsistentHash | src/server/strand_pool.cpp:276-290 | The strand that owns the key on the ring of the current size |
| StrandPool.Pool.RandomStrand | src/server/strand_pool.cpp:292-300 | The strand at the drawn index |
| StrandPool.Pool.WeightedRoundRobin | src/server/strand_pool.cpp:302-330 | With positive total weight the strand whose interval holds the draw, so the fallback after the loop is never reached; the round-robin strand otherwise |
| PipelineProtocol.WithoutCounts | src/middleware/middleware_chain.cpp:21-27 | Unregistering removes every entry of one run and keeps all others |
| PipelineProtocol.StepKeeps | src/middleware/middleware_chain.cpp:16-61 | Every atomic step of every thread (start, next, claim, body, report, error, a throw of `should_execute`, both timers, cancel, pause, unregister, callback) keeps the protocol invariant of all runs |
| PipelineProtocol.TraceKeeps | src/middleware/middleware_chain.cpp:171-255 | So does every interleaving of any number of runs |
| PipelineSafety.CompletesAtMostOnce | src/middleware/middleware_chain.cpp:29-61 | Over every interleaving each completion callback fires at most once; a run is registered exactly while unfinished or about to unregister, and a settled run has completed exactly if finished |
| PipelineSafety.ClaimsInOrder | src/middleware/middleware_chain.cpp:401-428 | Each position is claimed at most once, in increasing order; no body starts twice; at most one claim follows a stop flag |
| PipelineSafety.StoppedStays | src/middleware/middleware_chain.cpp:401-409 | With a stop flag set and no thread inside the step lock, no step claims a position |
| PipelineSafety.NoClaimOnceStopped | src/middleware/middleware_chain.cpp:231-255 | No later interleaving claims one either |
| PipelineSafety.CancelReachesActiveRuns | src/middleware/middleware_chain.cpp:231-255 | After `cancel`, in every continuation in which its threads are through, each run that was active is cancelled |
| PipelineSafety.CancelledReportsStop | src/middleware/middleware_chain.cpp:401-409 | Over every continuation in which no body brings a result of its own, nothing throws and no timeout completes it, the callback of a cancelled run gets `Stop` and nothing else |
| PipelineSafety.StoppedStepCompletes | src/middleware/middleware_chain.cpp:401-409 | A step that may not advance brings its callback `Stop` when cancelled, else `Timeout` when timed out, else `Continue` |
| PipelineSafety.PausedStepCompletes | src/middleware/middleware_chain.cpp:257-259 | Pausing the chain makes the next step of a run bring its callback `Continue` |
| PipelineSafety.BodyCompletes | src/middleware/middleware_chain.cpp:496-551 | A report brings its own result to the callback, and a throw `Error` |
| PipelineSafety.GlobalTimerCompletes | src/middleware/middleware_chain.cpp:201-213 | The global timer calls the timeout handler once and brings `Timeout` |
| PipelineSafety.EmptyRunCompletes | src/middleware/middleware_chain.cpp:171-186 | A run of an empty pipeline completes at once with `Continue` and is never active |
| PipelineSafety.LateClaimExactly | src/middleware/middleware_chain.cpp:401-423 | With a stop flag set, some continuation claims a position if and only if a step holds the lock past its check |
| PipelineSafety.ClaimedLate | src/middleware/middleware_chain.cpp:201-213 | A reachable state in which a position was claimed after `timed_out` was set |
| PipelineSafety.TimeoutHandlerBound | src/middleware/middleware_chain.cpp:411-420 | The timeout handler is called at most twice per run, and twice only in an asynchronous run of two or more positions with both a lazy check and an armed middleware timer |
| PipelineSafety.TimeoutHandledAtMostOnce | src/middleware/middleware_chain.cpp:201-217 | At most once per run when the io_context is not replaced |
| PipelineSafety.TimeoutHandledTwice | src/middleware/middleware_chain.cpp:582-599 | For every pipeline of two or more, a reachable state in which it was called twice |
| PipelineSafety.HandledTwiceExactly | src/middleware/middleware_chain.cpp:411-420 | A run can have it called twice if and only if it is asynchronous, checks the global timeout lazily and has two or more positions |
| PipelineSafety.MiddlewareTimeoutReached | src/middleware/middleware_chain.cpp:582-599 | A reachable state in which the timeout handler of a middleware has been called and the run is still unfinished and active, with no thread at work on it |
| PipelineSafety.OnlyBodiesFinish | src/middleware/middleware_chain.cpp:582-599 | Over every continuation such a run stays unfinished as long as no started body calls `next`, reports or throws, and `execute` does not return |
| PipelineSafety.TimedOutFinishesExactly | src/middleware/middleware_chain.cpp:401-409 | It can still finish if and only if a body was started or it is a synchronous run |
| PipelineWalk.WalkInTwo | src/middleware/middleware_chain.cpp:314-393 | Permissions spent in two portions are spent as together: the order of nested and later `next` calls does not matter |
| PipelineWalk.VisitsAllExactly | src/middleware/middleware_chain.cpp:320-344 | All eligible positions are visited if and only if permissions never run out before one of them |
| PipelineWalk.GenerousVisitsAll | src/middleware/middleware_chain.cpp:395-428 | If every eligible body asks for more at least once, all are visited and the end is reached with a permission to spare |
| PipelineWalk.WalkToSilent | src/middleware/middleware_chain.cpp:314-393 | Closed form of what happens at the first body that never calls `next`: the permissions left over carry on behind it |
| PipelineWalk.StopsAtFirstSilentExactly | src/middleware/middleware_chain.cpp:314-393 | `execute` stops there if and only if every earlier body called `next` once, or nothing eligible follows |
| PipelineWalk.NothingBehindExactly | src/middleware/middleware_chain.cpp:401-428 | Nothing behind a visited position is visited if and only if no permission is left there or nothing eligible follows |
| PipelineWalk.ResumesPastSilent | src/middleware/middleware_chain.cpp:346-367 | A chain in which a position behind a silent one is executed |
| PipelineWalk.AdapterAsksOneMore | src/middleware/middleware.cpp:33-42 | The default adapter adds one request for more to a body that returns, none to one that throws |
| PipelineWalk.AsyncVisitsAll | src/middleware/middleware_chain.cpp:395-494 | Over the default adapter `execute_async` visits every eligible position once, in order, with no early completion |
| PipelineWalk.ExecutionsAgreeExactly | src/middleware/middleware_chain.cpp:314-494 | `execute` and `execute_async` visit the same positions if and only if the synchronous walk is never starved |
| PipelineWalk.AgreeWhenAllButLastCallNext | src/middleware/middleware.cpp:33-42 | In particular when all eligible bodies but the last call `next` |
| PipelineAgenda.AgendaInTwo | src/middleware/middleware_chain.cpp:395-494 | A list of actions worked off in two parts: nested steps amount to putting the actions of a body in front of the pending ones |
| PipelineAgenda.AgendaIsWalk | src/middleware/middleware_chain.cpp:314-428 | The agenda visits the positions of the walk before its limit, the end or the first position claimed too late, and finds its time used up exactly when a permission gets there |
| PipelineAgenda.AgendaTries | src/middleware/middleware_chain.cpp:531-551 | The results it tries to complete with are exactly those of its actions and of the bodies visited, and that of the limit if a permission gets there |
| PipelineAgenda.ResultsBrought | src/middleware/middleware_chain.cpp:496-551 | A throw brings `Error`, a report its own result, and a request at the limit `Timeout` or, at the end, `Continue` |
| PipelineAgenda.StopsBehindExactly | src/middleware/middleware_chain.cpp:531-551 | Whatever a body reports, `Stop` included: nothing behind it runs if and only if no permission is left there or nothing eligible follows |
| PipelineAgenda.RunsOnAfterStop | src/middleware/middleware_chain.cpp:538-543 | A body that reports `Stop` and calls `next`: the run completes with `Stop` and the next position runs |
| PipelineAgenda.AgendaErrors | src/middleware/middleware_chain.cpp:496-515 | The error handler is called once for each visited body that throws |
| PipelineAgenda.NoAttempts | src/middleware/middleware_chain.cpp:314-393 | A synchronous run tries no completion |
| PipelineAgenda.AdaptedAgenda | src/middleware/middleware.cpp:33-42 | Over the default adapter every eligible position is visited once, in order, and the first result is `Continue` |
| PipelineExecution.Chain.Use | src/middleware/middleware_chain.cpp:64-70 | The middleware joins the chain, which is in priority order again |
| PipelineExecution.Chain.SortByPriority | src/middleware/middleware_chain.cpp:553-557 | A permutation in priority order |
| PipelineExecution.Chain.RegisterRun | src/middleware/middleware_chain.cpp:16-19 | The run is appended to the active runs |
| PipelineExecution.Chain.UnregisterRun | src/middleware/middleware_chain.cpp:21-27 | The run is gone and no other is |
| PipelineExecution.Chain.TryFinishRun | src/middleware/middleware_chain.cpp:29-50 | Only the first caller wins; it unregisters this run and no other |
| PipelineExecution.Chain.CompleteAsyncRun | src/middleware/middleware_chain.cpp:52-61 | The callback fires for the winner only, with its result, and nothing else changes |
| PipelineExecution.Chain.ExecuteNextSync | src/middleware/middleware_chain.cpp:314-393 | The re-entrant step through shared state has exactly the effect of the agenda with one request for a position, wherever the time runs out; terminates by pipeline size minus index; a stopped run is left alone |
| PipelineExecution.Chain.StopsSync | src/middleware/middleware_chain.cpp:319-340 | The checks of a step: the timeout handler is called exactly when the time is found used up |
| PipelineExecution.Chain.ClaimNextSync | src/middleware/middleware_chain.cpp:342-349 | Claiming a position, with its body or past an ineligible one |
| PipelineExecution.Chain.RunBodySync | src/middleware/middleware_chain.cpp:346-393 | A body that calls `next` any number of times and may throw has the effect of its actions on the agenda |
| PipelineExecution.Chain.ActSync | src/middleware/middleware_chain.cpp:356-393 | One action of a body |
| PipelineExecution.Chain.Execute | src/middleware/middleware_chain.cpp:136-169 | The visited positions are those of the walk up to the position claimed too late, none when paused; one error-handler call per throwing body, one timeout call exactly when the time is found used up; the run ends finished and the active runs are as before |
| PipelineExecution.Chain.FromTheStart | src/middleware/middleware_chain.cpp:150-160 | The first step of a run is the whole run |
| PipelineExecution.WholeRequest | src/middleware/middleware_chain.cpp:136-229 | The closed form of a whole request, synchronous or not |
| PipelineExecution.Chain.ExecuteNextAsyncStep | src/middleware/middleware_chain.cpp:395-494 | The same for the asynchronous step: the callback gets the first result that comes up in the order of the agenda; a run that is cancelled gets `Stop`, else one that is timed out `Timeout`, else one of a paused chain `Continue` |
| PipelineExecution.Chain.FinishInstead | src/middleware/middleware_chain.cpp:400-420 | A step that may not claim a position completes the run with `Stop` when cancelled, else `Timeout` when timed out, else `Continue`, and calls the timeout handler exactly when the time is found used up |
| PipelineExecution.Chain.ClaimNext | src/middleware/middleware_chain.cpp:422-428 | Claiming a position, with its body or past an ineligible one |
| PipelineExecution.Chain.RunBodyAsync | src/middleware/middleware_chain.cpp:430-494 | The same for one body |
| PipelineExecution.Chain.ActAsync | src/middleware/middleware_chain.cpp:531-551 | `Continue` takes another step; every other report completes; a throw goes to the error handler |
| PipelineExecution.Chain.HandleErrorRun | src/middleware/middleware_chain.cpp:496-515 | The error handler is called and the run completed with `Error` |
| PipelineExecution.Chain.HandleTimeoutRun | src/middleware/middleware_chain.cpp:517-529 | The timeout handler is called and the run completed with `Timeout` |
| PipelineExecution.Chain.ExecuteAsync | src/middleware/middleware_chain.cpp:171-229 | Visits the walk up to the position claimed too late; completes at most once, if and only if a permission reaches the limit or a visited body ends it, with the first result that comes up; is registered exactly while unfinished, with all other runs kept; over the default adapter visits every eligible position and completes with `Continue` |
| RateLimit.WindowInvariant | include/foxhttp/middleware/advanced/rate_limit_middleware.hpp:50-67 | The bucket counts what was admitted since its start, and less than a window before the start at most capacity - 1 were |
| RateLimit.IntervalBound | include/foxhttp/middleware/advanced/rate_limit_middleware.hpp:50-67 | Main theorem: over any monotone clock, any half-open interval as long as the window admits at most 2·max(1, max_requests) - 1 requests of a key |
| RateLimit.BoundIsReached | include/foxhttp/middleware/advanced/rate_limit_middleware.hpp:50-67 | The bound is attained for every positive limit and every window of at least two time units |
| RateLimit.SlidesExactly | include/foxhttp/middleware/advanced/rate_limit_middleware.hpp:19-21 | No interval as long as the window ever admits more than the capacity, as a sliding window promises, if and only if the limit is at most one or the window at most one time unit |
| RateLimit.RefusalMeansFull | include/foxhttp/middleware/advanced/rate_limit_middleware.hpp:59-66 | A refusal happens only inside a window that has admitted at least max_requests |
| RateLimit.Limiter.constructor | include/foxhttp/middleware/advanced/rate_limit_middleware.hpp:20-21 | A new limiter has no history |
| RateLimit.Limiter.IsLimited | include/foxhttp/middleware/advanced/rate_limit_middleware.hpp:50-67 | The decision depends only on the times of earlier requests of the same key |
| PercentCoding.DecodeInvertsEncode | src/parser/form_parser.cpp:215-254 | Decoding inverts encoding for every byte string |
| PercentCoding.DecodersAgree | src/server/request_context.cpp:6-29 | The two decoders agree wherever every `%` with two following bytes is followed by two hex digits |
| PercentCoding.EncodedAlphabet | src/parser/form_parser.cpp:239-254 | Encoded text has unreserved characters and `%` only (sections 2.1 and 2.3 of RFC 3986) |
| PercentCoding.EncodedByteExactly | src/parser/form_parser.cpp:239-254 | Exactly the unreserved characters of section 2.3 of RFC 3986 stand for themselves; every other byte is a percent sign and two upper-case hex digits |
| PercentCoding.EscapeIsRead | src/parser/form_parser.cpp:215-237 | An escape is read with digits of either case |
| PercentCoding.PlusAndShortEscape | src/parser/form_parser.cpp:215-237 | A plus is a space, and a percent sign with fewer than two bytes after it is kept |
| PercentCoding.MalformedEscape | src/server/request_context.cpp:6-29 | Two bytes that are not both hex digits are what the library makes of them, or else the percent sign is kept |
| PercentCoding.UrlEncode | src/parser/form_parser.cpp:239-254 | The loop equals the encoding that decoding inverts |
| PercentCoding.UrlDecode | src/parser/form_parser.cpp:215-237 | The loop equals the decoding, with `+`, short and malformed escapes |
| FormData.CollectedValues | src/parser/form_parser.cpp:107-130 | Each normalised name ends up with exactly its values in order, after those it had |
| FormData.CollectedArrayFlag | src/parser/form_parser.cpp:107-130 | A field is an array if and only if it was, got a further value, or its first name said so |
| FormData.CollectedNames | src/parser/form_parser.cpp:107-130 | Each field carries the name it is stored under |
| FormData.NamesExactly | src/parser/form_parser.cpp:146-158 | With array support a name ending in `[]` is an array field under the name before it; every other name stands for itself |
| FormData.PairSplitsExactly | src/parser/form_parser.cpp:136-144 | A pair is split at its first `=`; without one it is a name with an empty value |
| FormData.PairsSeparated | src/parser/form_parser.cpp:92-134 | Pairs are separated by `&`, empty ones are skipped, and one with a part over the limit fails the body |
| FormData.EncodedPairReads | src/parser/form_parser.cpp:136-144 | An encoded pair is read back as the pair, and holds no separator |
| FormData.ParsePairs | src/parser/form_parser.cpp:92-134 | The scanning loop equals collecting the pairs of the split text, or fails at the first pair that is too large |
| FormData.ParseInvertsEncode | src/parser/form_parser.cpp:92-134 | Parsing an encoded list collects exactly its pairs if all fit, and fails otherwise |
| FormData.FormRoundTrip | src/parser/form_parser.cpp:92-158 | Main theorem: parsing the encoded list gives, for each name, exactly its values in order and the right array flag, and no other names |
| Base64.DecodersInvertEncode | src/parser/multipart_parser.cpp:526-551 | Both decoders invert the encoding of section 4 of RFC 4648, padded or not, for every length, with a 32-bit accumulator |
| Base64.LenientIsStrictOnCleaned | include/foxhttp/middleware/advanced/auth_middleware.hpp:147-174 | From every accumulator state the auth decoder equals the multipart decoder on the cleaned rest |
| Base64.DecodersRelated | include/foxhttp/middleware/advanced/auth_middleware.hpp:147-174 | On every string the auth decoder equals the multipart decoder on the prefix before `=` without foreign bytes |
| Base64.AlphabetExactly | src/parser/multipart_parser.cpp:526-551 | The alphabet of section 4 of RFC 4648, in its order, and no other byte has a value |
| Base64.TestVectors | src/parser/multipart_parser.cpp:526-551 | Three test vectors of section 10 of RFC 4648 |
| Base64.StrictStops | src/parser/multipart_parser.cpp:526-551 | The multipart decoder stops at the first byte outside the alphabet |
| Base64.LenientSkipsOrStops | include/foxhttp/middleware/advanced/auth_middleware.hpp:147-174 | The auth decoder skips such a byte, unless it is `=`, at which it stops |
| Base64.MultipartBase64Decode | src/parser/multipart_parser.cpp:526-551 | The accumulator loop equals the strict decoding |
| Base64.AuthBase64Decode | include/foxhttp/middleware/advanced/auth_middleware.hpp:147-174 | The accumulator loop equals the lenient decoding |
| JsonValue.EqReflexive | src/config/config_manager.cpp:334 | The library equality used to detect a change is reflexive |
| JsonValue.EqSymmetric | src/config/config_manager.cpp:334 | It is symmetric |
| JsonValue.NumbersCompare | src/config/config_manager.cpp:334 | How numbers compare, of like and of different kinds |
| JsonValue.EqWithoutNumbers | src/config/config_manager.cpp:334 | Apart from numbers, equality is identity |
| JsonValue.EqTransitive | src/config/config_manager.cpp:334 | It is transitive on documents to whose integers the conversion to `double` is faithful |
| JsonValue.TransitiveExactly | src/config/config_manager.cpp:334 | And on those only: it is transitive on documents with given integers if and only if these are equal exactly when their conversions are |
| JsonValue.SafeIntegersAreFaithful | src/config/config_manager.cpp:334 | The conversion is faithful to integers up to 2^53 in size, signed and unsigned |
| JsonValue.WalkDotPath | src/config/config_manager.cpp:286-301 | The loop equals folding lookup over the dot-split path |
| JsonValue.SplitDotsExactly | src/config/config_manager.cpp:286-301 | The keys of a path are the texts between its dots |
| JsonValue.DeepMerge | src/config/config_manager.cpp:303-317 | The in-place loop over the keys of the source equals the recursive merge, in any order of the keys |
| JsonValue.MergeWherePresent | src/config/config_manager.cpp:303-317 | Where the source has a value, the merged value is the source laid over the destination |
| JsonValue.NonObjectWins | src/config/config_manager.cpp:303-317 | A non-object source value wins and hides everything below it |
| JsonValue.MergeWhereSilent | src/config/config_manager.cpp:303-317 | Where the source lacks a path with no non-object on the way, the destination survives |
| JsonValue.LawsCoverEveryPath | src/config/config_manager.cpp:303-317 | Every path falls under one of these laws |
| JsonValue.MergeIdempotent | src/config/config_manager.cpp:303-317 | Merging the same source twice equals merging once |
| ConfigManager.LoadKeepsTracking | src/config/config_manager.cpp:71-118 | A load that does not throw keeps every subscriber equal to the document at its path, when the conversion is faithful to the integers around |
| ConfigManager.TrackingAfterThrow | src/config/config_manager.cpp:100-118 | After a load that throws in the snapshot, subscribers then still track if and only if no subscribed path changed |
| ConfigManager.SubscribersTrack | src/config/config_manager.cpp:325-342 | Over any sequence of loads whose sections have the expected types every subscriber then tracks its path |
| ConfigManager.TrackingExactly | src/config/config_manager.cpp:325-342 | Main theorem: subscribers track over every such sequence of loads if and only if the conversion is faithful to the integers that documents may hold |
| ConfigManager.SafeDocumentsTrack | src/config/config_manager.cpp:325-342 | So they always track when no integer exceeds 2^53 in size |
| ConfigManager.LargeIntegersSlip | src/config/config_manager.cpp:334 | The failing case: 2^53, 2^53 as a float, 2^53 + 1; no load notifies, and the subscriber keeps the first |
| ConfigManager.VersionsIncrease | src/config/config_manager.cpp:272-284 | Over any sequence of loads the snapshot is the old one or has a larger version than all before |
| ConfigManager.RefusedExactly | src/config/config_manager.cpp:71-118 | A load is refused if and only if there is no document, or the document over the defaults does not validate; a loaded one has a snapshot of the new document under the next version |
| ConfigManager.DocumentAfterLoad | src/config/config_manager.cpp:93-112 | The document an accepted load leaves: the values of the defaults where the file is silent, those of the file where it has any but an object, and the keys of both where both have objects |
| ConfigManager.DefaultsStay | src/config/config_manager.cpp:93-94 | A port of the defaults stays beside a host of the file |
| ConfigManager.NumericFormMayDiffer | src/config/config_manager.cpp:334 | A subscriber keeps 1 when the document changes to 1.0, so it holds an equal value but not the same |
| ConfigManager.ExactTrackingExactly | src/config/config_manager.cpp:325-342 | A load keeps every subscriber at the very value of the document if and only if no subscribed value changes to another one that the library calls equal |
| ConfigManager.Manager.constructor | include/foxhttp/config/config_manager.hpp:74-79 | A new manager has a null document, no snapshot and no subscribers |
| ConfigManager.Manager.Subscribe | src/config/config_manager.cpp:151-154 | A subscriber that starts from the current value is added, and tracking is kept |
| ConfigManager.Manager.JsonPointerAt | src/config/config_manager.cpp:319-323 | The value at the path, or null |
| ConfigManager.Manager.LoadFile | src/config/config_manager.cpp:71-118 | Every outcome and the new document, snapshot, version and subscribers; a refused load changes nothing |
| ConfigManager.Manager.NotifySubscribers | src/config/config_manager.cpp:325-342 | Exactly the subscribers of changed paths get the new value, in any order of the paths |
| PlainText.TwoPassesAreOne | src/parser/plaintext_parser.cpp:96-114 | The two replacement passes equal one CRLF, CR or LF to LF reading |
| PlainText.NormalizedExactly | src/parser/plaintext_parser.cpp:96-114 | A CRLF, and any other CR, becomes one LF; other bytes stay |
| PlainText.NormalizedHasNoCr | src/parser/plaintext_parser.cpp:96-114 | No CR is left |
| PlainText.NormalizeIdempotent | src/parser/plaintext_parser.cpp:96-114 | Normalising twice equals once |
| PlainText.NormalizeLineEndings | src/parser/plaintext_parser.cpp:96-114 | The in-place loops equal the one-pass reading |
| PlainText.ReplaceCrLf | src/parser/plaintext_parser.cpp:99-104 | Find and replace in place from a moving position equals dropping every CR before LF |
| PlainText.ReplaceCr | src/parser/plaintext_parser.cpp:106-111 | Find and replace of the remaining CR bytes |
| PlainText.TrimWhitespace | src/parser/plaintext_parser.cpp:116-139 | The result is the text without leading and trailing white space, and the end index never wraps |
| PlainText.SpacesExactly | src/parser/plaintext_parser.cpp:116-139 | White space is tab, line feed, vertical tab, form feed, carriage return and space |
| PlainText.IsValidUtf8 | src/parser/plaintext_parser.cpp:141-176 | The index loop accepts exactly the texts whose lead bytes have their continuation bytes |
| PlainText.MasksExactly | src/parser/plaintext_parser.cpp:141-176 | First and continuation bytes by the bit masks that the code tests |
| PlainText.CheckContinuation | src/parser/plaintext_parser.cpp:150-172 | The bytes after a lead byte are checked, and running off the end is refused |
| PlainText.NormalizeKeepsVerdict | src/parser/plaintext_parser.cpp:61-80 | Normalising line ends never changes the UTF-8 verdict |
| PlainText.TrimKeepsVerdict | src/parser/plaintext_parser.cpp:61-80 | Trimming never changes it |
| PlainText.ProcessText | src/parser/plaintext_parser.cpp:61-80 | Fails exactly on an invalid text under validation; the result is normalised and trimmed as configured and has the verdict of the input |
| PlainText.EncodingsAccepted | src/parser/plaintext_parser.cpp:141-176 | Every encoding of Unicode scalar values (section 3 of RFC 3629) is accepted |
| PlainText.ScalarExamples | src/parser/plaintext_parser.cpp:141-176 | Four characters of the examples in section 7 of RFC 3629 |
| PlainText.OverlongAccepted | src/parser/plaintext_parser.cpp:141-176 | An accepted text that encodes no sequence of scalar values |
| PlainText.EncodedExactly | src/parser/plaintext_parser.cpp:141-176 | A text encodes scalar values if and only if it is accepted and its first and second bytes are in the ranges of section 4 of RFC 3629 |
| PlainText.LeadIsEncoding | src/parser/plaintext_parser.cpp:141-176 | A first byte in range starts the encoding of a scalar value, the one its bits spell |

## Left out

- Sockets, TLS, WebSocket, coroutines, the accept loops and `HttpClient`: input and output through Boost.
- `ConnectionPool` and `TimerManager`: a connection counter that is never raised, and a task insertion that locks its own mutex twice.
- JSON preprocessing and schema checks; YAML and JSON file loading: a document, or nothing, is a parameter. Typed sections and the snapshot are a partial function of the document.
- Multipart temporary files, stored content, progress and error callbacks, and `parse_with_boundary`: stubs or output without logic.
- `parse_query`, `parse_cookies`, `parse_kv`: they would repeat the form parser's loop.
- `ConditionalMiddleware`, the builder, statistics, and the chain's insert, remove and clear: easy members.
- Static files, compression, logging, CORS, security headers, and JWT or auth validators.
- Real time: clocks are parameters or events. The rate limiter's clock is a positive number that never goes back.
- Scheduling below the atomic steps: the loads of `cancelled`, `timed_out` and `paused` at the head of a step are one step, which then holds the lock until its claim.
- Completion callbacks, error handlers and timeout handlers that throw, exceptions that are not `std::exception`, and empty callbacks.
- PipelineExecution.Chain.ExecuteAsync: bodies act before they return, with no timer, cancel or pause in between; later callbacks and races are the subject of `PipelineProtocol`. The time can run out before any position. A `should_execute` that throws is an event of the protocol only.
- PipelineSafety.TimeoutHandledTwice: `next` cancels the timer of its middleware, which the protocol does not show; the state is reached when the timer's handler is queued already.
- The inside of `std::regex`: matching is a declarative relation and a greedy backtracking matcher proved sound and complete for it, over the dialect that the compiler emits.
- The quality of `std::hash`: the hash is any function of strand and virtual node.
- The rounding of load factors and of integers converted to `double`: these are parameters, any functions with the range that the code relies on. NaN and infinities, which JSON text cannot hold, are not among the numbers.
- Wrap-around of 64-bit counters other than the round-robin index.
- PercentCoding.UrlDecode: what the library makes of two bytes after `%` that are not both hex digits is a parameter, one for each decoder.
- `isalnum`, `isspace` and `tolower` outside the C locale.
- RouteTable.SortBySpecificity: the order of routes with the same pattern, which `std::sort` leaves open.
- Null middlewares and null handlers.
