# A verified model of the static file server

The repository is a multi-threaded HTTP/1.x server for static files, written in C. This project models its four cores
in Dafny and proves what they promise. `dafny verify dfyconfig.toml` checks it.

* **The worker pool** (`src/thread_pool.c`, driven by `server_run` and `server_stop`). `BoundedQueue` is the ring buffer
  as a class, proved against a bounded sequence. `PoolProtocol` is the condition-variable protocol as a step system in
  which the mutex has an owner and every critical section is cut into program counters. A signal wakes any nonempty
  subset of the waiting workers, workers also wake spuriously, and every accepted connection is named by a fresh
  ticket. `PoolSafety` proves an invariant of every reachable state, and `PoolTheorems` what follows for whole schedules.
* **The connection engine** (`src/server.c`). `Sockets` is a socket whose calls of `recv` and `send` follow a script;
  `Framing` cuts the byte stream into request blocks; `Responses` prints header blocks; `Messages` is a reader that
  follows section 6.3 of RFC 9112; `Responder` decides which response a request gets; `Conversation` is a whole
  connection as a fold over its byte stream; `ClientHandler` is the code, proved against that fold. `PartialContent` is
  what a client is told about the content, read by section 14.4 of RFC 9110, and `Pipeline` goes from the text of many
  requests at once to the files their client reads.
* **The request parser** (`src/http.c`). `Text` holds the scanning loops, `Numerals` the overflow-checked numbers,
  `Ranges` the Range header and its arithmetic, `HttpParser` the parser and its grammar, `HttpPrinter` canonical
  requests and the round trip, `Persistence` the Connection options against section 9.3 of RFC 9112, and `HeaderCase`
  the case of letters.
* **Paths and listings** (`src/files.c`). `UrlCodec` and `Html` are the two codecs, `StringBuilder` is the growing
  buffer, `Listing` and `ListingBuilder` are the listing page and its reader, and `Paths` is path resolution.
  `Navigation` puts them together with the way a client resolves a reference and says when following a link of a
  listing leads to its entry; `Site` is the file system that `Responder` answers from.

Bytes are Dafny `char`s; the percent codec requires them to be below 256. A C string is a `string` without NUL, and a
buffer that is read as a C string goes through `CString`, so NULs and truncation act as they do in the code. `Size` is a
64-bit `size_t`, and wrap-around is written out where the code can reach it. The file system is a function from request
paths to what is found there, or from paths to what `realpath` answers.

The code is modelled as it is, also where that is not what it should be. Then a lemma says for which inputs exactly it
does what it should, and one in `Counterexamples` gives an input for which it does not:

| what | holds exactly if | fails for |
|---|---|---|
| the last Range line decides | `Ranges.LastRangeDecidesIff` | `StaleSuffixExample` |
| a GET transfers what the range fields ask for | `Ranges.ResolvedIsSelectedIff`, `Responder.GetTransfersSelectionIff` | `ZeroSuffixExample` |
| a GET transfers what section 14.1.2 of RFC 9110 selects | `Responder.OneRangeLineEndToEnd` | `EmptyFileExample`, `EmptyElementExample`, `NoBytesExample`, `BeyondEveryFileExample`, `ToBeyondEveryFileExample` |
| a connection persists as section 9.3 of RFC 9112 has it | `Persistence.PersistsByStandardIff`, `Conversation.GoesOnByStandardIff` | `CloseInListExample` |
| an announced close comes | `Conversation.EndsIffAnnounced`, `Conversation.AnnouncedEndIsLast` | `AnnouncedButOpenExample` |
| the client reads the responses back | `Conversation.ClientReadsBackIff` | `RefusedHeadExample`, `ShortFileExample` |
| a listing's link leads to its entry | `Navigation.LinkLeadsToItsEntryIff` | `NoSlashExample` |
| a file below the document root is resolved | `Paths.ResolvedIff` | `RootSlashExample` |

`report/level-5-deep-dive.md` and `report/05-range-requests-en.md` show other code for `resolve_range` than
`src/server.c`; the model follows the source.

## Model

| member | source | states |
|---|---|---|
| BoundedQueue.SocketQueue.constructor | src/thread_pool.c:43-54 | a new queue is an empty open sequence of the given capacity |
| BoundedQueue.SocketQueue.Init | src/thread_pool.c:36-76 | a queue is created exactly for a nonzero capacity, if both allocations and the mutex and condition variables can be had |
| BoundedQueue.SocketQueue.Enqueue | src/thread_pool.c:90-116 | CLOSED exactly if the flag is set, FULL exactly if it is not and every slot is taken, otherwise OK; on OK the item is appended to the sequence, otherwise nothing changes, with any amount of wraparound |
| BoundedQueue.SocketQueue.Dequeue | src/thread_pool.c:118-151 | waits exactly if nothing is queued and the flag is not set, reports CLOSED exactly if nothing is queued and it is, and otherwise takes the item at the head, the first of the sequence |
| BoundedQueue.SocketQueue.Shutdown | src/thread_pool.c:153-163 | sets the flag and keeps what is queued |
| BoundedQueue.RingPop | src/thread_pool.c:140-142 | the slot at the head holds the first item and the ring after it the others, also across the end of the array |
| BoundedQueue.RingPush | src/thread_pool.c:106-108 | writing the slot at the tail appends to the sequence the ring stands for |
| BoundedQueue.RunIsFifo | src/thread_pool.c:98-142 | over any run of operations, what was waiting and then what was accepted is handed out in that order, the rest is still waiting, the capacity is never exceeded, and a shut queue accepts nothing |
| BoundedQueue.AcceptedIff | src/thread_pool.c:99-115 | over runs: an item gets in exactly if the queue is not shut and fewer than `capacity` items wait; full is the answer exactly if `capacity` items wait |
| BoundedQueue.BurstFillsTheRoom | src/thread_pool.c:99-115 | of a burst of any length exactly what there is room for is accepted, from its front; all of it if it fits, nothing if the queue is shut |
| BoundedQueue.DrainEmptiesTheFront | src/thread_pool.c:128-142 | taking any number of items hands out that many from the front, or all that wait, whether or not the queue is shut |
| PoolProtocol.CountWakes | src/thread_pool.c:110-161 | a signal or broadcast never lowers the number of awake workers, raises it if anybody woke, and moves no connection |
| PoolSafety.NoLostWakeupKeptByWorker | src/thread_pool.c:124-148 | no worker step, parking and taking included, breaks the bound of queued items by awake workers |
| PoolSafety.NoLostWakeupKeptByAccept | src/thread_pool.c:98-113 | storing an item and then signalling, as two steps, keeps that bound |
| PoolSafety.NoLostWakeupKeptByJoin | src/thread_pool.c:158-162 | setting the flag and then broadcasting, as two steps, keeps it |
| PoolSafety.NoLostWakeupKeptByOthers | src/thread_pool.c:128-131 | the stopping thread and spurious wakeups keep it |
| PoolSafety.ConservedKeptByWorker | src/thread_pool.c:139-150 | a worker step moves a connection from the queue to that worker or from it to closed, and never copies or drops one |
| PoolSafety.ConservedKeptByAccept | src/server.c:574-603 | so does every step of the accept loop, with a refused or failed enqueue ending in the main thread's own close |
| PoolSafety.HandledOnceKeptByWorker | src/thread_pool.c:29-31 | handler calls match the connections being handled or closed by a worker, one for one |
| PoolSafety.InOrderKeptByWorker | src/thread_pool.c:140-142 | what has been taken and what is queued is, in order, what was enqueued |
| PoolSafety.InvKept | src/thread_pool.c:90-163 | every step of every thread and of the environment keeps mutual exclusion, the flags, no lost wakeup, conservation, single handling and order |
| PoolSafety.Always | src/thread_pool.c:22-220 | so all of these hold in every state of every schedule |
| PoolTheorems.WorkIsNeverSleptOn | src/thread_pool.c:109-131 | with the mutex free and a worker parked, there are at least as many woken workers that have not looked yet as queued connections |
| PoolTheorems.AtMostOnce | src/server.c:574-603 | no connection is handled or closed twice, and only accepted ones are |
| PoolTheorems.DrainedWhenStopped | src/thread_pool.c:204-220 | when `thread_pool_stop` has returned, the queue is empty, exactly the created workers have exited, and exactly the accepted connections are closed, each once; also after a start that failed at any worker |
| PoolTheorems.TakenInOrder | src/thread_pool.c:106-142 | connections are taken in the order of their acceptance and none is passed over |
| PoolTheorems.RefusedIff | src/thread_pool.c:99-115 | the main thread turns a connection away exactly if the queue is shut or full; otherwise the connection is queued last |
| PoolTheorems.OnlyTurnedAwayAreRefused | src/server.c:574-603 | over whole schedules, the main thread closes a connection itself only if it found the queue shut or full when it wanted to add it |
| PoolTheorems.StopsForAReason | src/server.c:574-606 | over whole schedules, the main thread is in the accept loop unless `server_stop` was called or a worker could not be created |
| PoolTheorems.ClosedForGood | src/thread_pool.c:99-131 | once the flag is set it stays set, nothing enters the queue and nobody starts to wait |
| PoolTheorems.EveryStepDescends | src/thread_pool.c:128-215 | once the flag is set, every step of any thread or of the environment lowers a natural number |
| PoolTheorems.ShutdownTerminates | src/thread_pool.c:204-220 | after the flag is set, no schedule has more further steps than that number |
| PoolTheorems.OwnerCanStep | src/thread_pool.c:98-163 | the owner of the mutex is never stuck |
| PoolTheorems.WorkerCanStep | src/thread_pool.c:22-150 | with the mutex free, every created worker that neither waits nor has exited can take a step |
| PoolTheorems.NeverSticks | src/thread_pool.c:22-220 | shut or not, some thread of the program can take a step unless all are at rest: the main thread has returned from the stop or waits in `accept`, no `server_stop` is under way, and every created worker waits for work or has exited |
| PoolTheorems.MaximalRunsDrain | src/server.c:574-606 | in every reachable state: no thread can go on exactly if all are at rest, and then the queue is empty and every accepted connection is closed, once; with the queue shut, no worker waits any more |
| Text.AsciiCaseEqual | src/http.c:16-25 | two C strings are equal up to case |
| Text.AsciiCaseEqualBounded | src/http.c:27-41 | a span and a constant are equal up to case |
| Text.LowerIff | src/http.c:18-35 | two characters are taken for the same exactly if they are, or are the two cases of one ASCII letter |
| Text.EqualIgnoringCaseIff | src/http.c:16-41 | two texts are taken for the same exactly if they have the same length and differ at most in letters of the other case |
| Text.CopyIsCut | src/http.c:7-14 | a bounded copy is the text up to its first NUL, and at most what fits |
| HeaderCase.CaseChangesNothing | src/http.c:93-188 | changing the case of any letters in the header section, in names, in "close", "keep-alive" and "bytes" or anywhere else, changes nothing about the parsed request |
| Text.SkipSpaces | src/http.c:57-62 | the start moves past the leading blanks, and no further |
| Text.TrimTrailingSpan | src/http.c:64-70 | the end moves before the trailing blanks and line-end characters, and no further |
| Text.FindCrlf | src/http.c:43-55 | the first CRLF, if there is one |
| Text.LineEnd | src/http.c:159-186 | a text without CRLF followed by one is found to end there, whatever comes after |
| Numerals.ParseSizeToken | src/http.c:72-91 | succeeds exactly for a nonempty digit string whose value is at most SIZE_MAX, with that value; nothing wraps |
| Numerals.PrintedValue | src/server.c:161 | the printed numeral denotes the number and has no superfluous zero |
| Numerals.SizeRoundTrip | src/http.c:72-91 | parsing inverts printing for every `size_t`, and for nothing larger; printing is injective |
| Numerals.SizeLength | src/server.c:290 | no `size_t` takes more than twenty digits |
| Ranges.RangeIsRead | src/http.c:120-151 | a range of the grammar of section 14.1.2 of RFC 9110 with numbers of any size is read as what it asks for, or as nothing if a number is no `size_t` or a suffix count is zero |
| Ranges.ReadIffRequested | src/http.c:93-152 | a Range value of any text, with its white space, unit and list elements, is read as a range exactly if it asks for that range, every number is a `size_t`, a suffix count is not zero, and there is no comma |
| Ranges.FlagsStick | src/http.c:125-151 | what every field is after any number of Range lines; the two flags are set by any line and never cleared |
| Ranges.LastRangeDecidesIff | src/http.c:125-151 | the last Range line that is not ignored is the one served, exactly if no earlier line left a flag that its own form does not set |
| Ranges.SatisfiableIff | src/server.c:198-214 | a range selects a position exactly if it is satisfiable in the sense of section 14.1.2 of RFC 9110 and the file is not empty |
| Ranges.ResolvedIsSelectedIff | src/server.c:185-223 | the resolved range is exactly the selected positions, or a refusal if it is not satisfiable, exactly if the fields are neither a zero suffix of a nonempty file nor a nonzero suffix of an empty one |
| Ranges.LengthIsExactIff | src/server.c:202-221 | the length is the distance of the ends exactly if the fields are not a zero suffix; then the subtraction wraps and the result is an empty partial range that ends before it starts |
| Ranges.OneLineIsNeverZeroSuffix | src/http.c:125-132 | one Range line, whatever its text, never does, and the fields mean what it says |
| HttpParser.HeadersMean | src/http.c:179-183 | the last Connection line decides, cut to its field, and the Range lines act in order |
| HttpParser.RangeSpecsOfValues | src/http.c:181-183 | the Range lines act by their values, one each and in order |
| HttpParser.VersionCopy | src/http.c:262-266 | cutting the version to its field makes no good version of a bad one |
| HttpParser.VerbCopy | src/http.c:190-198 | cutting the method to its field makes no GET or HEAD of a longer word |
| HttpParser.LineSays | src/http.c:232-269 | what a request line says, by its own characters: GET exactly for "GET" and HEAD for "HEAD", up to a NUL, the version likewise, and the path up to the query, a NUL, or 1023 characters |
| HttpParser.ConnectionIsCut | src/http.c:179-180 | the stored Connection text is the last value up to a NUL, and at most 31 characters of it |
| HttpParser.RequestLineFields | src/http.c:259-266 | the fields of a request line: method, path without the query and cut to its field, version |
| HttpParser.AcceptsExactlyRequestLines | src/http.c:226-269 | a block is accepted exactly if its first line is a request line of the server's restriction of section 3 of RFC 9112 |
| HttpParser.SplitRequestLine | src/http.c:232-257 | the first line is cut at its first two spaces and the target at its query, and refused if a part is empty |
| HttpParser.HttpRequest.ParseRangeSpec | src/http.c:120-151 | updates exactly the fields the branches update |
| HttpParser.HttpRequest.ParseRangeHeader | src/http.c:93-152 | a Range value changes the range fields as its grammar reading says |
| HttpParser.HttpRequest.ParseHeaderLine | src/http.c:174-184 | one header line changes the connection text or the range fields, or nothing |
| HttpParser.HttpRequest.ParseHeaders | src/http.c:154-188 | the lines before the first empty or unterminated one act, each once and in order |
| HttpParser.HttpRequest.DecideKeepAlive | src/http.c:274-281 | persistence from the version and the stored Connection text as a whole |
| HttpParser.HttpRequest.ParseRequestLine | src/http.c:232-269 | accepts exactly what the request-line function accepts, with its fields |
| HttpParser.HttpRequest.Parse | src/http.c:210-284 | the whole parser, from any earlier state of the request, equals the parse function on the block |
| Persistence.ConnectionCopy | src/http.c:179-180 | cutting the Connection value to its field makes no option of a longer text |
| Persistence.PersistsAsRead | src/http.c:274-281 | a request persists exactly if the last Connection value, up to a NUL, is not just "close", or for HTTP/1.0 is just "keep-alive" |
| Persistence.PersistsByStandardIff | src/http.c:274-281 | it persists as section 9.3 of RFC 9112 has it for the options of all its Connection lines exactly if the last value decides alone |
| Persistence.WithoutNul | src/http.c:274-281 | which Connection lines these are: with HTTP/1.1, a "close" is all of the last value; with HTTP/1.0, so is a "keep-alive" without "close", and a last value "keep-alive" has no "close" beside it |
| Persistence.OneOptionDecides | src/http.c:274-281 | with at most one Connection line, of one option, the standard is met |
| Persistence.RequestPersistsIff | src/http.c:210-284 | the same for the request at the front of any input |
| HttpPrinter.HeaderLinesOfJoined | src/http.c:154-188 | splitting undoes joining, whatever follows the empty line |
| HttpPrinter.FieldsOfLines | src/http.c:174-184 | printed header fields come back with their names and values |
| HttpPrinter.PaddedFieldOfLine | src/http.c:174-177 | spaces and tabs before a value, and spaces, tabs and single line-end characters behind it, however many, are not part of it |
| HttpPrinter.CanonicalLine | src/http.c:232-269 | the printed request line gives back method, path and version |
| HttpPrinter.CanonicalRoundTrip | src/http.c:210-284 | parsing undoes printing of any request within the field limits: the query is dropped, the last Connection decides, the Range fields act in order |
| Sockets.Socket.SendAll | src/server.c:31-50 | everything is sent in order however `send` cuts it and is interrupted, or, if a call fails or takes nothing, a part from the front |
| Framing.BlankLineInPrefix | src/server.c:83-97 | a blank line found in what has arrived is the first of the whole stream |
| Framing.FramedIff | src/server.c:83-120 | a block is framed exactly if CRLFCRLF ends it within 8192 bytes, and it ends at the first |
| Framing.AcceptedIff | src/server.c:108-134 | which bytes begin with a request: those where CRLFCRLF ends a block within 8192 bytes and the first line is a request line |
| Framing.RestFollowsBlock | src/server.c:113-115 | what follows a request is exactly what follows its CRLFCRLF |
| Framing.EndOfInputIff | src/server.c:122-131 | the input is at its end exactly if there are no bytes and they did not end in an error |
| Framing.BlockIsItsLines | src/server.c:88-94 | a framed block with a nonempty first line is that line, the header lines the parser visits, each once and in order, and one empty line |
| Framing.FindHeaderEnd | src/server.c:83-97 | the end of the first CRLFCRLF in the buffer, if there is one |
| Framing.ExtractRequestLine | src/server.c:59-81 | the first line, or all there is, cut to its field and at a NUL |
| Framing.Fill | src/server.c:122-132 | a `recv` changes nothing about the bytes still to be turned into requests |
| Framing.DropFront | src/server.c:113-114 | the left shift drops exactly the block |
| Framing.TakeBlock | src/server.c:108-115 | a block at the front of the buffer is answered as the stream says |
| Framing.BufferFull | src/server.c:118-120 | a full buffer without a block means that the stream has no block of at most 8192 bytes at its front |
| Framing.ReadNextRequest | src/server.c:99-134 | request, verdict, log line and what stays buffered depend only on the bytes and how they end, not on how the network cut them, where calls were interrupted or what was already buffered |
| Responses.BlankLineAfterLines | src/server.c:158-165 | a printed header section has its first blank line at its end |
| Responses.HeadReadsBack | src/server.c:158-165 | a reader finds the end of the header block, the status and every header line |
| Responses.FieldsSay | src/server.c:158-165 | the last Connection and Content-Length fields are the printed ones |
| Responses.HeadFits | src/server.c:167-169 | no header block is too long for its buffer, so none is dropped for its size |
| Messages.LinesSay | src/server.c:286-307 | what a reader of the printed lines learns about the body's length and about the connection |
| Messages.ReadsExpected | src/server.c:158-165 | what a reader following section 6.3 of RFC 9112 makes of a response and of what follows, whatever was really sent as the body |
| Messages.OneMessageIff | src/server.c:153-183 | the reader gets status and body and the rest of the stream exactly if the body has the length the reader expects: none if it sent a HEAD, else what Content-Length says |
| Messages.OutputFramesItselfIff | src/server.c:153-387 | from the bytes of any sequence of responses, and knowing which requests it sent as HEAD, a reader gets exactly the statuses and bodies, if and only if each body has the length it expects |
| Messages.AnnouncesCloseIff | src/server.c:162-165 | a reader sees an announced close exactly if the response was printed with one |
| Responder.RespondKeepsAlive | src/server.c:439-478 | the response is printed with keep-alive exactly if the request persists and none of the three failing paths is taken |
| Responder.InsideIsInternal | src/server.c:259-353 | the three failing paths are exactly those that answer 500 although the path was good, and a reader sees the end of the connection announced |
| Responder.RespondIsValid | src/server.c:441-478 | every response is well formed: its announced length is that of its body, its fields are readable and no status forbids a body |
| Responder.CompleteIff | src/server.c:324-336 | a response is incomplete exactly for a GET whose file is opened and shorter than the part of it that is announced |
| Responder.AnnouncesNothingIff | src/server.c:283-307 | a length of zero is announced exactly for an empty listing or nothing of a file |
| Responder.HeadMirrorsGet | src/server.c:157-376 | a HEAD response is byte for byte the header block of the GET response, for every request, resource and range, with no body bytes |
| Responder.GetTransfersSelectionIff | src/server.c:259-344 | a completed GET of a file transfers exactly the selected positions with 206, everything with 200 if no range is asked for, 416 if the range is not satisfiable; exactly if the fields are neither a zero suffix of a nonempty file nor a nonzero suffix of an empty one |
| Responder.NoRangeLineEndToEnd | src/http.c:174-184 | from header lines to bytes: without a Range line a GET transfers the whole file with 200 |
| Responder.OneRangeLineEndToEnd | src/http.c:93-152 | with one Range line of any text that asks for a range in the sense of RFC 9110: a GET transfers exactly the selected positions, or 416 if it is not satisfiable, if and only if every number is at most SIZE_MAX, a suffix count is not zero and there is no comma, and for a suffix of an empty file if and only if not; in all other cases it transfers the whole file with 200 |
| Responder.BadRequestReads | src/server.c:426-436 | what is no request is answered by one message with 400, and a reader sees the end of the connection announced |
| Responder.OverloadedReads | src/server.c:590-598 | a full queue is answered by one message with 503, and a reader sees the end of the connection announced |
| PartialContent.PartReads | src/server.c:286-296 | the reader of section 14.4 of RFC 9110 gets first and last position and complete length from three numerals |
| PartialContent.PartIsTrue | src/server.c:259-307 | for any range fields, what a client is told is true: a 206 has one Content-Range field, and its body is the content from the first to the last position told, of the length told; a 416 has one that tells the length; a 200 has none. The part is not empty exactly if the fields are not a zero suffix |
| PartialContent.PartIsTheOneAskedFor | src/server.c:185-307 | with one Range line that is taken: 206 exactly if the range is satisfiable and the file not empty, and the positions told are exactly those the range selects |
| PartialContent.AcceptIsTold | src/server.c:286-302 | a client is told that byte ranges are accepted with every file or part of one, and with nothing else |
| PartialContent.TypeIsTrue | src/server.c:158-302 | a client is told one media type: that of the file, HTML for a listing, plain text for what the server says itself |
| PartialContent.VersionIsAnswered | src/server.c:52-57 | the text of a response starts with the version of its request |
| PartialContent.ReasonIsTold | src/http.c:290-313 | the first line ends in the reason phrase that section 15 of RFC 9110 has for the status |
| Conversation.ServeIsOrderly | src/server.c:416-484 | every response is well formed, all but perhaps the last are complete, and each complete one has its log entry in order, with the status a client reads and the number of body bytes it receives |
| Conversation.LogMatchesResponses | src/server.c:416-484 | the same for the server's own answers, for any input and any file system |
| Conversation.LogTellsInputs | src/server.c:59-81 | the i-th entry of the log has the request line of the i-th input: its first line up to a NUL, at most 255 characters of it, or "<invalid request>" if there was no input but an error |
| Conversation.OneByOne | src/server.c:416-484 | each response answers what is next on what is left of the stream, and another one follows exactly if it was complete, its request persists and the bytes after the request are not at their end |
| Conversation.VerbOfInput | src/server.c:108-112 | the server takes a request for HEAD exactly if the first word of its first line, read up to a NUL, is HEAD, and for GET exactly if it is GET |
| Conversation.ClientReadsBackIff | src/server.c:416-484 | for any input and any file system, a client that knows which requests it wrote as HEAD reads back every status and body, if and only if no file asked for is shorter than what is announced of it, no answered method reads as HEAD only up to a NUL where something is found, and the conversation does not end in the refusal of something written as HEAD |
| Conversation.EndsIffAnnounced | src/server.c:270-480 | outside the three failing paths the connection ends after a response exactly if it says so; on them it says so, and a persistent connection goes on |
| Conversation.GoesOnByStandardIff | src/http.c:274-281 | the connection goes on, and its end is announced, as section 9.3 of RFC 9112 has it for the request's header lines, exactly if the last Connection value decides alone |
| Conversation.AnnouncedEndIsLast | src/server.c:416-484 | over a whole connection, for each response: it is the last exactly if it is incomplete, its request does not persist or the input had ended; unless its request fails inside, announcing the end means being the last, and being the last and complete without announcing it means that the input had ended |
| ClientHandler.SendHead | src/server.c:167-172 | the header block, or a part of it if a `send` failed |
| ClientHandler.SendSimpleResponse | src/server.c:153-183 | the response, or a part from the front and a failure; what the log gets |
| ClientHandler.SendRangeNotSatisfiable | src/server.c:225-257 | the same for 416 |
| ClientHandler.StreamChunk | src/server.c:325-335 | one short read and what it sends advance by exactly the bytes sent |
| ClientHandler.StreamBody | src/server.c:324-336 | the slice of the file, whatever the sizes of the reads and sends; failure exactly if the file is too short, when no `send` fails |
| ClientHandler.SendOpenFile | src/server.c:283-343 | header block and slice as the response says, with the logged status and bytes |
| ClientHandler.SendFileResponse | src/server.c:259-344 | every branch sends the response the model gives |
| ClientHandler.SendDirectoryResponse | src/server.c:346-387 | the same for listings |
| ClientHandler.AnswerRequest | src/server.c:441-478 | the answer to one request, over all branches of the loop |
| ClientHandler.HandleRequest | src/server.c:438-483 | answering and logging one request is one step of the fold |
| ClientHandler.HandleBadRequest | src/server.c:426-436 | the 400 and its log entry, also if it could not be sent |
| ClientHandler.RefuseConnection | src/server.c:590-598 | on a full queue the main thread sends the 503 or a part of it from the front, writes one log entry for "-" with 503 and its body bytes, or 0 and 0 if it could not be sent, and closes |
| ClientHandler.ServeOnce | src/server.c:416-484 | one round of the loop keeps the connection on the track of the fold and consumes input |
| ClientHandler.HandleClient | src/server.c:400-488 | for any bytes, any end of the input, and any cutting and interrupting of calls, the connection sends and logs exactly what the fold says if no `send` fails, else sends and logs a part of it from the front, where a 400 that could not be sent is logged as 0 and 0; it is closed in the end |
| UrlCodec.DecodePath | src/files.c:220-258 | the decoder in place equals the decoding function: text and terminator, forbidden, or too long, the first problem from the left deciding |
| UrlCodec.DecodedIsClean | src/files.c:246-252 | decoded text has no NUL and no backslash, and fits |
| UrlCodec.DecodesIff | src/files.c:207-258 | a path decodes to exactly the text it stands for, if that has no NUL and no backslash and fits: each character for itself, "+" for a space, "%" and two digits in either case for their byte |
| UrlCodec.TooLongIff | src/files.c:250-252 | a path is too long exactly if some front of it decodes to one character more than there is room |
| UrlCodec.DecodeAppends | src/files.c:228-254 | decoding goes on behind a decoded front |
| UrlCodec.LinkRoundTrip | src/files.c:124-258 | decoding the percent-encoded form of a name gives the name, exactly if it has no backslash and fits |
| UrlCodec.LinksAreEncoded | src/files.c:124-149 | the encoded form consists of the unreserved characters of section 2.3 of RFC 3986 and percent-coded bytes in upper case |
| UrlCodec.UnreservedIff | src/files.c:124-126 | the characters that are not coded are the letters, the digits and "-._~", no other |
| UrlCodec.LinkCharacters | src/files.c:124-149 | so a link has no other character but the percent sign: no "#", no "?", no space |
| UrlCodec.LinksHaveNoDelimiter | src/files.c:128-149 | it has no quotation mark, no slash and no angle bracket |
| UrlCodec.EscapingIsInjective | src/files.c:128-149 | different names have different links |
| Html.HtmlRoundTrip | src/files.c:91-122 | reading the character references back gives the text |
| Html.EscapedHasNoDelimiter | src/files.c:91-122 | escaped text has no angle bracket and no quotation mark |
| StringBuilder.DoublingDoubles | src/files.c:50-56 | below half of the address space the next doubling exists and does not pass the half: the overflow guard is in time |
| StringBuilder.NextCapacity | src/files.c:49-56 | the growth loop ends for every `size_t`, with a sufficient doubling below twice what is required, or just what is required where no doubling fits |
| StringBuilder.Builder.constructor | src/files.c:525 | an empty buffer with nothing allocated |
| StringBuilder.Builder.Reserve | src/files.c:32-66 | room for the text and the terminator, text unchanged, failing only if the allocator refuses or no `size_t` counts the bytes; copying stays paid for by the capacity |
| StringBuilder.Builder.AppendText | src/files.c:68-79 | appends exactly the text, keeps the terminator in bounds and the buffer tight, or changes no text |
| StringBuilder.Builder.AppendChar | src/files.c:81-89 | the same for one character |
| StringBuilder.Builder.AppendHtmlEscaped | src/files.c:91-122 | appends exactly the escaped text, or stops on a part of it |
| StringBuilder.Builder.AppendUrlEscaped | src/files.c:128-149 | appends exactly the percent-encoded text, or stops on a part of it |
| Listing.LessIsTotal | src/files.c:163-167 | of two names exactly one of smaller, equal and greater holds |
| Listing.LessIsTransitive | src/files.c:163-167 | the byte order is transitive |
| Listing.LessIff | src/files.c:163-167 | one name is before another exactly if it is a proper front of it, or has the smaller character at the first place where they differ |
| Listing.SortKeeps | src/files.c:561 | sorting keeps every entry |
| Listing.SortOrders | src/files.c:561 | distinct names end up strictly increasing |
| Listing.OrderIsUnique | src/files.c:561 | there is only one strictly increasing arrangement, so the algorithm behind `qsort` does not matter |
| Listing.VisibleAre | src/files.c:539-558 | the entries are those of the names that do not start with a dot, no other, each a directory exactly if its path has at most 4095 characters and `stat` says so |
| Listing.RowReads | src/files.c:574-580 | a reader gets a row's entry back from its link and finds that the label agrees |
| Listing.PageReadsBack | src/files.c:563-592 | a reader of the page gets back the path and every entry, whatever characters they contain |
| ListingBuilder.ReadEntries | src/files.c:539-558 | the loop over `readdir` collects exactly the visible entries |
| ListingBuilder.WriteRows | src/files.c:573-592 | the rows and the end of the page, or a failure for lack of memory or of numbers |
| ListingBuilder.WritePage | src/files.c:563-592 | the whole page, or such a failure |
| ListingBuilder.BuildDirectoryListing | src/files.c:519-597 | the page of the sorted visible entries, or an error only if the directory cannot be opened, memory is refused or no `size_t` counts the page; for a page below a quarter of the address space, all reallocation together copies at most twice the page |
| ListingBuilder.ListingTellsTheDirectory | src/files.c:539-592 | a reader of the page gets exactly the directory's visible entries, each once, in strictly increasing byte order |
| Paths.ContainsDotDotSegment | src/files.c:260-275 | finds something exactly if some segment between slashes is ".." |
| Paths.SkipSlashes | src/files.c:263-265 | passing slashes passes no ".." |
| Paths.SkipSegment | src/files.c:270-272 | the position of the next slash, or the end |
| Paths.PrefixIsComponentwise | src/files.c:277-281 | the string test on joined components is the prefix test on component lists |
| Paths.PrefixMeansBelow | src/files.c:277-281 | for canonical paths the test means being at or below the root; with root "/" it accepts only "/" |
| Paths.LeadsBelowRoot | src/files.c:446-454 | without "..", the joined path leads to the root extended by the segments of the request path |
| Paths.DecodeRequest | src/files.c:436-439 | what the buffer holds after decoding, read as a C string |
| Paths.ResolvePath | src/files.c:423-479 | the whole resolution in place equals the resolution function: the resolved path, or which error |
| Paths.NothingOutsideIsServed | src/files.c:456-478 | whatever symbolic links `realpath` follows, only paths at or below the root come out |
| Paths.LastCheckRejectsIff | src/files.c:446-472 | without links the path that comes out is the root extended by the segments, and the last check rejects exactly if the root is "/" and something below it is asked for |
| Paths.ResolvedIff | src/files.c:423-479 | without links, a request is resolved exactly if it decodes, has no "..", the joined path fits and exists as the root does, the root is not "/" unless asked for itself, and the result fits |
| Paths.ForbiddenIff | src/files.c:436-472 | without links and under any other root, a request is forbidden exactly for what its text contains |
| Navigation.SlashDecodesApart | src/files.c:228-254 | what decodes does so on both sides of a raw slash |
| Navigation.FrontOfLink | src/files.c:128-258 | a cut link decodes, if at all, to a front part of the name and not to all of it |
| Navigation.ResolvedIsWhereItLeads | src/files.c:423-479 | without symbolic links, what is resolved is where the text of the request leads |
| Navigation.LinkLeadsToItsEntryIff | src/files.c:574-577 | a client that requested a directory by any path and follows a link by section 5.2.3 of RFC 3986 gets to exactly the entry, if and only if what follows the last slash of its path names nothing, the name has no backslash, and the merged path is not cut in the name at src/http.c:261 and fits |
| Navigation.NoDotsToRemove | src/files.c:574-577 | below a path without dot segments a merged link has none either, so that merging is all of resolving it |
| Navigation.LinkOpensItsEntryIff | src/files.c:423-479 | the same for the file that is opened without symbolic links; a link that works is never forbidden unless the root is "/" |
| Site.BuildListing | src/files.c:519-597 | the page the code builds is the page that is served |
| Site.RefusedTextStatus | src/files.c:436-444 | 403 for a path that decodes to something forbidden or has a "..", 500 for one that is too long |
| Site.UnresolvedStatus | src/files.c:446-478 | for all other paths: 500 if the joined path does not fit or the root cannot be resolved, 404 if `realpath` finds nothing, 500 if it fails otherwise, 403 if it leads outside the root, 500 if the result does not fit, and the result if it does |
| Site.ResolvedStatus | src/files.c:495-516 | for a resolved path: 404 if it has gone, 403 for what is neither file nor directory, 500 for what cannot be read, else 200, 206 or 416 |
| Site.UnsupportedStatus | src/server.c:441-451 | 501 for every other method, whatever is at the path, and 400 for what is no request |
| Site.ErrorTextIs | src/server.c:454-460 | the text sent with an error of a path is its status, a space, the reason phrase and a line feed |
| Site.RefusalTextIs | src/server.c:225-280 | the text of 416, 501 and of the failing paths is the reason phrase and a line feed |
| Site.DocumentEndToEnd | src/files.c:506-513 | from the disk to the client: a GET of a file below the root without a Range line is answered by one message with 200 and the content of the file |
| Site.DocumentRangeEndToEnd | src/files.c:506-513 | the same with one Range line of any text: one message, with the range or 416 as section 14 of RFC 9110 has it if the line is taken, else with 200 and the file |
| Site.DirectoryEndToEnd | src/server.c:346-387 | the answer to a GET of a directory is one message, whose body tells the path and exactly the visible entries `readdir` yields, each once, in strictly increasing order |
| Pipeline.NextIsCanonical | src/server.c:99-134 | a printed request with anything behind it is the next request, and what is behind it is left |
| Pipeline.PipelineIsServed | src/server.c:416-484 | persistent requests, however many are sent at once, are answered each once and in order, and then whatever follows them is |
| Pipeline.ClientGetsItsFiles | src/server.c:400-488 | from the text of any number of GET requests sent at once to what their client reads: exactly the files it asked for, in the order in which it asked |
| Counterexamples.StaleSuffixExample | src/http.c:129-151 | after "Range: bytes=-5" the line "Range: bytes=3-7" asks for the last three bytes |
| Counterexamples.ZeroSuffixExample | src/server.c:202-221 | after "Range: bytes=-5" the line "Range: bytes=0-7" makes the length wrap to zero |
| Counterexamples.EmptyFileExample | src/server.c:198-200 | "Range: bytes=-5" on an empty file is satisfiable and gets 416 |
| Counterexamples.EmptyElementExample | src/http.c:115-118 | "Range: bytes=0-4," asks for one range and gets the whole file |
| Counterexamples.NoBytesExample | src/http.c:125-128 | "Range: bytes=-0" gets the whole file and not 416 |
| Counterexamples.BeyondEveryFileExample | src/http.c:135-137 | so does a first position of SIZE_MAX + 1 |
| Counterexamples.ToBeyondEveryFileExample | src/http.c:145-148 | a last position of SIZE_MAX + 1 gets the whole file with 200 and not 206 |
| Counterexamples.RefusedHeadExample | src/server.c:433 | a HEAD request for HTTP/2.0 is refused with a body that its client does not expect |
| Counterexamples.ShortFileExample | src/server.c:324-330 | a file shorter than `stat` said leaves its client waiting |
| Counterexamples.CloseInListExample | src/http.c:274-277 | "Connection: close, TE" should end a connection and does not |
| Counterexamples.RootSlashExample | src/files.c:277-281 | with the document root "/", a file that exists is forbidden |
| Counterexamples.AnnouncedButOpenExample | src/server.c:353-355 | two requests for a directory that cannot be listed: the first answer announces the close and a second answer follows |
| Counterexamples.NoSlashExample | src/files.c:574-577 | the directory requested as "/docs" is listed, and the link to its file "a" leads to "/a" |

## Left out

- Socket setup, `getaddrinfo`, `getpeername`, option parsing in `src/main.c` and the async-signal-safety of its handler: plumbing without reasoning. `server_stop` is a thread of its own that calls any number of times; a handler that interrupts the owner of the mutex is not part of the schedules.
- `stat`, `opendir`, `readdir`, `fopen` and `fseeko` are answers of an oracle (`Site.Disk`), which may say no; `realpath` is a function of the path. A file that changes between `stat` and reading is seen only as one that is too short.
- `PoolTheorems.ShutdownTerminates`: a handler's work is one step, so it says nothing about a handler that never returns, and nothing about the wall-clock time of `accept` and `recv`. That `accept` returns once its socket is closed is up to the environment.
- `PoolProtocol.Init`: at least one worker and a capacity of at least one; the early returns for a thread count of zero, for null arguments and for a failing `calloc` of the thread array are not steps.
- `ClientHandler.RefuseConnection`: the step system of the pool takes the whole refusal as one step of the main thread, and does not look at the bytes; a connection refused by a shut queue gets none.
- The `not_full` condition variable: nobody waits on it.
- `file_mime_type` is a flat table; a media type is any short text that survives trimming.
- Time stamps, addresses and the lock of the access log; the log is the sequence of its entries.
- Request bodies: the server never reads one, so whatever follows a block is the next request, and the model does the same.
- `Navigation.LinkLeadsToItsEntryIff`: the path of a URI has no NUL. It speaks of the merged path; for request paths with raw dot segments, section 5.2.2 of RFC 3986 has a client also remove these, which is not modelled (`NoDotsToRemove` shows that for all others there is nothing to remove).
- `UrlCodec.DecodePath`: for a percent sign in the last place the code looks one character past the terminator (src/files.c:232-233); the model cuts this short, because the answer no longer depends on it.
- `Conversation.MethodWord`: a client that sends an empty line before its request line is taken to have written an empty method.
- `ListingBuilder.ReadEntries`: the array of entries is a sequence whose growth may fail; its capacity of 16 and its doubling are not modelled, because `StringBuilder` shows that argument in its harder form.
- `Listing.Sort`: `qsort` is taken to sort correctly. Names that occur twice have no fixed order there; no directory has them.
- `BoundedQueue.SocketQueue.Dequeue`: one pass through the critical section; the waiting is in `PoolProtocol`.
