/** The behaviour of a whole connection as a fold over the requests of its byte stream, and what follows from
    it: ordered responses, output that frames itself, and the end of the connection. */
module Conversation {
  import opened Prelude
  import opened Text
  import opened HttpParser
  import opened Framing
  import opened Messages
  import opened Persistence
  import opened Responder

  datatype LogEntry = LogEntry(line: string, status: nat, bytes: nat)

  /** What a connection does: its responses in order, and its lines in the access log. */
  datatype Transcript = Transcript(responses: seq<Response>, log: seq<LogEntry>)

  function LogOf(line: string, r: Response): (result: LogEntry) {
    LogEntry(line, r.head.status, |r.body|)
  }

  function Before(r: Response, log: seq<LogEntry>, t: Transcript): (result: Transcript) {
    Transcript([r] + t.responses, log + t.log)
  }

  /** One answer and, if the connection goes on, what comes after it. */
  function Prepend(r: Response, goOn: bool, line: string, after: Transcript): (result: Transcript) {
    if !r.complete then Transcript([r], [])
    else if !goOn then Transcript([r], [LogOf(line, r)])
    else Before(r, [LogOf(line, r)], after)
  }

  /** How a server answers requests, once it is fixed what its file system holds. */
  type Answer = Request -> Response

  function AnswerFrom(files: Files): (r: Answer) {
    (req: Request) => Respond(req, files(req.path))
  }

  /** The whole behaviour of a connection, from the bytes that arrive, how they end, and the answers to the requests. */
  ghost function Serve(stream: string, reset: bool, answer: Answer): (r: Transcript)
    decreases |stream|
  {
    match NextRequest(stream, reset)
    case EndOfInput => Transcript([], [])
    case Rejected(line) => Transcript([BadRequest()], [LogOf(line, BadRequest())])
    case Accepted(req, line, rest) => Prepend(answer(req), req.keepAlive, line, Serve(rest, reset, answer))
  }

  // --- properties of the fold -----------------------------------------------------------------------------

  ghost predicate WellFormed(answer: Answer) {
    forall req :: answer(req).Valid()
  }

  lemma ServerIsWellFormed(files: Files)
    ensures WellFormed(AnswerFrom(files))
  {
    forall req: Request
      ensures AnswerFrom(files)(req).Valid()
    {
      RespondIsValid(req, files(req.path));
    }
  }

  ghost predicate Orderly(t: Transcript) {
    && (forall i :: 0 <= i < |t.responses| ==> t.responses[i].Valid())
    && (forall i :: 0 <= i < |t.responses| - 1 ==> t.responses[i].complete)
    && |t.log| == (if t.responses == [] || t.responses[|t.responses| - 1].complete then |t.responses|
                   else |t.responses| - 1)
    && (forall i :: 0 <= i < |t.log| ==> IsEntryFor(t.log[i], t.responses[i]))
  }

  /** The access log has the status a client reads and the number of body bytes it receives. */
  predicate IsEntryFor(entry: LogEntry, r: Response) {
    entry.status == r.head.status && entry.bytes == |r.body|
  }

  lemma OrderlyBefore(r: Response, line: string, t: Transcript)
    requires Orderly(t) && r.Valid() && r.complete
    ensures Orderly(Before(r, [LogOf(line, r)], t))
  {
  }

  lemma OrderlyLast(r: Response, line: string)
    requires r.Valid()
    ensures Orderly(Transcript([r], if r.complete then [LogOf(line, r)] else []))
  {
  }

  /** Every response is well formed, all but perhaps the last are complete, and each complete one has its log
      entry, in order, with its status and the number of body bytes sent. */
  lemma {:induction false} ServeIsOrderly(stream: string, reset: bool, answer: Answer)
    requires WellFormed(answer)
    ensures Orderly(Serve(stream, reset, answer))
    decreases |stream|
  {
    match NextRequest(stream, reset)
    case EndOfInput =>
    case Rejected(line) => OrderlyLast(BadRequest(), line);
    case Accepted(req, line, rest) =>
      var r := answer(req);
      if r.complete && req.keepAlive {
        ServeIsOrderly(rest, reset, answer);
        OrderlyBefore(r, line, Serve(rest, reset, answer));
      } else {
        OrderlyLast(r, line);
      }
  }

  /** Whether the connection goes on after the first request of the stream was answered. */
  ghost predicate GoesOn(stream: string, reset: bool, answer: Answer) {
    && NextRequest(stream, reset).Accepted?
    && answer(NextRequest(stream, reset).request).complete
    && NextRequest(stream, reset).request.keepAlive
  }

  /** What going on means: the responses are the first answer and those to the rest of the stream, or the first
      answer alone. */
  lemma GoingOn(stream: string, reset: bool, answer: Answer)
    requires NextRequest(stream, reset).Accepted?
    ensures var next := NextRequest(stream, reset);
            Serve(stream, reset, answer).responses
            == [answer(next.request)] + if GoesOn(stream, reset, answer) then Serve(next.rest, reset,
              answer).responses else []
  {
  }

  /** The server announces the end of the connection exactly if the request does not persist or is on one of
      the three paths that fail inside. So outside these paths a completed response is the last one of its
      connection exactly if it says so; on them it always says so, and a persistent connection goes on. */
  lemma EndsIffAnnounced(stream: string, reset: bool, files: Files)
    requires NextRequest(stream, reset).Accepted?
    ensures var req := NextRequest(stream, reset).request;
            var r := Respond(req, files(req.path));
            && (AnnouncesClose(r.Wire()) <==> !req.keepAlive || FailsInside(req, files(req.path)))
            && (r.complete ==>
                  ((GoesOn(stream, reset, AnswerFrom(files)) <==> !AnnouncesClose(r.Wire()))
                   <==> !(req.keepAlive && FailsInside(req, files(req.path)))))
  {
    var req := NextRequest(stream, reset).request;
    AnnouncesIff(req, files(req.path));
  }

  /** By the standard: the connection goes on after a complete response, and unless the request fails inside the
      response announces the end if it does not, as section 9.3 of RFC 9112 has it for the request's header lines,
      exactly if the last Connection value decides alone. */
  lemma GoesOnByStandardIff(stream: string, reset: bool, files: Files)
    requires NextRequest(stream, reset).Accepted?
    ensures var req, lines := NextRequest(stream, reset).request, LinesOfRequest(stream);
            var r, should := Respond(req, files(req.path)), ShouldPersist(req.version, lines);
            && (r.complete ==>
                  ((GoesOn(stream, reset, AnswerFrom(files)) <==> should) <==> LastDecides(req.version, lines)))
            && (!FailsInside(req, files(req.path)) ==>
                  ((AnnouncesClose(r.Wire()) <==> !should) <==> LastDecides(req.version, lines)))
  {
    var req := NextRequest(stream, reset).request;
    RequestPersistsIff(stream, reset);
    AnnouncesIff(req, files(req.path));
  }

  lemma AnnouncesIff(req: Request, res: Resource)
    ensures AnnouncesClose(Respond(req, res).Wire()) <==> !req.keepAlive || FailsInside(req, res)
  {
    var r := Respond(req, res);
    RespondIsValid(req, res);
    RespondKeepsAlive(req, res);
    AnnouncesCloseIff(r, "");
    assert r.Wire() + "" == r.Wire();
  }

  // --- response by response ----------------------------------------------------------------------------------

  /** What is left of the stream at each response: response `i` answers what is next on the `i`-th of these. */
  ghost function Inputs(stream: string, reset: bool, answer: Answer): (r: seq<string>)
    decreases |stream|
  {
    match NextRequest(stream, reset)
    case EndOfInput => []
    case Rejected(_) => [stream]
    case Accepted(_, _, rest) => [stream] + if GoesOn(stream, reset, answer) then Inputs(rest, reset, answer) else []
  }

  ghost function AnswerTo(input: string, reset: bool, answer: Answer): (r: Response) {
    match NextRequest(input, reset)
    case Accepted(req, _, _) => answer(req)
    case _ => BadRequest()
  }

  /** Whether another response follows the one to the front of `input`. */
  ghost predicate IsFollowed(input: string, reset: bool, answer: Answer) {
    GoesOn(input, reset, answer) && !NextRequest(NextRequest(input, reset).rest, reset).EndOfInput?
  }

  lemma InputsStart(stream: string, reset: bool, answer: Answer)
    ensures var ins := Inputs(stream, reset, answer);
            if NextRequest(stream, reset).EndOfInput? then ins == [] else ins != [] && ins[0] == stream
  {
  }

  lemma {:induction false} AsManyInputs(stream: string, reset: bool, answer: Answer)
    ensures |Inputs(stream, reset, answer)| == |Serve(stream, reset, answer).responses|
    decreases |stream|
  {
    match NextRequest(stream, reset)
    case EndOfInput =>
    case Rejected(_) =>
    case Accepted(_, _, rest) =>
      GoingOn(stream, reset, answer);
      if GoesOn(stream, reset, answer) {
        AsManyInputs(rest, reset, answer);
      }
  }

  /** That `r` answers what is next on `input`, and that another input comes after it exactly if the response was
      complete, its request persists and the bytes after the request are not at their end. */
  ghost predicate AnswersInput(r: Response, input: string, after: Option<string>, reset: bool, answer: Answer) {
    && !NextRequest(input, reset).EndOfInput?
    && r == AnswerTo(input, reset, answer)
    && (after.Some? <==> IsFollowed(input, reset, answer))
    && (after.Some? ==> after.value == NextRequest(input, reset).rest)
  }

  function At(ins: seq<string>, i: nat): (r: Option<string>) {
    if i < |ins| then Some(ins[i]) else None
  }

  ghost predicate AnswersAt(rs: seq<Response>, ins: seq<string>, i: nat, reset: bool, answer: Answer) {
    i < |rs| == |ins| && AnswersInput(rs[i], ins[i], At(ins, i + 1), reset, answer)
  }

  lemma AnswersAtShifts(r: Response, rs: seq<Response>, input: string, ins: seq<string>, i: nat, reset: bool,
    answer: Answer)
    requires AnswersAt(rs, ins, i, reset, answer)
    ensures AnswersAt([r] + rs, [input] + ins, i + 1, reset, answer)
  {
    assert ([r] + rs)[i + 1] == rs[i] && ([input] + ins)[i + 1] == ins[i];
    assert At([input] + ins, i + 2) == At(ins, i + 1);
  }

  lemma FirstAnswer(stream: string, reset: bool, answer: Answer)
    requires Serve(stream, reset, answer).responses != []
    ensures AnswersAt(Serve(stream, reset, answer).responses, Inputs(stream, reset, answer), 0, reset, answer)
  {
    AsManyInputs(stream, reset, answer);
    match NextRequest(stream, reset)
    case Rejected(_) =>
    case Accepted(_, _, rest) =>
      GoingOn(stream, reset, answer);
      InputsStart(rest, reset, answer);
      AsManyInputs(rest, reset, answer);
  }

  lemma Unrolled(stream: string, reset: bool, answer: Answer) returns (r: Response, rest: string)
    requires |Serve(stream, reset, answer).responses| > 1
    ensures |rest| < |stream|
    ensures Serve(stream, reset, answer).responses == [r] + Serve(rest, reset, answer).responses
    ensures Inputs(stream, reset, answer) == [stream] + Inputs(rest, reset, answer)
  {
    r, rest := AnswerTo(stream, reset, answer), NextRequest(stream, reset).rest;
    GoingOn(stream, reset, answer);
  }

  lemma {:induction false} OneByOne(stream: string, reset: bool, answer: Answer, i: nat)
    requires i < |Serve(stream, reset, answer).responses|
    ensures AnswersAt(Serve(stream, reset, answer).responses, Inputs(stream, reset, answer), i, reset, answer)
    decreases |stream|
  {
    if i == 0 {
      FirstAnswer(stream, reset, answer);
    } else {
      var r, rest := Unrolled(stream, reset, answer);
      OneByOne(rest, reset, answer, i - 1);
      AnswersAtShifts(r, Serve(rest, reset, answer).responses, stream, Inputs(rest, reset, answer), i - 1, reset,
        answer);
    }
  }

  /** Over a whole connection, response by response. Unless the request fails inside, a response that announces the
      end is the last one, and a complete last one that does not announce it means that the input had ended. A request
      that fails inside always announces the end, and only that of its connection's input or of its own persistence
      brings it. The answer to what is no request announces the end and is the last. */
  lemma AnnouncedEndIsLast(stream: string, reset: bool, files: Files, i: nat)
    requires i < |Serve(stream, reset, AnswerFrom(files)).responses|
    ensures var rs, ins := Serve(stream, reset, AnswerFrom(files)).responses, Inputs(stream, reset, AnswerFrom(files));
            && |ins| == |rs|
            && match NextRequest(ins[i], reset)
               case Accepted(req, _, rest) =>
                 var fails, last := FailsInside(req, files(req.path)), i + 1 == |rs|;
                 var announced, ended := AnnouncesClose(rs[i].Wire()), NextRequest(rest, reset).EndOfInput?;
                 && (last <==> !rs[i].complete || !req.keepAlive || ended)
                 && (!fails && announced ==> last)
                 && (!fails && rs[i].complete && last && !announced ==> ended)
                 && (fails ==> announced)
               case _ => AnnouncesClose(rs[i].Wire()) && i + 1 == |rs|
  {
    var answer := AnswerFrom(files);
    OneByOne(stream, reset, answer, i);
    match NextRequest(Inputs(stream, reset, answer)[i], reset)
    case Accepted(req, _, _) => AnnouncesIff(req, files(req.path));
    case Rejected(_) =>
      AnnouncesCloseIff(BadRequest(), "");
      assert BadRequest().Wire() + "" == BadRequest().Wire();
  }

  // --- the client's reading ------------------------------------------------------------------------------------

  /** The method as the client wrote it: the first word of the first line, or of all there is. */
  ghost function MethodWord(input: string): (r: string) {
    var line := input[..FirstCrlf(input)];
    line[..IndexOf(line, ' ')]
  }

  /** The server's C strings end at a NUL, the client's method does not. */
  predicate OnlyReadsAsHead(word: string) {
    word != "HEAD" && CString(word) == "HEAD"
  }

  /** Which of the answered requests the client sent as HEAD, in order. */
  ghost function SentHead(inputs: seq<string>): (r: seq<bool>) {
    seq(|inputs|, i requires 0 <= i < |inputs| => MethodWord(inputs[i]) == "HEAD")
  }

  lemma VerbOfInput(input: string, reset: bool)
    requires NextRequest(input, reset).Accepted?
    ensures NextRequest(input, reset).request.verb == Verb.Head <==> CString(MethodWord(input)) == "HEAD"
    ensures NextRequest(input, reset).request.verb == Get <==> CString(MethodWord(input)) == "GET"
  {
    var block := input[..BlockLength(input)];
    BlockPrefix(input, |block|);
    assert block[..FirstCrlf(block)] == input[..FirstCrlf(input)];
    VerbCopy(MethodWord(input), "GET");
    VerbCopy(MethodWord(input), "HEAD");
  }

  /** That a client understands the response to what it wrote: its method was not HEAD if it was refused; no file is
      shorter than what is announced of it; and if the method reads as HEAD only up to a NUL, nothing is found. */
  ghost predicate IsUnderstoodByClient(input: string, reset: bool, files: Files) {
    match NextRequest(input, reset)
    case EndOfInput => true
    case Rejected(_) => MethodWord(input) != "HEAD"
    case Accepted(req, _, _) =>
      && !IsShort(req, files(req.path))
      && (OnlyReadsAsHead(MethodWord(input)) ==> FindsNothing(req, files(req.path)))
  }

  lemma RespondToHead(req: Request, res: Resource)
    ensures Respond(req, res).toHead <==> req.verb == Verb.Head
  {
  }

  lemma ExpectedIff(r: Response, word: string)
    requires r.Valid() && (r.toHead <==> CString(word) == "HEAD")
    ensures |r.body| == Expected(r, word == "HEAD") <==> r.complete && (OnlyReadsAsHead(word) ==> r.head.length == 0)
  {
    assert IndexOf("HEAD", NUL) == 4;
    assert CString("HEAD") == "HEAD";
  }

  lemma BadRequestExpectedIff(word: string)
    ensures BadRequest().Valid()
    ensures |BadRequest().body| == Expected(BadRequest(), word == "HEAD") <==> word != "HEAD"
  {
  }

  lemma BodyIsExpectedIff(input: string, reset: bool, files: Files)
    requires !NextRequest(input, reset).EndOfInput?
    ensures var r := AnswerTo(input, reset, AnswerFrom(files));
            && r.Valid()
            && (|r.body| == Expected(r, MethodWord(input) == "HEAD")
              <==> IsUnderstoodByClient(input, reset, files))
  {
    var word := MethodWord(input);
    match NextRequest(input, reset)
    case Rejected(_) => BadRequestExpectedIff(word);
    case Accepted(req, _, _) =>
      RespondIsValid(req, files(req.path));
      RespondToHead(req, files(req.path));
      VerbOfInput(input, reset);
      CompleteIff(req, files(req.path));
      AnnouncesNothingIff(req, files(req.path));
      ExpectedIff(Respond(req, files(req.path)), word);
  }

  lemma BodiesAreExpectedIff(stream: string, reset: bool, files: Files, i: nat)
    requires i < |Serve(stream, reset, AnswerFrom(files)).responses|
    ensures var rs, ins := Serve(stream, reset, AnswerFrom(files)).responses, Inputs(stream, reset, AnswerFrom(files));
            && |ins| == |rs| && rs[i].Valid()
            && (|rs[i].body| == Expected(rs[i], SentHead(ins)[i])
              <==> IsUnderstoodByClient(ins[i], reset, files))
  {
    OneByOne(stream, reset, AnswerFrom(files), i);
    BodyIsExpectedIff(Inputs(stream, reset, AnswerFrom(files))[i], reset, files);
  }

  lemma AllExpectedIff(stream: string, reset: bool, files: Files, rs: seq<Response>, ins: seq<string>)
    requires rs == Serve(stream, reset, AnswerFrom(files)).responses && ins == Inputs(stream, reset, AnswerFrom(files))
    requires |ins| == |rs|
    ensures AllExpected(rs, SentHead(ins))
       <==> forall i :: 0 <= i < |ins| ==> IsUnderstoodByClient(ins[i], reset, files)
  {
    forall i | 0 <= i < |rs|
      ensures |rs[i].body| == Expected(rs[i], SentHead(ins)[i])
              <==> IsUnderstoodByClient(ins[i], reset, files)
    {
      BodiesAreExpectedIff(stream, reset, files, i);
    }
  }

  /** For any bytes from the peer and any file system: a client that knows which requests it wrote as HEAD reads back
      every status and body, if and only if it understands every single response. So it does unless a file is shorter
      than what is announced of it, a method reads as HEAD only up to a NUL, or the conversation ends in the refusal
      of something the client wrote as a HEAD request. */
  lemma ClientReadsBackIff(stream: string, reset: bool, files: Files)
    ensures var rs, ins := Serve(stream, reset, AnswerFrom(files)).responses, Inputs(stream, reset, AnswerFrom(files));
            && |ins| == |rs|
            && (ReadAll(Wires(rs), SentHead(ins)) == Some(MessagesOf(rs)) <==>
                forall i :: 0 <= i < |ins| ==> IsUnderstoodByClient(ins[i], reset, files))
  {
    var answer := AnswerFrom(files);
    var rs, ins := Serve(stream, reset, answer).responses, Inputs(stream, reset, answer);
    AsManyInputs(stream, reset, answer);
    forall i | 0 <= i < |rs|
      ensures rs[i].head.Valid()
    {
      BodiesAreExpectedIff(stream, reset, files, i);
    }
    AllExpectedIff(stream, reset, files, rs, ins);
    OutputFramesItselfIff(rs, SentHead(ins));
  }

  /** The log of any connection has its entries in the order of the responses, one for each complete one, with its
      status and the number of body bytes sent. */
  lemma LogMatchesResponses(stream: string, reset: bool, files: Files)
    ensures Orderly(Serve(stream, reset, AnswerFrom(files)))
  {
    ServerIsWellFormed(files);
    ServeIsOrderly(stream, reset, AnswerFrom(files));
  }

  /** The request line of an entry: the first line of what was left of the stream, up to a NUL and at most 255
      characters of it; if nothing was left and `recv` failed, a text of its own. */
  ghost predicate IsLoggedLine(line: string, input: string) {
    if input == "" then line == "<invalid request>" else IsCut(line, input[..FirstCrlf(input)], 255)
  }

  /** A full buffer holds enough of the first line. */
  lemma LogLineOfBuffer(s: string)
    requires |s| >= READ_BUFFER_SIZE
    ensures LogLine(s[..READ_BUFFER_SIZE]) == LogLine(s)
  {
    var p := s[..READ_BUFFER_SIZE];
    if FirstCrlf(p) < |p| {
      LogLineOfPrefix(p, s);
    } else {
      assert forall j :: 0 <= j < READ_BUFFER_SIZE - 1 ==> CrlfAt(p, j) == CrlfAt(s, j);
      assert FirstCrlf(s) >= READ_BUFFER_SIZE - 1;
      assert p[..|p|][..REQUEST_LINE_SIZE - 1] == s[..FirstCrlf(s)][..REQUEST_LINE_SIZE - 1];
    }
  }

  lemma NextLineIsLogged(input: string, reset: bool)
    ensures match NextRequest(input, reset)
            case EndOfInput => true
            case Rejected(line) => IsLoggedLine(line, input)
            case Accepted(_, line, _) => IsLoggedLine(line, input)
  {
    CopyIsCut(input[..FirstCrlf(input)], REQUEST_LINE_SIZE);
    if |input| >= READ_BUFFER_SIZE {
      LogLineOfBuffer(input);
    }
  }

  lemma {:induction false} LogTellsInputs(stream: string, reset: bool, answer: Answer, i: nat)
    requires i < |Serve(stream, reset, answer).log|
    ensures i < |Inputs(stream, reset, answer)|
    ensures IsLoggedLine(Serve(stream, reset, answer).log[i].line, Inputs(stream, reset, answer)[i])
    decreases |stream|
  {
    NextLineIsLogged(stream, reset);
    match NextRequest(stream, reset)
    case Rejected(_) =>
    case Accepted(req, line, rest) =>
      if i > 0 {
        LogTellsInputs(rest, reset, answer, i - 1);
        LogGoesOn(stream, reset, answer);
        Cut([stream], Inputs(rest, reset, answer));
      }
  }

  lemma LogGoesOn(stream: string, reset: bool, answer: Answer)
    requires |Serve(stream, reset, answer).log| > 1
    ensures GoesOn(stream, reset, answer)
    ensures Serve(stream, reset, answer).log[1..] == Serve(NextRequest(stream, reset).rest, reset, answer).log
  {
  }

  lemma WiresBefore(sent: string, r: Response, log: seq<LogEntry>, t: Transcript)
    ensures sent + Wires(Before(r, log, t).responses) == sent + r.Wire() + Wires(t.responses)
  {
    Cut([r], t.responses);
    Assoc(sent, r.Wire(), Wires(t.responses));
  }
}
