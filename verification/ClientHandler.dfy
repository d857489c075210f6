/** `handle_client` and the senders of src/server.c, proved against module Conversation. */
module ClientHandler {
  import opened Prelude
  import opened Ranges
  import opened HttpParser
  import opened Sockets
  import opened Framing
  import opened Responses
  import opened Messages
  import opened Responder
  import opened Conversation

  /** The access log, src/log.c, without its timestamps and addresses. */
  class AccessLog {
    var entries: seq<LogEntry>

    constructor ()
      ensures entries == []
    {
      entries := [];
    }

    method Write(line: string, status: nat, bytes: nat)
      modifies this
      ensures entries == old(entries) + [LogEntry(line, status, bytes)]
    {
      entries := entries + [LogEntry(line, status, bytes)];
    }
  }

  /** What a sender achieves on a connection that had been sent `before`: the response, or, if a `send` failed
      or the file was too short, a part of it from the front and no success. */
  ghost predicate Sends(r: Response, before: string, after: string, healthy: bool, ok: bool) {
    && before <= after <= before + r.Wire()
    && (ok || healthy ==> after == before + r.Wire())
    && (ok ==> r.complete)
    && (healthy ==> (ok <==> r.complete))
  }

  /** `snprintf` into the header buffer, then `send_all`. */
  method SendHead(socket: Socket, head: ResponseHead) returns (ok: bool)
    requires head.Valid()
    modifies socket`output, socket`sends
    ensures old(socket.output) <= socket.output <= old(socket.output) + head.Print()
    ensures ok ==> socket.output == old(socket.output) + head.Print()
    ensures old(socket.SendHealthy()) ==> ok && socket.SendHealthy()
  {
    var headers := head.Print();
    HeadFits(head);
    if |headers| >= RESPONSE_BUFFER_SIZE {
      return false;
    }
    ok := socket.SendAll(headers);
  }

  /** A header block and then a body that is at hand. */
  method SendWhole(socket: Socket, head: ResponseHead, toHead: bool, body: string) returns (ok: bool)
    requires head.Valid() && (toHead || |body| == head.length)
    modifies socket`output, socket`sends
    ensures Sends(Response(head, toHead, if toHead then "" else body, true), old(socket.output), socket.output,
                  old(socket.SendHealthy()), ok)
    ensures old(socket.SendHealthy()) ==> socket.SendHealthy()
  {
    ghost var before := socket.output;
    Assoc(before, head.Print(), body);
    assert head.Print() + "" == head.Print();
    ok := SendHead(socket, head);
    if !ok {
      assert before + head.Print() <= before + (head.Print() + body);
      return;
    }
    if !toHead {
      ok := socket.SendAll(body);
    }
  }

  /** `send_simple_response`, src/server.c:153-183. `status` and `bytes` are what `*result` gets. */
  method SendSimpleResponse(socket: Socket, http10: bool, toHead: bool, code: nat, body: Body, keepAlive: bool)
    returns (ok: bool, status: nat, bytes: nat)
    requires ResponseHead(http10, code, "text/plain", |body|, [], keepAlive).Valid()
    modifies socket`output, socket`sends
    ensures Sends(Simple(http10, toHead, code, body, keepAlive), old(socket.output), socket.output,
                  old(socket.SendHealthy()), ok)
    ensures old(socket.SendHealthy()) ==> socket.SendHealthy()
    ensures ok ==> status == code && bytes == |Simple(http10, toHead, code, body, keepAlive).body|
    ensures !ok ==> status == 0 && bytes == 0
  {
    ok := SendWhole(socket, ResponseHead(http10, code, "text/plain", |body|, [], keepAlive), toHead, body);
    status, bytes := 0, 0;
    if ok {
      status, bytes := code, if toHead then 0 else |body|;
    }
  }

  /** `send_range_not_satisfiable`, src/server.c:225-257. */
  method SendRangeNotSatisfiable(socket: Socket, http10: bool, toHead: bool, size: Size, keepAlive: bool)
    returns (ok: bool, status: nat, bytes: nat)
    modifies socket`output, socket`sends
    ensures Sends(NotSatisfiable(http10, toHead, size, keepAlive), old(socket.output), socket.output,
                  old(socket.SendHealthy()), ok)
    ensures old(socket.SendHealthy()) ==> socket.SendHealthy()
    ensures ok ==> status == 416 && bytes == |NotSatisfiable(http10, toHead, size, keepAlive).body|
  {
    NotSatisfiableIsValid(http10, toHead, size, keepAlive);
    var r := NotSatisfiable(http10, toHead, size, keepAlive);
    var body := "Range Not Satisfiable\n";
    ok := SendWhole(socket, r.head, toHead, body);
    status, bytes := 416, if toHead then 0 else |body|;
  }

  /** `fread`: at least one byte and at most `want`, unless the end of the file is reached. */
  method Fread(content: string, position: nat, want: nat) returns (got: nat)
    requires want > 0
    ensures got <= want && (got > 0 ==> position + got <= |content|)
    ensures got == 0 <==> position >= |content|
  {
    if position >= |content| {
      return 0;
    }
    got :| 1 <= got <= want && position + got <= |content|;
  }

  lemma SliceSplits(content: string, position: nat, n: nat, got: nat)
    requires got <= n && position + got <= |content|
    ensures Slice(content, position, n) == content[position..position + got] + Slice(content, position + got, n - got)
  {
  }

  lemma PrefixOfSum(total: string, sent: string, chunk: string, rest: string, now: string)
    requires total == sent + (chunk + rest) && sent <= now <= sent + chunk
    ensures now <= total && sent + chunk + rest == total
  {
    Assoc(sent, chunk, rest);
  }

  /** One read and what it sends; `ok` is false at the end of the file and if a `send` failed. */
  method StreamChunk(socket: Socket, content: string, position: nat, remaining: nat) returns (ok: bool, got: nat)
    requires remaining > 0
    modifies socket`output, socket`sends
    ensures old(socket.output) <= socket.output <= old(socket.output) + Slice(content, position, remaining)
    ensures ok ==> 0 < got <= remaining && position + got <= |content|
    ensures ok ==> old(socket.output) + Slice(content, position, remaining)
                   == socket.output + Slice(content, position + got, remaining - got)
    ensures ok ==> |Slice(content, position, remaining)| == got + |Slice(content, position + got, remaining - got)|
    ensures old(socket.SendHealthy()) ==> socket.SendHealthy() && (ok <==> Slice(content, position, remaining) != "")
  {
    ghost var before := socket.output;
    got := Fread(content, position, Min(remaining, READ_BUFFER_SIZE));
    if got == 0 {
      return false, 0;
    }
    var chunk := content[position..position + got];
    SliceSplits(content, position, remaining, got);
    ok := socket.SendAll(chunk);
    PrefixOfSum(before + Slice(content, position, remaining), before, chunk,
                Slice(content, position + got, remaining - got), socket.output);
  }

  /** The streaming loop, src/server.c:324-336: the file's bytes from `start` on, whatever the sizes of the
      single reads and sends. */
  method StreamBody(socket: Socket, content: string, start: nat, length: nat) returns (ok: bool)
    modifies socket`output, socket`sends
    ensures old(socket.output) <= socket.output <= old(socket.output) + Slice(content, start, length)
    ensures ok ==> |Slice(content, start, length)| == length
    ensures ok || old(socket.SendHealthy()) ==> socket.output == old(socket.output) + Slice(content, start, length)
    ensures old(socket.SendHealthy()) ==> socket.SendHealthy() && (ok <==> |Slice(content, start, length)| == length)
  {
    ghost var before, whole := socket.output, Slice(content, start, length);
    ghost var total := before + whole;
    var position: nat, remaining: nat := start, length;
    while remaining > 0
      invariant before <= socket.output && total == socket.output + Slice(content, position, remaining)
      invariant |Slice(content, position, remaining)| == remaining <==> |whole| == length
      invariant old(socket.SendHealthy()) ==> socket.SendHealthy()
    {
      var got;
      ok, got := StreamChunk(socket, content, position, remaining);
      if !ok {
        return;
      }
      position, remaining := position + got, remaining - got;
    }
    assert Slice(content, position, 0) == "";
    ok := true;
  }

  method SendInternalError(socket: Socket, req: Request, ghost r: Response) returns (ok: bool, status: nat, bytes: nat)
    requires r == InternalError(req)
    modifies socket`output, socket`sends
    ensures Sends(r, old(socket.output), socket.output, old(socket.SendHealthy()), ok)
    ensures old(socket.SendHealthy()) ==> socket.SendHealthy()
    ensures ok ==> status == r.head.status && bytes == |r.body|
  {
    ok, status, bytes :=
      SendSimpleResponse(socket, req.version == Http10, req.verb == Verb.Head, 500, "Internal Server Error\n", false);
  }

  /** `send_file_response`, src/server.c:259-344. */
  method SendFileResponse(socket: Socket, req: Request, size: Size, mime: Mime, content: Option<string>, seekable: bool,
                          ghost r: Response)
    returns (ok: bool, status: nat, bytes: nat)
    requires r == FileAnswer(req, size, mime, content, seekable)
    modifies socket`output, socket`sends
    ensures Sends(r, old(socket.output), socket.output, old(socket.SendHealthy()), ok)
    ensures old(socket.SendHealthy()) ==> socket.SendHealthy()
    ensures ok ==> status == r.head.status && bytes == |r.body|
  {
    var range := ResolveRange(req.range, size);
    if content == None {
      ok, status, bytes := SendInternalError(socket, req, r);
    } else if range == None {
      ok, status, bytes :=
        SendRangeNotSatisfiable(socket, req.version == Http10, req.verb == Verb.Head, size, req.keepAlive);
    } else if range.value.partial && !seekable {
      ok, status, bytes := SendInternalError(socket, req, r);
    } else {
      ok, status, bytes := SendOpenFile(socket, req, size, mime, content.value, range.value);
    }
  }

  /** The part of `send_file_response` after the range is resolved, src/server.c:283-343. */
  method SendOpenFile(socket: Socket, req: Request, size: Size, mime: Mime, content: string, range: ByteRange)
    returns (ok: bool, status: nat, bytes: nat)
    requires !range.partial ==> range.start == 0 && range.length == size
    modifies socket`output, socket`sends
    ensures Sends(FileResponse(req, size, mime, content, range), old(socket.output), socket.output,
                  old(socket.SendHealthy()), ok)
    ensures old(socket.SendHealthy()) ==> socket.SendHealthy()
    ensures ok ==> status == FileResponse(req, size, mime, content, range).head.status
    ensures ok ==> bytes == |FileResponse(req, size, mime, content, range).body|
  {
    FileResponseIsValid(req, size, mime, content, range);
    var head := FileHead(req.version == Http10, mime, size, range, req.keepAlive);
    ghost var r := FileResponse(req, size, mime, content, range);
    ghost var before := socket.output;
    Assoc(before, head.Print(), r.body);
    status, bytes := if range.partial then 206 else 200, 0;
    ok := SendHead(socket, head);
    assert before + head.Print() <= before + r.Wire();
    if !ok {
      return;
    }
    if req.verb == Verb.Head {
      assert head.Print() + "" == head.Print();
      return;
    }
    bytes := range.length;
    ok := StreamBody(socket, content, range.start, range.length);
  }

  /** `send_directory_response`, src/server.c:346-387. */
  method SendDirectoryResponse(socket: Socket, req: Request, listing: Option<Body>, ghost r: Response)
    returns (ok: bool, status: nat, bytes: nat)
    requires r == DirectoryAnswer(req, listing)
    modifies socket`output, socket`sends
    ensures Sends(r, old(socket.output), socket.output, old(socket.SendHealthy()), ok)
    ensures old(socket.SendHealthy()) ==> socket.SendHealthy()
    ensures ok ==> status == r.head.status && bytes == |r.body|
  {
    var http10, toHead := req.version == Http10, req.verb == Verb.Head;
    if listing == None {
      ok, status, bytes := SendInternalError(socket, req, r);
    } else {
      var head := ResponseHead(http10, 200, "text/html", |listing.value|, [], req.keepAlive);
      assert r == Response(head, toHead, if toHead then "" else listing.value, true);
      status, bytes := 200, if toHead then 0 else |listing.value|;
      ok := SendWhole(socket, head, toHead, listing.value);
    }
  }

  /** The part of the loop of `handle_client` that answers one request, src/server.c:441-483. */
  method AnswerRequest(socket: Socket, req: Request, files: Files, ghost r: Response)
    returns (ok: bool, status: nat, bytes: nat)
    requires r == Respond(req, files(req.path))
    modifies socket`output, socket`sends
    ensures Sends(r, old(socket.output), socket.output, old(socket.SendHealthy()), ok)
    ensures old(socket.SendHealthy()) ==> socket.SendHealthy()
    ensures ok ==> status == r.head.status && bytes == |r.body|
  {
    var http10, toHead := req.version == Http10, req.verb == Verb.Head;
    if req.verb == Unsupported {
      ok, status, bytes := SendSimpleResponse(socket, http10, toHead, 501, "Not Implemented\n", req.keepAlive);
      return;
    }
    match files(req.path)
    case Unavailable(e) =>
      ok, status, bytes := SendSimpleResponse(socket, http10, toHead, StatusOf(e), ErrorBody(e), req.keepAlive);
    case Directory(listing) =>
      ok, status, bytes := SendDirectoryResponse(socket, req, listing, r);
    case Regular(size, mime, content, seekable) =>
      ok, status, bytes := SendFileResponse(socket, req, size, mime, content, seekable, r);
  }

  /** Where a connection stands: what it was sent and logged, and what is still to come if it goes on. */
  ghost predicate OnTrack(output: string, log: seq<LogEntry>, after: Transcript,
                          allOutput: string, allLog: seq<LogEntry>)
  {
    output + Wires(after.responses) == allOutput && log + after.log == allLog
  }

  /** What may have been logged when the connection is over or goes on: a part of all log lines from the front; only
      the line of a 400 that could not be sent says 0 and 0. */
  ghost predicate Logged(log: seq<LogEntry>, all: seq<LogEntry>) {
    || log <= all
    || (all != [] && log == all[..|all| - 1] + [LogEntry(all[|all| - 1].line, 0, 0)])
  }

  lemma LoggedRejection(log: seq<LogEntry>, line: string, status: nat, bytes: nat, all: seq<LogEntry>)
    requires log + [LogOf(line, BadRequest())] == all
    requires LogEntry(line, status, bytes) == LogOf(line, BadRequest()) || (status == 0 && bytes == 0)
    ensures Logged(log + [LogEntry(line, status, bytes)], all)
  {
    Cut(log, [LogOf(line, BadRequest())]);
  }

  lemma OneStep(output: string, log: seq<LogEntry>, r: Response, line: string, goOn: bool, after: Transcript,
                allOutput: string, allLog: seq<LogEntry>)
    requires OnTrack(output, log, Prepend(r, goOn, line, after), allOutput, allLog)
    ensures output + r.Wire() <= allOutput && log <= allLog
    ensures r.complete ==> log + [LogOf(line, r)] <= allLog
    ensures r.complete && goOn ==> OnTrack(output + r.Wire(), log + [LogOf(line, r)], after, allOutput, allLog)
    ensures r.complete && !goOn ==> output + r.Wire() == allOutput && log + [LogOf(line, r)] == allLog
    ensures !r.complete ==> output + r.Wire() == allOutput && log == allLog
  {
    if r.complete && goOn {
      WiresBefore(output, r, [LogOf(line, r)], after);
      Assoc(log, [LogOf(line, r)], after.log);
    } else {
      assert Wires([r]) == r.Wire() + "" == r.Wire();
    }
  }

  /** Answering one request and logging it. */
  method HandleRequest(socket: Socket, req: Request, line: string, files: Files, log: AccessLog,
                       ghost after: Transcript, ghost allOutput: string, ghost allLog: seq<LogEntry>)
    returns (goOn: bool)
    requires OnTrack(socket.output, log.entries, Prepend(Respond(req, files(req.path)), req.keepAlive, line, after),
                     allOutput, allLog)
    modifies socket`output, socket`sends, log
    ensures old(socket.output) <= socket.output <= allOutput
    ensures old(log.entries) <= log.entries && Logged(log.entries, allLog)
    ensures goOn ==> OnTrack(socket.output, log.entries, after, allOutput, allLog)
    ensures !goOn && old(socket.SendHealthy()) ==> socket.output == allOutput && log.entries == allLog
    ensures old(socket.SendHealthy()) ==> socket.SendHealthy()
  {
    ghost var r := Respond(req, files(req.path));
    OneStep(socket.output, log.entries, r, line, req.keepAlive, after, allOutput, allLog);
    var ok, status, bytes := AnswerRequest(socket, req, files, r);
    if !ok {
      return false;
    }
    log.Write(line, status, bytes);
    goOn := req.keepAlive;
  }

  /** The answer to what is no request, src/server.c:426-436. The result of the send is not looked at. */
  method HandleBadRequest(socket: Socket, line: string, log: AccessLog, ghost allLog: seq<LogEntry>)
    requires log.entries + [LogOf(line, BadRequest())] == allLog
    modifies socket`output, socket`sends, log
    ensures old(socket.output) <= socket.output <= old(socket.output) + BadRequest().Wire()
    ensures old(socket.SendHealthy()) ==>
              socket.SendHealthy() && socket.output == old(socket.output) + BadRequest().Wire() && log.entries == allLog
    ensures old(log.entries) <= log.entries && Logged(log.entries, allLog)
  {
    var ok, status, bytes := SendSimpleResponse(socket, false, false, 400, "Bad Request\n", false);
    LoggedRejection(log.entries, line, status, bytes, allLog);
    log.Write(line, status, bytes);
  }

  /** The main thread on a full queue, src/server.c:590-598: it answers, logs and closes itself. */
  method RefuseConnection(socket: Socket, log: AccessLog)
    modifies socket, log
    ensures socket.closed
    ensures old(socket.output) <= socket.output <= old(socket.output) + Overloaded().Wire()
    ensures |log.entries| == |old(log.entries)| + 1 && old(log.entries) <= log.entries
    ensures var entry := log.entries[|log.entries| - 1];
            && entry.line == "-"
            && (old(socket.SendHealthy()) ==>
                  && socket.output == old(socket.output) + Overloaded().Wire()
                  && entry.status == 503 && entry.bytes == |Overloaded().body|)
            && (entry.status == 503 || (entry.status == 0 && entry.bytes == 0))
  {
    var ok, status, bytes := SendSimpleResponse(socket, false, false, 503, "Service Unavailable\n", false);
    log.Write("-", status, bytes);
    socket.Close();
  }

  lemma NothingMore(stream: string, reset: bool, answer: Answer, output: string, log: seq<LogEntry>,
                    allOutput: string, allLog: seq<LogEntry>)
    requires NextRequest(stream, reset).EndOfInput?
             && OnTrack(output, log, Serve(stream, reset, answer), allOutput, allLog)
    ensures output == allOutput && log == allLog
  {
  }

  lemma OnlyARejection(stream: string, reset: bool, answer: Answer, output: string, log: seq<LogEntry>,
                       allOutput: string, allLog: seq<LogEntry>)
    requires NextRequest(stream, reset).Rejected?
             && OnTrack(output, log, Serve(stream, reset, answer), allOutput, allLog)
    ensures output + BadRequest().Wire() == allOutput
    ensures log + [LogOf(NextRequest(stream, reset).line, BadRequest())] == allLog
  {
    assert Wires([BadRequest()]) == BadRequest().Wire() + "" == BadRequest().Wire();
  }

  /** One round of the loop of `handle_client`. */
  method ServeOnce(socket: Socket, buffer: array<char>, buffered: nat, request: HttpRequest,
                   files: Files, log: AccessLog, ghost allOutput: string, ghost allLog: seq<LogEntry>)
    returns (goOn: bool, buffered': nat)
    requires buffer.Length == READ_BUFFER_SIZE && buffered <= buffer.Length
    requires OnTrack(socket.output, log.entries, Serve(Stream(socket, buffer, buffered), socket.reset,
             AnswerFrom(files)), allOutput, allLog)
    modifies socket, buffer, request, log
    ensures buffered' <= buffer.Length
    ensures old(socket.output) <= socket.output <= allOutput
    ensures old(log.entries) <= log.entries && Logged(log.entries, allLog)
    ensures goOn ==>
              && OnTrack(socket.output, log.entries, Serve(Stream(socket, buffer, buffered'), socket.reset,
                AnswerFrom(files)), allOutput, allLog)
              && |Stream(socket, buffer, buffered')| < |old(Stream(socket, buffer, buffered))|
    ensures old(socket.SendHealthy()) ==> socket.SendHealthy()
    ensures !goOn && old(socket.SendHealthy()) ==> socket.output == allOutput && log.entries == allLog
  {
    ghost var stream, answer := Stream(socket, buffer, buffered), AnswerFrom(files);
    ghost var reset := socket.reset;
    ghost var next := NextRequest(stream, reset);
    var result, line;
    result, buffered', line := ReadNextRequest(socket, buffer, buffered, request);
    if result == ReadEnd {
      NothingMore(stream, reset, answer, socket.output, log.entries, allOutput, allLog);
      return false, buffered';
    }
    if result == ReadError {
      OnlyARejection(stream, reset, answer, socket.output, log.entries, allOutput, allLog);
      line := INVALID;
      if buffered' > 0 {
        line := ExtractRequestLine(buffer, buffered');
      }
      HandleBadRequest(socket, line, log, allLog);
      return false, buffered';
    }
    goOn := HandleRequest(socket, request.View(), line, files, log, Serve(next.rest, reset, answer), allOutput, allLog);
  }

  /** `handle_client`, src/server.c:400-488. Whatever the network does to single calls, a connection on which no
      `send` fails sends and logs exactly what `Serve` says about the bytes that arrive and how they end; if a
      `send` fails, the peer has received and the log has got a part of that from the front. */
  method HandleClient(socket: Socket, files: Files, log: AccessLog)
    modifies socket, log
    ensures socket.closed
    ensures var t := Serve(old(socket.input), socket.reset, AnswerFrom(files));
            && old(socket.output) <= socket.output <= old(socket.output) + Wires(t.responses)
            && old(log.entries) <= log.entries && Logged(log.entries, old(log.entries) + t.log)
            && (old(socket.SendHealthy()) ==>
                  && socket.output == old(socket.output) + Wires(t.responses)
                  && log.entries == old(log.entries) + t.log)
  {
    var buffer := new char[READ_BUFFER_SIZE];
    var request := new HttpRequest();
    var buffered: nat, keepGoing := 0, true;
    ghost var t := Serve(socket.input, socket.reset, AnswerFrom(files));
    ghost var allOutput, allLog := socket.output + Wires(t.responses), log.entries + t.log;
    assert Stream(socket, buffer, 0) == socket.input;
    while keepGoing
      invariant buffered <= buffer.Length
      invariant old(socket.SendHealthy()) ==> socket.SendHealthy()
      invariant old(socket.output) <= socket.output <= allOutput
      invariant old(log.entries) <= log.entries && Logged(log.entries, allLog)
      invariant keepGoing ==>
                  OnTrack(socket.output, log.entries, Serve(Stream(socket, buffer, buffered), socket.reset,
                    AnswerFrom(files)), allOutput, allLog)
      invariant !keepGoing && old(socket.SendHealthy()) ==>
                  socket.output == allOutput && log.entries == allLog
      decreases keepGoing, |Stream(socket, buffer, buffered)|
    {
      keepGoing, buffered := ServeOnce(socket, buffer, buffered, request, files, log, allOutput, allLog);
    }
    socket.Close();
  }
}
