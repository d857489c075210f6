/** How src/server.c cuts a connection's byte stream into request blocks. */
module Framing {
  import opened Prelude
  import opened Text
  import opened HttpParser
  import opened HttpPrinter
  import opened Sockets

  const READ_BUFFER_SIZE: nat := 8192
  const REQUEST_LINE_SIZE: nat := 256

  predicate BlankLineAt(s: string, i: nat) {
    CrlfAt(s, i) && CrlfAt(s, i + 2)
  }

  ghost predicate IsFirstBlankLine(s: string, i: nat) {
    i <= |s| && (i < |s| ==> BlankLineAt(s, i)) && forall j :: 0 <= j < i ==> !BlankLineAt(s, j)
  }

  /** The position of the first CRLFCRLF, or `|s|`. */
  ghost function FirstBlankLine(s: string): (i: nat)
    ensures IsFirstBlankLine(s, i)
  {
    FirstBlankLineExists(s, 0);
    var i: nat :| IsFirstBlankLine(s, i);
    i
  }

  lemma FirstBlankLineExists(s: string, from: nat)
    requires from <= |s| && forall j :: 0 <= j < from ==> !BlankLineAt(s, j)
    ensures exists i: nat :: IsFirstBlankLine(s, i)
    decreases |s| - from
  {
    if from < |s| && !BlankLineAt(s, from) {
      FirstBlankLineExists(s, from + 1);
    } else {
      assert IsFirstBlankLine(s, from);
    }
  }

  lemma FirstBlankLineIs(s: string, i: nat)
    requires IsFirstBlankLine(s, i)
    ensures FirstBlankLine(s) == i
  {
  }

  /** What `extract_request_line` leaves for the log. */
  ghost function LogLine(s: string): (r: string) {
    CopyBounded(s[..FirstCrlf(s)], REQUEST_LINE_SIZE)
  }

  /** What is next on a stream of bytes. Only the bytes matter. */
  datatype Outcome =
    | EndOfInput
    | Rejected(line: string)
    | Accepted(request: Request, line: string, rest: string)

  /** The length of the block at the front of the stream, 0 if none ends within the buffer's size. */
  ghost function BlockLength(stream: string): (n: nat)
    ensures n <= |stream| && n <= READ_BUFFER_SIZE
  {
    var k := FirstBlankLine(stream);
    if k < |stream| && k + 4 <= READ_BUFFER_SIZE then k + 4 else 0
  }

  /** A block is framed exactly if CRLFCRLF ends it within the first 8192 bytes. */
  lemma FramedIff(stream: string)
    ensures BlockLength(stream) > 0 <==> exists k: nat :: k <= 8188 && EndsAt(stream, k)
    ensures BlockLength(stream) > 0 ==> EndsAt(stream, BlockLength(stream) - 4)
    ensures forall k: nat :: k + 4 < BlockLength(stream) ==> !EndsAt(stream, k)
  {
    forall k: nat
      ensures EndsAt(stream, k) <==> BlankLineAt(stream, k)
    {
      assert k + 4 <= |stream| ==> stream[k..k + 4] == [stream[k], stream[k + 1], stream[k + 2], stream[k + 3]];
    }
    assert BlockLength(stream) > 0 ==> EndsAt(stream, FirstBlankLine(stream));
  }

  predicate EndsAt(stream: string, k: nat) {
    k + 4 <= |stream| && stream[k..k + 4] == "\r\n\r\n"
  }

  function Judge(parsed: Option<Request>, line: string, rest: string): (r: Outcome) {
    match parsed
    case None => Rejected(line)
    case Some(r) => Accepted(r, line, rest)
  }

  /** What the log gets for input that ends in an error of `recv` with nothing buffered. */
  const INVALID := "<invalid request>"

  /** `stream` is all that will ever arrive; `reset` says whether `recv` fails after it. */
  ghost function NextRequest(stream: string, reset: bool): (next: Outcome)
    ensures next.Accepted? ==> |next.rest| < |stream|
  {
    var n := BlockLength(stream);
    if n > 0 then Judge(ParseRequest(stream[..n]), LogLine(stream), stream[n..])
    else if |stream| >= READ_BUFFER_SIZE then Rejected(LogLine(stream[..READ_BUFFER_SIZE]))
    else if stream == "" then if reset then Rejected(INVALID) else EndOfInput
    else Rejected(LogLine(stream))
  }

  // --- prefixes ------------------------------------------------------------------------------------

  /** A blank line found in what has arrived is the first of the whole stream. */
  lemma BlankLineInPrefix(p: string, s: string)
    requires p <= s && FirstBlankLine(p) < |p|
    ensures FirstBlankLine(s) == FirstBlankLine(p)
  {
    var k := FirstBlankLine(p);
    assert forall j :: 0 <= j <= k ==> BlankLineAt(p, j) == BlankLineAt(s, j);
    FirstBlankLineIs(s, k);
  }

  /** If none is found, the first of the whole stream ends beyond what has arrived. */
  lemma NoBlankLineInPrefix(p: string, s: string)
    requires p <= s && FirstBlankLine(p) == |p|
    ensures FirstBlankLine(s) == |s| || FirstBlankLine(s) + 4 > |p|
  {
    assert forall j: nat :: j + 4 <= |p| ==> BlankLineAt(p, j) == BlankLineAt(s, j);
  }

  lemma LogLineOfPrefix(p: string, s: string)
    requires p <= s && FirstCrlf(p) < |p|
    ensures LogLine(s) == LogLine(p)
  {
    var k := FirstCrlf(p);
    assert forall j :: 0 <= j <= k ==> CrlfAt(p, j) == CrlfAt(s, j);
    FirstCrlfIs(s, k);
    assert p[..k] == s[..k];
  }

  lemma BlankLineHasCrlf(s: string)
    requires FirstBlankLine(s) < |s|
    ensures FirstCrlf(s) <= FirstBlankLine(s) && FirstCrlf(s) < |s|
  {
  }

  // --- blocks and lines ------------------------------------------------------------------------------

  /** What follows a line of a block: the final empty line, or more lines and the block's only blank line at
      its end. */
  ghost predicate BlockTail(t: string) {
    t == CRLF || (FirstCrlf(t) > 0 && FirstBlankLine(t) + 4 == |t|)
  }

  lemma BlankLineShift(t: string, n: nat, j: nat)
    requires n <= |t|
    ensures BlankLineAt(t[n..], j) == BlankLineAt(t, n + j)
  {
  }

  lemma BlankLineAfter(t: string, n: nat)
    requires n <= FirstBlankLine(t) < |t|
    ensures FirstBlankLine(t[n..]) == FirstBlankLine(t) - n
  {
    forall j | 0 <= j <= FirstBlankLine(t) - n
      ensures BlankLineAt(t[n..], j) == (j == FirstBlankLine(t) - n)
    {
      BlankLineShift(t, n, j);
    }
    FirstBlankLineIs(t[n..], FirstBlankLine(t) - n);
  }

  lemma AfterOneLine(t: string)
    requires FirstCrlf(t) > 0 && FirstBlankLine(t) + 4 == |t|
    ensures FirstCrlf(t) + 4 <= |t| && BlockTail(t[FirstCrlf(t) + 2..])
  {
    var k, b := FirstCrlf(t), FirstBlankLine(t);
    assert CrlfAt(t, b) && k <= b && (k < b ==> t[k + 1] != t[b]);
    if k == b {
      assert t[k + 2..] == CRLF;
    } else {
      BlankLineAfter(t, k + 2);
      assert !BlankLineAt(t, k);
    }
  }

  ghost predicate AreLines(lines: seq<string>) {
    forall i :: 0 <= i < |lines| ==> IsLine(lines[i])
  }

  lemma ConsLines(line: string, lines: seq<string>)
    requires IsLine(line) && AreLines(lines)
    ensures AreLines([line] + lines) && JoinLines([line] + lines) == line + CRLF + JoinLines(lines)
  {
    assert ([line] + lines)[1..] == lines;
  }

  lemma {:induction false} TailIsLines(t: string)
    requires BlockTail(t)
    ensures t == JoinLines(HeaderLines(t)) + CRLF && AreLines(HeaderLines(t))
    decreases |t|
  {
    if t == CRLF {
      FirstCrlfIs(t, 0);
    } else {
      var k := FirstCrlf(t);
      AfterOneLine(t);
      var line, rest := t[..k], t[k + 2..];
      TailIsLines(rest);
      CutAtCrlf(t, k);
      PrefixIsCrlfFree(t);
      var lines := HeaderLines(rest);
      assert HeaderLines(t) == [line] + lines;
      ConsLines(line, lines);
      Assoc(line + CRLF, JoinLines(lines), CRLF);
    }
  }

  lemma PrefixIsCrlfFree(t: string)
    ensures CrlfFree(t[..FirstCrlf(t)])
  {
    var p := t[..FirstCrlf(t)];
    assert forall j: nat :: j + 2 <= |p| ==> CrlfAt(p, j) == CrlfAt(t, j);
  }

  lemma BlockPrefix(stream: string, n: nat)
    requires BlockLength(stream) == n > 0
    ensures FirstBlankLine(stream[..n]) == n - 4 && FirstCrlf(stream[..n]) == FirstCrlf(stream) < n
  {
    var block := stream[..n];
    assert BlankLineAt(block, n - 4);
    BlankLineInPrefix(block, stream);
    BlankLineHasCrlf(stream);
    assert CrlfAt(block, FirstCrlf(stream));
    assert forall j :: 0 <= j < FirstCrlf(stream) ==> CrlfAt(block, j) == CrlfAt(stream, j);
    FirstCrlfIs(block, FirstCrlf(stream));
  }

  /** The input is at its end only if there are no bytes and they did not end in an error. */
  lemma EndOfInputIff(stream: string, reset: bool)
    ensures NextRequest(stream, reset).EndOfInput? <==> stream == "" && !reset
  {
  }

  lemma FramedLineIff(stream: string)
    requires BlockLength(stream) > 0
    ensures ParseRequest(stream[..BlockLength(stream)]).Some?
       <==> exists p :: IsRequestLine(stream[..FirstCrlf(stream)], p)
  {
    var block := stream[..BlockLength(stream)];
    BlockPrefix(stream, |block|);
    assert block[..FirstCrlf(block)] == stream[..FirstCrlf(stream)];
    AcceptsExactlyRequestLines(block);
  }

  /** Which bytes begin with a request: those where CRLFCRLF ends a block within 8192 bytes, and the first line is a
      request line. */
  lemma AcceptedIff(stream: string, reset: bool)
    ensures NextRequest(stream, reset).Accepted?
       <==> (exists k: nat :: k <= 8188 && EndsAt(stream, k))
            && exists p :: IsRequestLine(stream[..FirstCrlf(stream)], p)
  {
    FramedIff(stream);
    if BlockLength(stream) > 0 {
      FramedLineIff(stream);
    }
  }

  /** What follows a request is what follows its CRLFCRLF. */
  lemma RestFollowsBlock(stream: string, reset: bool)
    requires NextRequest(stream, reset).Accepted?
    ensures exists k: nat ::
              && EndsAt(stream, k) && NextRequest(stream, reset).rest == stream[k + 4..]
              && forall j: nat :: j < k ==> !EndsAt(stream, j)
  {
    FramedIff(stream);
    assert EndsAt(stream, BlockLength(stream) - 4);
  }

  /** Framing and line splitting agree: a framed block with a nonempty first line is that line, the header
      lines the parser visits, each once and in order, and one empty line. */
  lemma BlockIsItsLines(stream: string, block: string, k: nat)
    requires block == stream[..BlockLength(stream)] && block != "" && k == FirstCrlf(stream) > 0
    ensures k == FirstCrlf(block) && k + 2 <= |block|
    ensures block == block[..k] + CRLF + (JoinLines(HeaderLines(block[k + 2..])) + CRLF)
    ensures IsLine(block[..k]) && AreLines(HeaderLines(block[k + 2..]))
  {
    BlockPrefix(stream, |block|);
    AfterOneLine(block);
    TailIsLines(block[k + 2..]);
    PrefixIsCrlfFree(block);
    CutAtCrlf(block, k);
  }

  // --- the receive loop --------------------------------------------------------------------------------

  /** `find_header_end`, src/server.c:83-97. */
  method FindHeaderEnd(buffer: array<char>, length: nat) returns (found: bool, headerLength: nat)
    requires length <= buffer.Length
    ensures found <==> FirstBlankLine(buffer[..length]) < length
    ensures found ==> headerLength == FirstBlankLine(buffer[..length]) + 4 <= length
  {
    found, headerLength := false, 0;
    ghost var s := buffer[..length];
    if length < 4 {
      return;
    }
    var i := 0;
    while i + 3 < length
      invariant i + 3 <= length
      invariant forall j :: 0 <= j < i ==> !BlankLineAt(s, j)
    {
      if buffer[i] == '\r' && buffer[i + 1] == '\n' && buffer[i + 2] == '\r' && buffer[i + 3] == '\n' {
        FirstBlankLineIs(s, i);
        return true, i + 4;
      }
      i := i + 1;
    }
  }

  /** `extract_request_line`, src/server.c:59-81. */
  method ExtractRequestLine(buffer: array<char>, length: nat) returns (line: string)
    requires length <= buffer.Length
    ensures line == LogLine(buffer[..length])
  {
    ghost var s := buffer[..length];
    var lineEnd := length;
    var i := 0;
    while i + 1 < length
      invariant i <= length && lineEnd == length
      invariant forall j :: 0 <= j < i ==> !CrlfAt(s, j)
    {
      if buffer[i] == '\r' && buffer[i + 1] == '\n' {
        FirstCrlfIs(s, i);
        lineEnd := i;
        break;
      }
      i := i + 1;
    }
    assert lineEnd == FirstCrlf(s);
    assert buffer[..lineEnd] == s[..lineEnd];
    line := CopyBounded(buffer[..lineEnd], REQUEST_LINE_SIZE);
  }

  /** The bytes of the connection not yet turned into requests: those in the buffer, then those to come. */
  ghost function Stream(socket: Socket, buffer: array<char>, buffered: nat): (r: string)
    reads socket, buffer
    requires buffered <= buffer.Length
  {
    buffer[..buffered] + socket.input
  }

  datatype ReadResult = ReadEnd | ReadError | ReadRequest

  /** One `recv` into the free part of the buffer. */
  method Fill(socket: Socket, buffer: array<char>, buffered: nat) returns (r: Received, buffered': nat)
    requires buffered < buffer.Length
    modifies socket`input, socket`recvs, buffer
    ensures buffered <= buffered' <= buffer.Length && buffer[..buffered] == old(buffer[..buffered])
    ensures Stream(socket, buffer, buffered') == old(Stream(socket, buffer, buffered))
    ensures !r.Data? || r.bytes == "" ==> buffered' == buffered
    ensures r.Failed? || r == Data("") ==> socket.input == "" && (r.Failed? <==> socket.reset)
    ensures |socket.input| + |socket.recvs| < old(|socket.input| + |socket.recvs|) || r.Failed? || r == Data("")
  {
    buffered' := buffered;
    r := socket.Recv(buffer.Length - buffered);
    if r.Data? {
      forall i | 0 <= i < |r.bytes| {
        buffer[buffered + i] := r.bytes[i];
      }
      buffered' := buffered + |r.bytes|;
      assert buffer[..buffered'] == old(buffer[..buffered]) + r.bytes;
    }
  }

  /** The left shift of src/server.c:113-114. */
  method DropFront(buffer: array<char>, buffered: nat, count: nat) returns (buffered': nat)
    requires count <= buffered <= buffer.Length
    modifies buffer
    ensures buffered' == buffered - count && buffer[..buffered'] == old(buffer[count..buffered])
  {
    buffered' := buffered - count;
    forall i | 0 <= i < buffered' {
      buffer[i] := buffer[count + i];
    }
  }

  /** A block at the front of what has arrived is the next block, whatever follows. */
  lemma BlockArrived(held: string, input: string, n: nat)
    requires |held| <= READ_BUFFER_SIZE
    requires FirstBlankLine(held) < |held| && n == FirstBlankLine(held) + 4
    ensures BlockLength(held + input) == n
    ensures (held + input)[..n] == held[..n] && (held + input)[n..] == held[n..] + input
  {
    BlankLineInPrefix(held, held + input);
  }

  lemma BlockLogLine(held: string, input: string, n: nat)
    requires FirstBlankLine(held) < |held| && n == FirstBlankLine(held) + 4
    ensures LogLine(held[..n]) == LogLine(held) == LogLine(held + input)
  {
    BlankLineHasCrlf(held);
    LogLineOfPrefix(held, held + input);
    assert CrlfAt(held[..n], FirstBlankLine(held));
    LogLineOfPrefix(held[..n], held);
  }

  /** A full buffer without a block is too much. */
  lemma BufferFull(held: string, stream: string, reset: bool)
    requires held <= stream && |held| == READ_BUFFER_SIZE && FirstBlankLine(held) == |held|
    ensures NextRequest(stream, reset) == Rejected(LogLine(held))
  {
    NoBlankLineInPrefix(held, stream);
    assert stream[..READ_BUFFER_SIZE] == held;
  }

  /** That a read's result, what it leaves in the buffer, its log line, the parsed fields and the rest of the
      stream are what the stream said was next. */
  ghost predicate Answers(next: Outcome, result: ReadResult, held: string, line: string,
                          parsed: Request, rest: string)
  {
    match next
    case EndOfInput => result == ReadEnd
    case Rejected(l) => result == ReadError && l == if held == "" then INVALID else LogLine(held)
    case Accepted(r, l, t) => result == ReadRequest && parsed == r && line == l && rest == t
  }

  lemma BlockAnswers(held: string, input: string, reset: bool, n: nat, next: Outcome)
    requires |held| <= READ_BUFFER_SIZE && FirstBlankLine(held) < |held| && n == FirstBlankLine(held) + 4
    requires next == NextRequest(held + input, reset)
    ensures next == Judge(ParseRequest(held[..n]), LogLine(held), held[n..] + input)
    ensures LogLine(held[..n]) == LogLine(held)
  {
    BlockArrived(held, input, n);
    BlockLogLine(held, input, n);
  }

  /** The request at the front of the buffer, src/server.c:109-115. */
  method TakeBlock(socket: Socket, buffer: array<char>, buffered: nat, headerLength: nat, request: HttpRequest)
    returns (result: ReadResult, buffered': nat, line: string)
    requires buffered <= buffer.Length == READ_BUFFER_SIZE
    requires FirstBlankLine(buffer[..buffered]) < buffered && headerLength == FirstBlankLine(buffer[..buffered]) + 4
    modifies buffer, request
    ensures buffered' <= buffer.Length
    ensures Answers(NextRequest(old(Stream(socket, buffer, buffered)), socket.reset), result, buffer[..buffered'], line,
                    request.View(), Stream(socket, buffer, buffered'))
  {
    ghost var held, next := buffer[..buffered], NextRequest(Stream(socket, buffer, buffered), socket.reset);
    BlockAnswers(held, socket.input, socket.reset, headerLength, next);
    assert held[..headerLength] == buffer[..headerLength] && held[headerLength..] == buffer[headerLength..buffered];
    line := ExtractRequestLine(buffer, headerLength);
    var ok := request.Parse(buffer[..headerLength]);
    if !ok {
      assert buffer[..buffered] == held;
      return ReadError, buffered, line;
    }
    buffered' := DropFront(buffer, buffered, headerLength);
    result := ReadRequest;
  }

  /** Nothing more arrives and no block is there. */
  lemma InputExhausted(stream: string, reset: bool)
    requires |stream| < READ_BUFFER_SIZE && FirstBlankLine(stream) == |stream|
    ensures NextRequest(stream, reset) == if stream != "" then Rejected(LogLine(stream))
                                          else if reset then Rejected(INVALID) else EndOfInput
  {
  }

  /** `read_next_request`. What it answers and what it leaves depend only on the stream of bytes and on how it
      ends, not on how the network cut it, how often a call was interrupted, or how much of the stream had
      already been buffered. */
  method ReadNextRequest(socket: Socket, buffer: array<char>, buffered: nat, request: HttpRequest)
    returns (result: ReadResult, buffered': nat, line: string)
    requires buffer.Length == READ_BUFFER_SIZE && buffered <= buffer.Length
    modifies socket`input, socket`recvs, buffer, request
    ensures buffered' <= buffer.Length
    ensures Answers(NextRequest(old(Stream(socket, buffer, buffered)), socket.reset), result, buffer[..buffered'], line,
                    request.View(), Stream(socket, buffer, buffered'))
  {
    ghost var stream := Stream(socket, buffer, buffered);
    ghost var next := NextRequest(stream, socket.reset);
    buffered', line := buffered, "";
    while true
      invariant buffered' <= buffer.Length && Stream(socket, buffer, buffered') == stream
      decreases |socket.input| + |socket.recvs|
    {
      ghost var held := buffer[..buffered'];
      var found, headerLength := FindHeaderEnd(buffer, buffered');
      if found {
        result, buffered', line := TakeBlock(socket, buffer, buffered', headerLength, request);
        return;
      }
      if buffered' == READ_BUFFER_SIZE {
        BufferFull(held, stream, socket.reset);
        return ReadError, buffered', line;
      }
      var r;
      r, buffered' := Fill(socket, buffer, buffered');
      if r.Failed? || r == Data("") {
        assert stream == held == buffer[..buffered'];
        InputExhausted(stream, socket.reset);
        return if buffered' == 0 && !r.Failed? then ReadEnd else ReadError, buffered', line;
      }
    }
  }
}
